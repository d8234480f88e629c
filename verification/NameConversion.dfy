/** Name conversion between Mac Roman Pascal strings and UTF-8 C strings (virtio/unicode.c), for any
    pair of character tables that fit together; MacRoman.dfy puts in the real ones. */
module NameConversion {
  import opened Words

  const SLASH: byte := 0x2f
  const COLON: byte := 0x3a
  const QUESTION: byte := 0x3f

  /** One step of toMacRoman: the character read, or -1, and how many bytes it took. */
  datatype Parsed = Parsed(roman: int, nbytes: nat)

  /** The two tables: the packed UTF-8 bytes of a character, slash and colon already exchanged, and
      what toMacRoman makes of the next three bytes, zero standing for the end of the string. */
  datatype Codec = Codec(encode: byte -> nat, decode: (nat, nat, nat) -> Parsed)

  /** The bytes of a packed value, lowest first, until the rest is zero: always at least one. */
  function Unpack(v: nat): (s: seq<byte>)
    ensures |s| >= 1 && (v < 0x100 ==> |s| == 1) && (v < 0x1_0000 ==> |s| <= 2) && (v < 0x100_0000 ==> |s| <= 3)
    decreases v
  {
    if v < 256 then [v] else [v % 256] + Unpack(v / 256)
  }

  /** Byte `i` of a C string of these bytes; its terminator reads as zero. */
  function At(s: seq<byte>, i: nat): nat {
    if i < |s| then s[i] as int else 0
  }

  function Next(codec: Codec, s: seq<byte>): Parsed {
    codec.decode(At(s, 0), At(s, 1), At(s, 2))
  }

  /** The character mr31name stores for what toMacRoman returned. */
  function Stored(ch: int): (b: byte)
    requires -1 <= ch <= 255
    ensures b != COLON && (b == 0 <==> ch == 0)
  {
    if ch < 0 then QUESTION else if ch == COLON as int then SLASH else ch
  }

  // ------------------------------------------------- what the tables must do

  /** toMacRoman stays inside the string and stops at its end. */
  ghost predicate Reads(codec: Codec) {
    forall s: seq<byte> :: ReadsOne(codec, s)
  }

  ghost predicate ReadsOne(codec: Codec, s: seq<byte>) {
    var p := Next(codec, s);
    && -1 <= p.roman <= 255
    && (p.roman == 0 <==> |s| == 0 || s[0] == 0)
    && (p.roman != 0 ==> 1 <= p.nbytes <= |s|)
  }

  /** Every character but zero prints as bytes other than zero, of which the first is not 0xcc, and is
      read back unless such a byte follows (a colon is read back as a slash). */
  ghost predicate PrintsBack(codec: Codec) {
    && codec.encode(0) == 0
    && (forall c: byte :: codec.encode(c) < 0x100_0000)
    && (forall c: byte, rest: seq<byte> :: c != 0 && (|rest| > 0 ==> rest[0] != 0xcc) ==> PrintsOneBack(codec, c, rest))
  }

  ghost predicate PrintsOneBack(codec: Codec, c: byte, rest: seq<byte>) {
    var e := Unpack(codec.encode(c));
    var p := Next(codec, e + rest);
    && e[0] != 0xcc && 0 !in e
    && p.nbytes == |e| && 0 < p.roman <= 255
    && Stored(p.roman) == if c == COLON then SLASH else c
  }

  ghost predicate Fits(codec: Codec) { Reads(codec) && PrintsBack(codec) }

  // ------------------------------------------------------- printing: utf8name

  /** The UTF-8 form of a name, without the terminating zero. */
  function Utf8Of(codec: Codec, name: seq<byte>): (s: seq<byte>) {
    if |name| == 0 then [] else Unpack(codec.encode(name[0])) + Utf8Of(codec, name[1..])
  }

  /** utf8name: `roman` is a Pascal string; the result is written from the start of `utf8`. */
  method Utf8Name(codec: Codec, utf8: array<byte>, roman: seq<byte>) returns (end: nat)
    requires PrintsBack(codec)
    requires |roman| > 0 && |roman| > roman[0] as int
    requires utf8.Length > 3 * roman[0] as int
    modifies utf8
    ensures end < utf8.Length && utf8[..end + 1] == Utf8Of(codec, roman[1..1 + roman[0] as int]) + [0]
  {
    var len: nat := roman[0] as int;
    ghost var name := roman[1..1 + len];
    end := 0;
    for i := 0 to len
      invariant end <= 3 * i && end < utf8.Length
      invariant utf8[..end] + Utf8Of(codec, name[i..]) == Utf8Of(codec, name)
    {
      PrintOneMore(codec, utf8[..end], name, i);
      assert roman[i + 1] == name[i];
      end := PutBytes(utf8, end, codec.encode(roman[i + 1]));
    }
    assert name[len..] == [];
    utf8[end] := 0;
  }

  lemma PrintOneMore(codec: Codec, s: seq<byte>, name: seq<byte>, i: nat)
    requires i < |name| && s + Utf8Of(codec, name[i..]) == Utf8Of(codec, name)
    ensures s + Unpack(codec.encode(name[i])) + Utf8Of(codec, name[i + 1..]) == Utf8Of(codec, name)
  {
    assert name[i..][1..] == name[i + 1..];
    Associative(s, Unpack(codec.encode(name[i])), Utf8Of(codec, name[i + 1..]));
  }

  lemma Associative(a: seq<byte>, b: seq<byte>, c: seq<byte>)
    ensures a + b + c == a + (b + c)
  {}

  /** The inner do-while loop of utf8name. */
  method PutBytes(utf8: array<byte>, at: nat, v: nat) returns (end: nat)
    requires at + |Unpack(v)| < utf8.Length
    modifies utf8
    ensures end == at + |Unpack(v)| && utf8[..end] == old(utf8[..at]) + Unpack(v)
  {
    end := at;
    var bytes := v;
    utf8[end] := bytes % 256;
    end := end + 1;
    bytes := bytes / 256;
    while bytes != 0
      invariant at < end <= at + |Unpack(v)|
      invariant utf8[..end] + (if bytes == 0 then [] else Unpack(bytes)) == old(utf8[..at]) + Unpack(v)
    {
      utf8[end] := bytes % 256;
      end := end + 1;
      bytes := bytes / 256;
    }
  }

  // ------------------------------------------------------ parsing: mr31name

  /** What mr31name's loop gathers: the characters, whether one was unknown, and whether the end of
      the string was seen. */
  datatype Scan = Scan(name: seq<byte>, bad: bool, complete: bool)

  predicate Storable(name: seq<byte>) { |name| <= 31 && 0 !in name && COLON !in name }

  /** The loop, from where `name` has been stored and `s` is still to be read. */
  function ScanFrom(codec: Codec, s: seq<byte>, name: seq<byte>, bad: bool): (r: Scan)
    requires Reads(codec) && Storable(name)
    ensures Storable(r.name)
    decreases 31 - |name|
  {
    if |name| == 31 then Scan(name, bad, false)
    else
      assert ReadsOne(codec, s);
      var p := Next(codec, s);
      if p.roman == 0 then Scan(name, bad, true)
      else ScanFrom(codec, s[p.nbytes..], name + [Stored(p.roman)], bad || p.roman < 0)
  }

  function Hash(s: seq<byte>): (h: nat)
    ensures h < U16
  {
    if |s| == 0 then 0 else (Hash(s[..|s| - 1]) * 31 + s[|s| - 1] as int) % U16
  }

  function HexDigit(d: nat): byte
    requires d < 16
  {
    if d < 10 then 0x30 + d else 0x61 + (d - 10)
  }

  /** sprintf "#%04x". */
  function Tag(h: nat): (t: seq<byte>)
    requires h < U16
    ensures |t| == 5 && 0 !in t && COLON !in t
  {
    [0x23, HexDigit(h / 0x1000), HexDigit(h / 0x100 % 16), HexDigit(h / 0x10 % 16), HexDigit(h % 16)]
  }

  function HashTag(s: seq<byte>): (t: seq<byte>)
    ensures |t| == 5 && 0 !in t && COLON !in t
  {
    Tag(Hash(s))
  }

  function Shortened(name: seq<byte>): seq<byte> {
    if |name| > 26 then name[..26] else name
  }

  /** The name mr31name makes of a C string: always a legal one. */
  function Mr31(codec: Codec, s: seq<byte>): (name: seq<byte>)
    requires Reads(codec)
    ensures |name| <= 31 && 0 !in name && COLON !in name
  {
    var r := ScanFrom(codec, s, [], false);
    if r.complete && !r.bad then r.name else Shortened(r.name) + HashTag(s)
  }

  // ---------------------------------------------------- what mr31name does, without its loop

  /** A Mac Roman character, or -1 for one that is unknown. */
  type Char = c: int | -1 <= c <= 255

  /** All the characters that a string holds. */
  function Chars(codec: Codec, s: seq<byte>): seq<Char>
    requires Reads(codec)
    decreases |s|
  {
    assert ReadsOne(codec, s);
    var p := Next(codec, s);
    if p.roman == 0 then [] else [p.roman] + Chars(codec, s[p.nbytes..])
  }

  /** A question mark for what is unknown, and a slash for a colon. */
  function Letters(cs: seq<Char>): (r: seq<byte>)
    ensures |r| == |cs|
    ensures forall i :: 0 <= i < |cs| ==>
              r[i] as int == if cs[i] == -1 then '?' as int else if cs[i] == ':' as int then '/' as int else cs[i]
  {
    seq(|cs|, i requires 0 <= i < |cs| => Stored(cs[i]))
  }

  function Least(a: nat, b: nat): nat { if a < b then a else b }

  lemma {:induction false} ScanChars(codec: Codec, s: seq<byte>, name: seq<byte>, bad: bool)
    requires Reads(codec) && Storable(name)
    ensures var cs := Chars(codec, s);
            var n := Least(|cs|, 31 - |name|);
            ScanFrom(codec, s, name, bad) == Scan(name + Letters(cs[..n]), bad || -1 in cs[..n], |name| + |cs| < 31)
    decreases 31 - |name|
  {
    assert ReadsOne(codec, s);
    var p := Next(codec, s);
    if |name| == 31 || p.roman == 0 {
      assert name + Letters([]) == name;
    } else {
      ScanChars(codec, s[p.nbytes..], name + [Stored(p.roman)], bad || p.roman < 0);
      ScanJoin(name, p.roman, Chars(codec, s[p.nbytes..]));
    }
  }

  lemma ScanJoin(name: seq<byte>, c: Char, rest: seq<Char>)
    requires |name| < 31
    ensures var cs := [c] + rest;
            var n := Least(|rest|, 30 - |name|);
            && Least(|cs|, 31 - |name|) == n + 1 && cs[..n + 1] == [c] + rest[..n]
            && (-1 in cs[..n + 1] <==> c == -1 || -1 in rest[..n])
            && name + [Stored(c)] + Letters(rest[..n]) == name + Letters(cs[..n + 1])
  {
    var cs, n := [c] + rest, Least(|rest|, 30 - |name|);
    assert cs[..n + 1] == [c] + rest[..n];
    assert Letters(cs[..n + 1]) == [Stored(c)] + Letters(rest[..n]);
  }

  /** A string of at most 30 characters, all known, becomes those; any other, its first 26 and its tag. */
  lemma Mr31Reads(codec: Codec, s: seq<byte>)
    requires Reads(codec)
    ensures var cs := Chars(codec, s);
            Mr31(codec, s) == if |cs| <= 30 && -1 !in cs then Letters(cs) else Letters(cs[..Least(|cs|, 26)]) + HashTag(s)
  {
    var cs := Chars(codec, s);
    ScanChars(codec, s, [], false);
    var n := Least(|cs|, 31);
    assert [] + Letters(cs[..n]) == Letters(cs[..n]);
    if |cs| <= 30 { assert cs[..n] == cs; }
    if n > 26 { assert Letters(cs[..n])[..26] == Letters(cs[..26]); }
  }

  /** The polynomial in 31 whose coefficients are the bytes. */
  function Polynomial(s: seq<byte>): nat {
    if |s| == 0 then 0 else Polynomial(s[..|s| - 1]) * 31 + s[|s| - 1]
  }

  lemma {:induction false} HashIs(s: seq<byte>)
    ensures Hash(s) == Polynomial(s) % 0x1_0000
  {
    if |s| > 0 {
      HashIs(s[..|s| - 1]);
      HornerStep(Polynomial(s[..|s| - 1]), s[|s| - 1] as int);
    }
  }

  lemma HornerStep(a: nat, b: nat)
    ensures (a % 0x1_0000 * 31 + b) % 0x1_0000 == (a * 31 + b) % 0x1_0000
  {
    var q, r := a / 0x1_0000, a % 0x1_0000;
    var z := r * 31 + b;
    assert a * 31 + b == 0x1_0000 * (31 * q + z / 0x1_0000) + z % 0x1_0000;
    DivModUnique(a * 31 + b, 0x1_0000, 31 * q + z / 0x1_0000, z % 0x1_0000);
  }

  /** The value of a lower-case hexadecimal digit. */
  function DigitValue(c: byte): int {
    if '0' as int <= c <= '9' as int then c - '0' as int
    else if 'a' as int <= c <= 'f' as int then c - 'a' as int + 10
    else -1
  }

  lemma DigitBack(d: nat)
    requires d < 16
    ensures DigitValue(HexDigit(d)) == d
  {}

  /** The tag is a number sign and that hash in four hexadecimal digits. */
  lemma HashTagIs(s: seq<byte>)
    ensures var t := HashTag(s);
            && t[0] == '#' as int && 0 <= DigitValue(t[1]) < 16 && 0 <= DigitValue(t[2]) < 16
            && 0 <= DigitValue(t[3]) < 16 && 0 <= DigitValue(t[4]) < 16
            && DigitValue(t[1]) * 0x1000 + DigitValue(t[2]) * 0x100 + DigitValue(t[3]) * 0x10 + DigitValue(t[4]) ==
               Polynomial(s) % 0x1_0000
  {
    HashIs(s);
    var h := Hash(s);
    Digits(h);
    DigitBack(h / 0x1000);
    DigitBack(h / 0x100 % 16);
    DigitBack(h / 0x10 % 16);
    DigitBack(h % 16);
  }

  lemma Digits(h: nat)
    requires h < 0x1_0000
    ensures h / 0x1000 < 16 && h == h / 0x1000 * 0x1000 + h / 0x100 % 16 * 0x100 + h / 0x10 % 16 * 0x10 + h % 16
  {
    var a, b := h / 0x10, h / 0x100;
    DivDiv(h, 0x10, 0x10);
    DivDiv(h, 0x100, 0x10);
    assert h == a * 0x10 + h % 16 && a == b * 0x10 + a % 16 && b == b / 16 * 0x10 + b % 16;
  }

  // -------------------------------------------------------------- round trip

  /** How a name comes back: with a slash for each colon. */
  function NoColons(name: seq<byte>): (r: seq<byte>)
    ensures |r| == |name|
    ensures forall i :: 0 <= i < |name| ==> r[i] == if name[i] == COLON then SLASH else name[i]
  {
    seq(|name|, i requires 0 <= i < |name| => if name[i] == COLON then SLASH else name[i])
  }

  lemma {:induction false} PrintedStart(codec: Codec, name: seq<byte>)
    requires PrintsBack(codec) && 0 !in name
    ensures 0 !in Utf8Of(codec, name)
    ensures |name| > 0 ==> |Utf8Of(codec, name)| > 0 && Utf8Of(codec, name)[0] != 0xcc
  {
    if |name| > 0 {
      PrintedStart(codec, name[1..]);
      assert PrintsOneBack(codec, name[0], Utf8Of(codec, name[1..]));
    }
  }

  /** Reading a printed name of any length gives back the name, as far as there is room. */
  lemma {:induction false} ScanPrinted(codec: Codec, name: seq<byte>, got: seq<byte>, bad: bool)
    requires Fits(codec) && 0 !in name && Storable(got)
    ensures var n := if |got| + |name| < 31 then |name| else 31 - |got|;
            ScanFrom(codec, Utf8Of(codec, name), got, bad) ==
              Scan(got + NoColons(name)[..n], bad, |got| + |name| < 31)
    decreases |name|
  {
    if |got| < 31 {
      if |name| > 0 {
        var rest := Utf8Of(codec, name[1..]);
        PrintedStart(codec, name[1..]);
        assert PrintsOneBack(codec, name[0], rest);
        var c := if name[0] == COLON then SLASH else name[0];
        ScanStep(codec, Unpack(codec.encode(name[0])), rest, got, bad);
        ScanPrinted(codec, name[1..], got + [c], bad);
        ScanNames(name, got, c);
      } else {
        assert ReadsOne(codec, []);
      }
    }
  }

  lemma ScanNext(codec: Codec, s: seq<byte>, at: nat, got: seq<byte>, bad: bool)
    requires Reads(codec) && |got| < 31 && Storable(got) && at <= |s|
    ensures var p := Next(codec, s[at..]);
            && -1 <= p.roman <= 255
            && (p.roman == 0 ==> ScanFrom(codec, s[at..], got, bad) == Scan(got, bad, true))
            && (p.roman != 0 ==>
                  && at + p.nbytes <= |s| && Storable(got + [Stored(p.roman)])
                  && ScanFrom(codec, s[at..], got, bad) ==
                     ScanFrom(codec, s[at + p.nbytes..], got + [Stored(p.roman)], bad || p.roman < 0))
  {
    assert ReadsOne(codec, s[at..]);
    var p := Next(codec, s[at..]);
    if p.roman != 0 { assert s[at..][p.nbytes..] == s[at + p.nbytes..]; }
  }

  lemma ScanStep(codec: Codec, e: seq<byte>, rest: seq<byte>, got: seq<byte>, bad: bool)
    requires Reads(codec) && |got| < 31 && Storable(got)
    requires var p := Next(codec, e + rest); p.nbytes == |e| && 0 < p.roman <= 255
    ensures ScanFrom(codec, e + rest, got, bad) ==
            ScanFrom(codec, rest, got + [Stored(Next(codec, e + rest).roman)], bad)
  {
    assert (e + rest)[|e|..] == rest;
  }

  lemma ScanNames(name: seq<byte>, got: seq<byte>, c: byte)
    requires |name| > 0 && |got| < 31 && c == NoColons(name)[0]
    ensures var n := if |got| + |name| < 31 then |name| else 31 - |got|;
            got + NoColons(name)[..n] == got + [c] + NoColons(name[1..])[..n - 1]
  {}

  /** The bytes of a C string: those before the first zero. */
  function CString(s: seq<byte>): (r: seq<byte>)
    ensures |r| <= |s| && r == s[..|r|] && 0 !in r && (|r| < |s| ==> s[|r|] == 0)
  {
    if |s| == 0 || s[0] == 0 then [] else [s[0]] + CString(s[1..])
  }

  /** utf8name followed by mr31name. */
  function RoundTrip(codec: Codec, name: seq<byte>): seq<byte>
    requires Reads(codec)
  {
    Mr31(codec, CString(Utf8Of(codec, name)))
  }

  lemma {:induction false} CStringAppend(a: seq<byte>, b: seq<byte>)
    ensures 0 !in a ==> CString(a + b) == a + CString(b)
    ensures 0 in a ==> CString(a + b) == CString(a)
  {
    if |a| > 0 {
      assert (a + b)[1..] == a[1..] + b;
      assert a == [a[0]] + a[1..];
      if a[0] != 0 { CStringAppend(a[1..], b); }
    } else {
      assert a + b == b;
    }
  }

  /** A zero in a name ends its printed form there. */
  lemma {:induction false} PrintedUpToZero(codec: Codec, name: seq<byte>)
    requires PrintsBack(codec)
    ensures CString(Utf8Of(codec, name)) == Utf8Of(codec, CString(name))
    ensures 0 !in name ==> CString(name) == name
    ensures 0 in name ==> |CString(name)| < |name|
  {
    if |name| > 0 {
      var e := Unpack(codec.encode(name[0]));
      PrintedUpToZero(codec, name[1..]);
      CStringAppend(e, Utf8Of(codec, name[1..]));
      if name[0] == 0 {
        assert e == [0];
      } else {
        assert PrintsOneBack(codec, name[0], []);
        assert CString(name)[1..] == CString(name[1..]);
      }
    }
  }

  /** What a name without zeros becomes. */
  lemma RoundTripValue(codec: Codec, name: seq<byte>)
    requires Fits(codec) && 0 !in name
    ensures |name| <= 30 ==> RoundTrip(codec, name) == NoColons(name)
    ensures |name| >= 31 ==> RoundTrip(codec, name) == NoColons(name)[..26] + HashTag(Utf8Of(codec, name))
  {
    PrintedUpToZero(codec, name);
    ScanPrinted(codec, name, [], false);
    if |name| >= 31 {
      assert ([] + NoColons(name)[..31])[..26] == NoColons(name)[..26];
    } else {
      assert [] + NoColons(name)[..|name|] == NoColons(name);
    }
  }

  /** The round trip returns exactly the names without zeros and colons of at most 30 characters, and
      those of 31 that happen to end in the hash of their own printed form. */
  lemma RoundTripExact(codec: Codec, name: seq<byte>)
    requires Fits(codec)
    ensures RoundTrip(codec, name) == name <==>
            && 0 !in name && COLON !in name
            && (|name| <= 30 || (|name| == 31 && name[26..] == HashTag(Utf8Of(codec, name))))
  {
    if 0 !in name {
      RoundTripValue(codec, name);
      if |name| <= 30 {
        NoColonsSame(name);
      } else {
        RoundTripLong(name, HashTag(Utf8Of(codec, name)));
      }
    }
  }

  lemma NoColonsSame(name: seq<byte>)
    ensures NoColons(name) == name <==> COLON !in name
  {
    if COLON in name {
      var i :| 0 <= i < |name| && name[i] == COLON;
      assert NoColons(name)[i] == SLASH;
    }
  }

  lemma RoundTripLong(name: seq<byte>, t: seq<byte>)
    requires |name| >= 31 && |t| == 5 && COLON !in t
    ensures NoColons(name)[..26] + t == name <==> COLON !in name && |name| == 31 && name[26..] == t
  {
    var r := NoColons(name)[..26] + t;
    if r == name {
      assert name[26..] == t;
      forall i | 0 <= i < |name| ensures name[i] != COLON {
        if i < 26 { assert name[i] == NoColons(name)[i]; } else { assert name[i] == t[i - 26]; }
      }
    }
    if COLON !in name && |name| == 31 && name[26..] == t {
      NoColonsSame(name);
      assert r == name[..26] + name[26..];
    }
  }

  // ---------------------------------------------------------------- mr31name

  /** The number of bytes before the terminator of the C string at the start of `memory`. */
  function StrLen(memory: seq<byte>): (n: nat)
    requires 0 in memory
    ensures n < |memory| && memory[n] == 0 && 0 !in memory[..n]
  {
    if memory[0] == 0 then 0 else
      assert 0 in memory[1..];
      var n := StrLen(memory[1..]);
      assert memory[..n + 1] == [memory[0]] + memory[1..][..n];
      n + 1
  }

  /** toMacRoman on the string at `at`; it never looks beyond the terminator. */
  method NextChar(codec: Codec, memory: seq<byte>, at: nat) returns (p: Parsed)
    requires 0 in memory && at <= StrLen(memory)
    ensures p == Next(codec, memory[..StrLen(memory)][at..])
  {
    ghost var s := memory[..StrLen(memory)][at..];
    assert forall i :: 0 <= i < |s| ==> s[i] == memory[at + i] && s[i] != 0 by {
      assert forall i :: 0 <= i < StrLen(memory) ==> memory[..StrLen(memory)][i] != 0;
    }
    var b0, b1, b2 := memory[at], 0, 0;
    if b0 != 0 {
      b1 := memory[at + 1];
      if b1 != 0 {
        b2 := memory[at + 2];
      }
    }
    p := codec.decode(b0, b1, b2);
  }

  /** mr31name: `roman` receives a Pascal string. */
  method Mr31Name(codec: Codec, roman: array<byte>, utf8: seq<byte>)
    requires Reads(codec) && roman.Length >= 32 && 0 in utf8
    modifies roman
    ensures var name := Mr31(codec, utf8[..StrLen(utf8)]);
            roman[0] as int == |name| && roman[1..1 + |name|] == name
  {
    var badchar, incomplete := ReadName(codec, roman, utf8);
    if incomplete || badchar {
      AppendHash(roman, utf8);
    }
  }

  /** The loop over the characters. */
  method ReadName(codec: Codec, roman: array<byte>, utf8: seq<byte>) returns (badchar: bool, incomplete: bool)
    requires Reads(codec) && roman.Length >= 32 && 0 in utf8
    modifies roman
    ensures roman[0] <= 31
    ensures ScanFrom(codec, utf8[..StrLen(utf8)], [], false) == Scan(roman[1..1 + roman[0] as int], badchar, !incomplete)
  {
    ghost var s := utf8[..StrLen(utf8)];
    var cursor: nat := 0;
    badchar, incomplete := false, true;
    roman[0] := 0;
    while roman[0] < 31
      invariant roman[0] <= 31 && cursor <= |s|
      invariant Storable(roman[1..1 + roman[0] as int])
      invariant ScanFrom(codec, s[cursor..], roman[1..1 + roman[0] as int], badchar) == ScanFrom(codec, s, [], false)
      decreases 31 - roman[0] as int
    {
      var p := NextChar(codec, utf8, cursor);
      ScanNext(codec, s, cursor, roman[1..1 + roman[0] as int], badchar);
      if p.roman == 0 {
        incomplete := false;
        return;
      }
      badchar := badchar || p.roman < 0;
      PushChar(roman, p.roman);
      cursor := cursor + p.nbytes;
    }
  }

  /** The store of one character, after `roman[++(roman[0])]`. */
  method PushChar(roman: array<byte>, ch: int)
    requires roman.Length >= 32 && roman[0] < 31 && -1 <= ch <= 255
    modifies roman
    ensures roman[0] == old(roman[0]) + 1
    ensures roman[1..1 + roman[0] as int] == old(roman[1..1 + roman[0] as int]) + [Stored(ch)]
  {
    roman[0] := roman[0] + 1;
    if ch < 0 {
      roman[roman[0]] := QUESTION;
    } else if ch == COLON as int {
      roman[roman[0]] := SLASH;
    } else {
      roman[roman[0]] := ch;
    }
  }

  /** mr31name's ending for a name that overflows or holds an unknown character. */
  method AppendHash(roman: array<byte>, utf8: seq<byte>)
    requires roman.Length >= 32 && 0 in utf8 && roman[0] <= 31
    modifies roman
    ensures var name := Shortened(old(roman[1..1 + roman[0] as int])) + HashTag(utf8[..StrLen(utf8)]);
            roman[0] as int == |name| && roman[1..1 + |name|] == name
  {
    var hash := HashString(utf8);
    if roman[0] > 26 {
      roman[0] := 26;
    }
    PutTag(roman, roman[0] as int, hash);
    roman[0] := roman[0] + 5;
  }

  /** sprintf of the tag after the first n characters. */
  method PutTag(roman: array<byte>, n: nat, hash: nat)
    requires n + 6 <= roman.Length && hash < U16
    modifies roman
    ensures roman[0] == old(roman[0])
    ensures roman[1..6 + n] == old(roman[1..1 + n]) + Tag(hash)
  {
    roman[1 + n] := 0x23;
    roman[2 + n] := HexDigit(hash / 0x1000);
    roman[3 + n] := HexDigit(hash / 0x100 % 16);
    roman[4 + n] := HexDigit(hash / 0x10 % 16);
    roman[5 + n] := HexDigit(hash % 16);
  }

  /** The loop that hashes the whole UTF-8 name. */
  method HashString(utf8: seq<byte>) returns (hash: nat)
    requires 0 in utf8
    ensures hash == Hash(utf8[..StrLen(utf8)])
  {
    hash := 0;
    var i := 0;
    while utf8[i] != 0
      invariant i <= StrLen(utf8) && hash == Hash(utf8[..i])
      decreases StrLen(utf8) - i
    {
      assert utf8[..i + 1][..i] == utf8[..i];
      hash := (hash * 31 + utf8[i] as int) % U16;
      i := i + 1;
    }
    assert forall j :: 0 <= j < StrLen(utf8) ==> utf8[..StrLen(utf8)][j] != 0;
    assert i == StrLen(utf8);
  }
}
