/** Name conversion with the real character tables (virtio/unicode.c). */
module MacRoman {
  import opened Words
  import opened NameConversion
  import opened MacRomanTables

  /** The packed bytes of a character of a file name, with slash and colon exchanged (utf8name). */
  function NameChar(roman: byte): (bytes: nat)
    ensures bytes < 0x100_0000
  {
    var bytes := Utf8Char(roman);
    if bytes == SLASH as int then COLON as int else if bytes == COLON as int then SLASH as int else bytes
  }

  function Tables(): Codec {
    Codec((c: byte) => NameChar(c), (b0: nat, b1: nat, b2: nat) => Parse(b0, b1, b2))
  }

  /** The printer and the parser fit together. No printed character starts with 0xcc, so a base letter
      is never taken together with what follows it. */
  lemma TablesFit()
    ensures Fits(Tables())
  {
    forall s: seq<byte> ensures ReadsOne(Tables(), s) { TablesRead(s); }
    assert Tables().encode(0) == 0;
    forall c: byte, rest: seq<byte> | c != 0 && (|rest| > 0 ==> rest[0] != 0xcc) ensures PrintsOneBack(Tables(), c, rest) {
      TablesPrint(c, rest);
    }
  }

  lemma TablesRead(s: seq<byte>)
    ensures ReadsOne(Tables(), s)
  {}

  lemma TablesPrint(c: byte, rest: seq<byte>)
    requires c != 0 && (|rest| > 0 ==> rest[0] != 0xcc)
    ensures PrintsOneBack(Tables(), c, rest)
  {
    if c < 0x80 {
      AsciiBack(c, rest);
    } else {
      var b0, b1, b2 := HighPrints(c);
      HighBack(c, b0, b1, b2, rest);
    }
  }

  lemma AsciiBack(c: byte, rest: seq<byte>)
    requires 0 < c < 0x80 && (|rest| > 0 ==> rest[0] != 0xcc)
    ensures PrintsOneBack(Tables(), c, rest)
  {
    var x := if c == SLASH then COLON else if c == COLON then SLASH else c;
    assert Unpack(NameChar(c)) == [x];
    assert At([x] + rest, 0) == x as int && At([x] + rest, 1) == At(rest, 0);
    assert Parse(x as int, At(rest, 0), At([x] + rest, 2)) == Parsed(x as int, 1);
  }

  /** ASCII characters keep their code, but a slash becomes a colon and a colon a slash. */
  lemma AsciiKept(c: byte)
    requires c < 128
    ensures Tables().encode(c) ==
            if c == '/' as int then ':' as int else if c == ':' as int then '/' as int else c
    ensures Unpack(Tables().encode(c)) == [Tables().encode(c)]
  {}

  lemma HighBack(c: byte, b0: byte, b1: byte, b2: byte, rest: seq<byte>)
    requires c >= 0x80 && Prints(c, b0, b1, b2)
    ensures PrintsOneBack(Tables(), c, rest)
  {
    var e := if b2 > 0 then [b0, b1, b2] else [b0, b1];
    UnpackDigits(b0, b1, b2);
    assert NameChar(c) == (b2 as int * 256 + b1 as int) * 256 + b0 as int;
    assert At(e + rest, 0) == b0 as int && At(e + rest, 1) == b1 as int;
    if b2 > 0 { assert At(e + rest, 2) == b2 as int; }
    assert Parse(b0, b1, At(e + rest, 2)) == Parsed(c as int, |e|);
  }

  lemma UnpackDigits(b0: byte, b1: byte, b2: byte)
    requires b1 > 0
    ensures Unpack((b2 as int * 256 + b1 as int) * 256 + b0 as int) == if b2 > 0 then [b0, b1, b2] else [b0, b1]
  {
    var w := b2 as int * 256 + b1 as int;
    var v := w * 256 + b0 as int;
    assert v % 256 == b0 as int && v / 256 == w;
    assert w % 256 == b1 as int && w / 256 == b2 as int;
    assert Unpack(w) == if b2 > 0 then [b1, b2] else [b1];
  }

  /** The name round trip, for every Pascal string: converting a Mac name to UTF-8 and back returns it
      exactly when it has no zero and no colon, and is at most 30 characters long, or is 31 long and
      ends in the hash of its own UTF-8 form. */
  lemma NameRoundTrip(name: seq<byte>)
    ensures Fits(Tables())
    ensures RoundTrip(Tables(), name) == name <==>
            && 0 !in name && COLON !in name
            && (|name| <= 30 || (|name| == 31 && name[26..] == HashTag(Utf8Of(Tables(), name))))
  {
    TablesFit();
    RoundTripExact(Tables(), name);
  }
}
