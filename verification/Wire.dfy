/** 9P2000.L messages as transact marshals and unmarshals them (virtio/9p.c): the byte layout as
    functions, and the theorems that it can be read back. */
module Wire {
  import opened Words

  /** An argument or result of transact. `Null` is a null string pointer. */
  datatype Value = Byte(v: nat) | Word(v: nat) | Dword(v: nat) | Qword(v: nat) | Text(s: seq<byte>) | Null
                 | Qid(kind: nat, version: nat, path: nat) | Big(data: seq<byte>)
  datatype Option<T> = None | Some(value: T)

  const HEADER: nat := 7
  const STRMAX: nat := 127
  const RLERROR: nat := 7

  // ------------------------------------------------------------------ integers

  /** `v` as n little-endian bytes. */
  function LE(v: nat, n: nat): (s: seq<byte>)
    ensures |s| == n
  {
    if n == 0 then [] else [v % 256] + LE(v / 256, n - 1)
  }

  function FromLE(s: seq<byte>): nat {
    if s == [] then 0 else s[0] + 256 * FromLE(s[1..])
  }

  function Pow256(n: nat): (p: nat)
    ensures p >= 1
  {
    if n == 0 then 1 else 256 * Pow256(n - 1)
  }

  lemma {:induction false} ReadBack(v: nat, n: nat)
    requires v < Pow256(n)
    ensures FromLE(LE(v, n)) == v
  {
    if n > 0 {
      ReadBack(v / 256, n - 1);
      assert LE(v, n)[1..] == LE(v / 256, n - 1);
    }
  }

  lemma {:induction false} WriteBack(s: seq<byte>)
    ensures FromLE(s) < Pow256(|s|) && LE(FromLE(s), |s|) == s
  {
    if s != [] {
      WriteBack(s[1..]);
      assert s == [s[0]] + s[1..];
    }
  }

  /** The bytes of `v`, the lowest first. */
  ghost predicate Little(s: seq<byte>, v: nat) {
    forall i :: 0 <= i < |s| ==> s[i] == v / Pow256(i) % 256
  }

  lemma {:induction false} LEIsLittle(v: nat, n: nat)
    ensures Little(LE(v, n), v)
  {
    if n > 0 {
      LEIsLittle(v / 256, n - 1);
      forall i | 0 <= i < n ensures LE(v, n)[i] == v / Pow256(i) % 256 {
        if i > 0 {
          assert LE(v, n)[i] == LE(v / 256, n - 1)[i - 1];
          DivDiv(v, 256, Pow256(i - 1));
        }
      }
    }
  }

  // ------------------------------------------------------------------- formats

  /** `x` is what format letter `c` takes; `Null` is allowed for strings sent. */
  predicate Has(c: char, x: Value) {
    match x
    case Byte(v) => c == 'b' && v < Pow256(1)
    case Word(v) => c == 'w' && v < Pow256(2)
    case Dword(v) => c == 'd' && v < Pow256(4)
    case Qword(v) => c == 'q' && v < Pow256(8)
    case Text(s) => c == 's' && |s| < Pow256(2)
    case Null => c == 's'
    case Qid(k, v, p) => c == 'Q' && k < Pow256(1) && v < Pow256(4) && p < Pow256(8)
    case Big(_) => c == 'B'
  }

  /** The arguments fit the format; a large buffer comes only at the end. */
  predicate Fits(fmt: string, xs: seq<Value>) {
    && |fmt| == |xs|
    && (forall i :: 0 <= i < |xs| ==> Has(fmt[i], xs[i]))
    && (forall i :: 0 <= i < |xs| - 1 ==> !xs[i].Big?)
  }

  function EncodeOne(x: Value): seq<byte> {
    match x
    case Byte(v) => LE(v, 1)
    case Word(v) => LE(v, 2)
    case Dword(v) => LE(v, 4)
    case Qword(v) => LE(v, 8)
    case Text(s) => LE(|s|, 2) + s
    case Null => LE(0, 2)
    case Qid(k, v, p) => LE(k, 1) + LE(v, 4) + LE(p, 8)
    case Big(data) => data
  }

  function Encode(xs: seq<Value>): seq<byte> {
    if xs == [] then [] else EncodeOne(xs[0]) + Encode(xs[1..])
  }

  /** A whole message: size, type, tag 0, then the fields. */
  function Message(cmd: nat, xs: seq<Value>): seq<byte> {
    LE(HEADER + |Encode(xs)|, 4) + LE(cmd, 1) + LE(0, 2) + Encode(xs)
  }

  // ------------------------------------------------------------------ the layout, read independently

  /** Reads one field from the front of `m`, and says how long it is. */
  function DecodeOne(c: char, m: seq<byte>): (r: Option<(Value, nat)>)
    ensures r.Some? ==> r.value.1 <= |m|
  {
    if c == 'b' && |m| >= 1 then Some((Byte(FromLE(m[..1])), 1))
    else if c == 'w' && |m| >= 2 then Some((Word(FromLE(m[..2])), 2))
    else if c == 'd' && |m| >= 4 then Some((Dword(FromLE(m[..4])), 4))
    else if c == 'q' && |m| >= 8 then Some((Qword(FromLE(m[..8])), 8))
    else if c == 's' && |m| >= 2 && |m| >= 2 + FromLE(m[..2]) then
      Some((Text(m[2..2 + FromLE(m[..2])]), 2 + FromLE(m[..2])))
    else if c == 'Q' && |m| >= 13 then Some((Qid(FromLE(m[..1]), FromLE(m[1..5]), FromLE(m[5..13])), 13))
    else if c == 'B' then Some((Big(m), |m|))
    else None
  }

  /** Reads a body by its format; nothing may be left over. */
  function Decode(fmt: string, m: seq<byte>): Option<seq<Value>> {
    if fmt == [] then (if m == [] then Some([]) else None)
    else
      match DecodeOne(fmt[0], m)
      case None => None
      case Some(one) =>
        match Decode(fmt[1..], m[one.1..])
        case None => None
        case Some(rest) => Some([one.0] + rest)
  }

  /** What the other side understands by an argument. */
  function Meaning(x: Value): Value {
    if x.Null? then Text([]) else x
  }

  function Meanings(xs: seq<Value>): (ms: seq<Value>)
    ensures |ms| == |xs| && forall i :: 0 <= i < |xs| ==> ms[i] == Meaning(xs[i])
  {
    seq(|xs|, i requires 0 <= i < |xs| => Meaning(xs[i]))
  }

  lemma DecodeOneEncode(c: char, x: Value, rest: seq<byte>)
    requires Has(c, x) && (x.Big? ==> rest == [])
    ensures DecodeOne(c, EncodeOne(x) + rest) == Some((Meaning(x), |EncodeOne(x)|))
  {
    var m := EncodeOne(x) + rest;
    match x
    case Byte(v) => assert m[..1] == LE(v, 1); ReadBack(v, 1);
    case Word(v) => assert m[..2] == LE(v, 2); ReadBack(v, 2);
    case Dword(v) => assert m[..4] == LE(v, 4); ReadBack(v, 4);
    case Qword(v) => assert m[..8] == LE(v, 8); ReadBack(v, 8);
    case Text(s) => assert m[..2] == LE(|s|, 2) && m[2..2 + |s|] == s; ReadBack(|s|, 2);
    case Null => assert m[..2] == LE(0, 2); ReadBack(0, 2);
    case Qid(k, v, p) =>
      assert m[..1] == LE(k, 1) && m[1..5] == LE(v, 4) && m[5..13] == LE(p, 8);
      ReadBack(k, 1);
      ReadBack(v, 4);
      ReadBack(p, 8);
    case Big(data) => assert m == data;
  }

  /** Reading what was written gives the arguments back, for every format and every arguments that
      fit it. */
  lemma {:induction false} DecodeEncode(fmt: string, xs: seq<Value>)
    requires Fits(fmt, xs)
    ensures Decode(fmt, Encode(xs)) == Some(Meanings(xs))
  {
    if xs != [] {
      var one, rest := EncodeOne(xs[0]), Encode(xs[1..]);
      DecodeEncode(fmt[1..], xs[1..]);
      DecodeOneEncode(fmt[0], xs[0], rest);
      assert (one + rest)[|one|..] == rest;
      assert [Meaning(xs[0])] + Meanings(xs[1..]) == Meanings(xs);
    }
  }

  lemma EncodeOneDecode(c: char, m: seq<byte>)
    requires DecodeOne(c, m).Some?
    ensures var (x, n) := DecodeOne(c, m).value; Has(c, x) && !x.Null? && EncodeOne(x) == m[..n]
  {
    var (x, n) := DecodeOne(c, m).value;
    match x
    case Byte(v) => WriteBack(m[..1]);
    case Word(v) => WriteBack(m[..2]);
    case Dword(v) => WriteBack(m[..4]);
    case Qword(v) => WriteBack(m[..8]);
    case Text(s) => WriteBack(m[..2]); assert m[..n] == m[..2] + s;
    case Qid(k, v, p) =>
      WriteBack(m[..1]);
      WriteBack(m[1..5]);
      WriteBack(m[5..13]);
      assert m[..13] == m[..1] + m[1..5] + m[5..13];
    case Big(data) => assert m[..n] == m;
  }

  lemma DecodeCons(fmt: string, m: seq<byte>) returns (x: Value, n: nat, rest: seq<Value>)
    requires fmt != [] && Decode(fmt, m).Some?
    ensures DecodeOne(fmt[0], m) == Some((x, n)) && n <= |m| && Decode(fmt[1..], m[n..]) == Some(rest)
    ensures Decode(fmt, m).value == [x] + rest
    ensures fmt[1..] == [] ==> rest == []
  {
    var one := DecodeOne(fmt[0], m).value;
    x, n := one.0, one.1;
    rest := Decode(fmt[1..], m[n..]).value;
  }

  /** Writing what was read gives the body back: a body has only one reading. */
  lemma {:induction false} EncodeDecode(fmt: string, m: seq<byte>)
    requires Decode(fmt, m).Some? && forall i :: 0 <= i < |fmt| - 1 ==> fmt[i] != 'B'
    ensures var xs := Decode(fmt, m).value; Fits(fmt, xs) && Encode(xs) == m
  {
    if fmt != [] {
      var x, n, rest := DecodeCons(fmt, m);
      EncodeOneDecode(fmt[0], m);
      EncodeDecode(fmt[1..], m[n..]);
      FitsCons(fmt, x, rest);
      assert Encode([x] + rest) == m[..n] + m[n..];
    }
  }

  lemma FitsCons(fmt: string, x: Value, rest: seq<Value>)
    requires fmt != [] && Has(fmt[0], x) && Fits(fmt[1..], rest) && (x.Big? ==> rest == [])
    ensures Fits(fmt, [x] + rest) && ([x] + rest)[1..] == rest
  {
    var xs := [x] + rest;
    forall i | 0 <= i < |xs| ensures Has(fmt[i], xs[i]) && (i < |xs| - 1 ==> !xs[i].Big?) {
      if i > 0 { assert Has(fmt[1..][i - 1], rest[i - 1]); }
    }
  }

  /** Two lists of results for one format that are sent alike are the same. */
  lemma SameBytes(fmt: string, xs: seq<Value>, ys: seq<Value>)
    requires Fits(fmt, xs) && Fits(fmt, ys) && Encode(xs) == Encode(ys)
    ensures Meanings(xs) == Meanings(ys)
  {
    DecodeEncode(fmt, xs);
    DecodeEncode(fmt, ys);
  }

  /** The header says how long the message is and what it is. */
  lemma MessageHeader(cmd: nat, xs: seq<Value>)
    requires HEADER + |Encode(xs)| < Pow256(4) && cmd < 256
    ensures var m := Message(cmd, xs);
            && |m| >= HEADER == 7 && FromLE(m[..4]) == |m| && m[4] == cmd && m[HEADER..] == Encode(xs)
            && Little(m[..4], |m|) && m[5] == 0 && m[6] == 0
  {
    var m := Message(cmd, xs);
    assert m[..4] == LE(HEADER + |Encode(xs)|, 4);
    ReadBack(HEADER + |Encode(xs)|, 4);
    LEIsLittle(HEADER + |Encode(xs)|, 4);
    assert m[5..7] == LE(0, 2);
    LEIsLittle(0, 2);
  }

  /** How a field is laid out in 9P2000: integers of 1, 2, 4 or 8 bytes, strings after a two-byte length, and
      a qid as its kind, version and path. */
  lemma FieldLayout(x: Value)
    ensures var s := EncodeOne(x);
            match x
            case Byte(v) => |s| == 1 && Little(s, v)
            case Word(v) => |s| == 2 && Little(s, v)
            case Dword(v) => |s| == 4 && Little(s, v)
            case Qword(v) => |s| == 8 && Little(s, v)
            case Text(t) => |s| == 2 + |t| && Little(s[..2], |t|) && s[2..] == t
            case Null => s == [0, 0]
            case Qid(k, v, p) => |s| == 13 && Little(s[..1], k) && Little(s[1..5], v) && Little(s[5..], p)
            case Big(data) => s == data
  {
    var s := EncodeOne(x);
    match x {
      case Byte(v) => LEIsLittle(v, 1);
      case Word(v) => LEIsLittle(v, 2);
      case Dword(v) => LEIsLittle(v, 4);
      case Qword(v) => LEIsLittle(v, 8);
      case Text(t) =>
        assert s[..2] == LE(|t|, 2);
        LEIsLittle(|t|, 2);
      case Null =>
      case Qid(k, v, p) =>
        assert s[..1] == LE(k, 1) && s[1..5] == LE(v, 4) && s[5..] == LE(p, 8);
        LEIsLittle(k, 1);
        LEIsLittle(v, 4);
        LEIsLittle(p, 8);
      case Big(_) =>
    }
  }

  lemma {:induction false} EncodeAppend(xs: seq<Value>, ys: seq<Value>)
    ensures Encode(xs + ys) == Encode(xs) + Encode(ys)
  {
    if xs == [] {
      assert xs + ys == ys;
    } else {
      EncodeAppend(xs[1..], ys);
      assert (xs + ys)[1..] == xs[1..] + ys;
    }
  }

  lemma EncodeSnoc(xs: seq<Value>, x: Value)
    ensures Encode(xs + [x]) == Encode(xs) + EncodeOne(x)
  {
    EncodeAppend(xs, [x]);
    assert Encode([x]) == EncodeOne(x);
  }
}
