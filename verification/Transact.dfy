/** transact itself (virtio/9p.c): marshals into a 256-byte buffer, lays the reply over the header
    buffer and then the trailer buffer, and unmarshals, or recovers the code of an Rlerror. */
module Transact {
  import opened Words
  import opened Wire

  const SMALL: nat := 256

  /** All but the large buffer at the end. */
  function Small(xs: seq<Value>): seq<Value> {
    if xs != [] && xs[|xs| - 1].Big? then xs[..|xs| - 1] else xs
  }

  /** The large buffer, empty if there is none. */
  function Trailer(xs: seq<Value>): seq<byte> {
    if xs != [] && xs[|xs| - 1].Big? then xs[|xs| - 1].data else []
  }

  lemma SmallPlusTrailer(xs: seq<Value>)
    ensures Encode(xs) == Encode(Small(xs)) + Trailer(xs)
  {
    if xs != [] && xs[|xs| - 1].Big? {
      EncodeSnoc(Small(xs), xs[|xs| - 1]);
      assert xs == Small(xs) + [xs[|xs| - 1]];
    } else {
      assert Encode(xs) == Encode(Small(xs)) + [];
    }
  }

  // ------------------------------------------------------------------ writing

  /** The WRITE..LE macros. */
  method Put(t: array<byte>, at: nat, v: nat, n: nat)
    requires at + n <= t.Length
    modifies t
    ensures t[..] == old(t[..at]) + LE(v, n) + old(t[at + n..])
  {
    ghost var was, all := t[..], LE(v, n);
    var k, rest := 0, v;
    while k < n
      invariant 0 <= k <= n && all[k..] == LE(rest, n - k)
      invariant forall i :: 0 <= i < t.Length ==> t[i] == if at <= i < at + k then all[i - at] else was[i]
    {
      assert all[k] == all[k..][0] && all[k + 1..] == all[k..][1..];
      t[at + k] := rest % 256;
      rest := rest / 256;
      k := k + 1;
    }
  }

  /** memcpy into the message. */
  method Copy(t: array<byte>, at: nat, s: seq<byte>)
    requires at + |s| <= t.Length
    modifies t
    ensures t[..] == old(t[..at]) + s + old(t[at + |s|..])
  {
    forall i | 0 <= i < |s| {
      t[at + i] := s[i];
    }
  }

  /** Appends one field, other than the large buffer, at offset `ts`. */
  method PutOne(t: array<byte>, ts: nat, x: Value) returns (ts': nat)
    requires !x.Big? && !x.Qid? && ts + |EncodeOne(x)| <= t.Length
    modifies t
    ensures ts' == ts + |EncodeOne(x)| && t[..ts'] == old(t[..ts]) + EncodeOne(x)
  {
    match x {
      case Byte(v) => Put(t, ts, v, 1); ts' := ts + 1;
      case Word(v) => Put(t, ts, v, 2); ts' := ts + 2;
      case Dword(v) => Put(t, ts, v, 4); ts' := ts + 4;
      case Qword(v) => Put(t, ts, v, 8); ts' := ts + 8;
      case Null => Put(t, ts, 0, 2); ts' := ts + 2;
      case Text(s) =>
        Put(t, ts, |s|, 2);
        Copy(t, ts + 2, s);
        ts' := ts + 2 + |s|;
    }
  }

  /** Builds the request; what is sent is `t[..ts]` and then `tbig`. */
  method Marshal(cmd: byte, fmt: string, xs: seq<Value>) returns (t: array<byte>, ts: nat, tbig: seq<byte>)
    requires Fits(fmt, xs) && forall i :: 0 <= i < |xs| ==> !xs[i].Qid?
    requires HEADER + |Encode(Small(xs))| <= SMALL
    ensures fresh(t) && t.Length == SMALL && ts <= SMALL
    ensures t[..ts] + tbig == Message(cmd, xs) && tbig == Trailer(xs)
  {
    t := new byte[SMALL](_ => 0);
    ts, tbig := PutFields(t, fmt, xs);
    MessageParts(cmd, xs, ts + |tbig|);
    WriteHeader(t, ts, ts + |tbig|, cmd);
  }

  function Header(size: nat, cmd: nat): seq<byte> {
    LE(size, 4) + LE(cmd, 1) + LE(0, 2)
  }

  lemma MessageParts(cmd: nat, xs: seq<Value>, size: nat)
    requires size == HEADER + |Encode(Small(xs))| + |Trailer(xs)|
    ensures Header(size, cmd) + Encode(Small(xs)) + Trailer(xs) == Message(cmd, xs)
  {
    SmallPlusTrailer(xs);
    var h, a, b := Header(size, cmd), Encode(Small(xs)), Trailer(xs);
    assert h + a + b == h + (a + b);
  }

  method PutFields(t: array<byte>, fmt: string, xs: seq<Value>) returns (ts: nat, tbig: seq<byte>)
    requires Fits(fmt, xs) && forall i :: 0 <= i < |xs| ==> !xs[i].Qid?
    requires HEADER + |Encode(Small(xs))| <= SMALL == t.Length
    modifies t
    ensures HEADER <= ts <= SMALL && t[HEADER..ts] == Encode(Small(xs)) && tbig == Trailer(xs)
  {
    ts, tbig := HEADER, [];
    var f := 0;
    assert t[HEADER..ts] == [];
    while f < |fmt|
      invariant 0 <= f <= |fmt| && HEADER <= ts <= SMALL
      invariant t[HEADER..ts] == Encode(Small(xs[..f])) && tbig == Trailer(xs[..f])
    {
      SmallSnoc(xs, f);
      if fmt[f] == 'B' {
        tbig := xs[f].data;
      } else {
        ts := PutNext(t, ts, xs, f);
      }
      f := f + 1;
    }
    assert xs[..|fmt|] == xs;
  }

  method PutNext(t: array<byte>, ts: nat, xs: seq<Value>, f: nat) returns (ts': nat)
    requires f < |xs| && !xs[f].Big? && !xs[f].Qid? && forall i :: 0 <= i < |xs| - 1 ==> !xs[i].Big?
    requires HEADER <= ts <= t.Length == SMALL && t[HEADER..ts] == Encode(xs[..f])
    requires HEADER + |Encode(Small(xs))| <= SMALL
    modifies t
    ensures HEADER <= ts' <= SMALL && t[HEADER..ts'] == Encode(xs[..f] + [xs[f]])
  {
    NextFits(xs, f);
    ts' := PutAfter(t, ts, xs[f]);
  }

  lemma NextFits(xs: seq<Value>, f: nat)
    requires f < |xs| && !xs[f].Big? && forall i :: 0 <= i < |xs| - 1 ==> !xs[i].Big?
    ensures Encode(xs[..f] + [xs[f]]) == Encode(xs[..f]) + EncodeOne(xs[f])
    ensures |Encode(xs[..f])| + |EncodeOne(xs[f])| <= |Encode(Small(xs))|
  {
    var rest := SmallSplit(xs, f);
    EncodeSnoc(xs[..f], xs[f]);
    EncodeAppend(xs[..f] + [xs[f]], rest);
  }

  method PutAfter(t: array<byte>, ts: nat, x: Value) returns (ts': nat)
    requires !x.Big? && !x.Qid? && HEADER <= ts && ts + |EncodeOne(x)| <= t.Length
    modifies t
    ensures ts' == ts + |EncodeOne(x)| && t[HEADER..ts'] == old(t[HEADER..ts]) + EncodeOne(x)
  {
    ghost var was := t[..ts];
    assert was[HEADER..] == t[HEADER..ts];
    ts' := PutOne(t, ts, x);
    DropHead(was, EncodeOne(x), HEADER);
    assert t[HEADER..ts'] == t[..ts'][HEADER..];
  }

  lemma DropHead(a: seq<byte>, b: seq<byte>, k: nat)
    requires k <= |a|
    ensures (a + b)[k..] == a[k..] + b
  {}

  method WriteHeader(t: array<byte>, ts: nat, size: nat, cmd: byte)
    requires HEADER <= ts <= t.Length
    modifies t
    ensures t[..ts] == Header(size, cmd) + old(t[HEADER..ts])
  {
    ghost var was := t[..];
    Put(t, 0, size, 4);
    t[4] := cmd;
    Put(t, 5, 0, 2);
    assert forall i :: HEADER <= i < ts ==> t[i] == was[i];
    assert t[..HEADER] == Header(size, cmd);
    assert t[..ts] == t[..HEADER] + was[HEADER..ts];
  }

  lemma SmallSnoc(xs: seq<Value>, f: nat)
    requires f < |xs| && forall i :: 0 <= i < |xs| - 1 ==> !xs[i].Big?
    ensures Small(xs[..f]) == xs[..f] && Trailer(xs[..f]) == []
    ensures !xs[f].Big? ==> Small(xs[..f + 1]) == xs[..f] + [xs[f]] && Trailer(xs[..f + 1]) == []
    ensures xs[f].Big? ==> Small(xs[..f + 1]) == xs[..f] && Trailer(xs[..f + 1]) == xs[f].data
  {
    assert xs[..f + 1] == xs[..f] + [xs[f]];
  }

  // ------------------------------------------------------------------ the reply

  /** Room kept in the header buffer for one result. */
  function Room(c: char): nat {
    match c
    case 'b' => 1
    case 'w' => 2
    case 'd' => 4
    case 'q' => 8
    case 's' => 2 + STRMAX
    case 'Q' => 13
    case _ => 0
  }

  function Rooms(fmt: string): nat {
    if fmt == [] then 0 else Rooms(fmt[..|fmt| - 1]) + Room(fmt[|fmt| - 1])
  }

  /** The size of the header buffer for a reply; room is made for an Rlerror. */
  function ReplySize(fmt: string, trailer: nat): nat {
    var rs := HEADER + Rooms(fmt);
    if rs < 11 && trailer == 0 then 11 else rs
  }

  function ErrorReply(code: nat): seq<byte> {
    LE(11, 4) + LE(RLERROR, 1) + LE(0, 2) + LE(code, 4)
  }

  /** Results that the format's buffers can hold: strings are limited, and a large buffer follows only
      fields of fixed size. */
  predicate Holds(fmt: string, xs: seq<Value>) {
    && Fits(fmt, xs)
    && (forall i :: 0 <= i < |xs| ==> !xs[i].Null? && (xs[i].Text? ==> |xs[i].s| <= STRMAX))
    && (xs != [] && xs[|xs| - 1].Big? ==> forall i :: 0 <= i < |xs| ==> !xs[i].Text?)
  }

  lemma OneRoom(c: char, x: Value)
    requires Has(c, x) && !x.Null? && (x.Text? ==> |x.s| <= STRMAX)
    ensures !x.Big? ==> |EncodeOne(x)| <= Room(c) && (!x.Text? ==> |EncodeOne(x)| == Room(c))
    ensures x.Big? ==> Room(c) == 0
  {}

  /** The header buffer is big enough, and exactly filled when a trailer follows. */
  lemma {:induction false} RoomsEnough(fmt: string, xs: seq<Value>)
    requires Fits(fmt, xs)
    requires forall i :: 0 <= i < |xs| ==> !xs[i].Null? && (xs[i].Text? ==> |xs[i].s| <= STRMAX)
    ensures |Encode(Small(xs))| <= Rooms(fmt)
    ensures (forall i :: 0 <= i < |xs| ==> !xs[i].Text?) ==> |Encode(Small(xs))| == Rooms(fmt)
  {
    if xs != [] {
      var n := |xs| - 1;
      RoomsEnough(fmt[..n], xs[..n]);
      OneRoom(fmt[n], xs[n]);
      SmallSnoc(xs, n);
      assert xs[..n + 1] == xs;
      EncodeSnoc(xs[..n], xs[n]);
    }
  }

  /** The READ..LE macros. */
  method Get(r: array<byte>, at: nat, n: nat) returns (v: nat)
    requires at + n <= r.Length
    ensures v == FromLE(r[at..at + n])
  {
    v := 0;
    var k := n;
    while k > 0
      invariant 0 <= k <= n && v == FromLE(r[at + k..at + n])
    {
      k := k - 1;
      assert r[at + k..at + n][1..] == r[at + k + 1..at + n];
      v := r[at + k] + 256 * v;
    }
  }

  /** Reads one result, other than the large buffer, at offset `rs`. */
  method GetOne(r: array<byte>, rs: nat, c: char) returns (x: Value, rs': nat)
    requires c in "bwdqsQ" && rs <= r.Length && DecodeOne(c, r[rs..]).Some?
    ensures DecodeOne(c, r[rs..]) == Some((x, rs' - rs)) && rs <= rs' <= r.Length
  {
    ghost var m := r[rs..];
    if c == 'b' {
      var v := Get(r, rs, 1);
      x, rs' := Byte(v), rs + 1;
    } else if c == 'w' {
      var v := Get(r, rs, 2);
      x, rs' := Word(v), rs + 2;
    } else if c == 'd' {
      var v := Get(r, rs, 4);
      x, rs' := Dword(v), rs + 4;
    } else if c == 'q' {
      var v := Get(r, rs, 8);
      x, rs' := Qword(v), rs + 8;
    } else if c == 's' {
      x, rs' := GetText(r, rs);
    } else {
      x, rs' := GetQid(r, rs);
    }
    assert r[rs..rs'] == m[..rs' - rs];
  }

  method GetText(r: array<byte>, rs: nat) returns (x: Value, rs': nat)
    requires rs <= r.Length && DecodeOne('s', r[rs..]).Some?
    ensures DecodeOne('s', r[rs..]) == Some((x, rs' - rs)) && rs <= rs' <= r.Length
  {
    ghost var m := r[rs..];
    var slen := Get(r, rs, 2);
    assert r[rs..rs + 2] == m[..2];
    assert r[rs + 2..rs + 2 + slen] == m[2..2 + slen];
    x, rs' := Text(r[rs + 2..rs + 2 + slen]), rs + 2 + slen;
  }

  method GetQid(r: array<byte>, rs: nat) returns (x: Value, rs': nat)
    requires rs <= r.Length && DecodeOne('Q', r[rs..]).Some?
    ensures DecodeOne('Q', r[rs..]) == Some((x, rs' - rs)) && rs <= rs' <= r.Length
  {
    ghost var m := r[rs..];
    var kind := Get(r, rs, 1);
    var version := Get(r, rs + 1, 4);
    var path := Get(r, rs + 5, 8);
    assert r[rs..rs + 1] == m[..1] && r[rs + 1..rs + 5] == m[1..5] && r[rs + 5..rs + 13] == m[5..13];
    x, rs' := Qid(kind, version, path), rs + 13;
  }

  /** Reads the results back out of the header buffer; a large buffer needs nothing done. */
  method Unmarshal(r: array<byte>, fmt: string, ghost xs: seq<Value>) returns (vals: seq<Value>)
    requires Fits(fmt, xs) && forall i :: 0 <= i < |xs| ==> !xs[i].Null?
    requires var body := Encode(Small(xs)); HEADER + |body| <= r.Length && body <= r[HEADER..]
    ensures vals == Small(xs)
  {
    vals := [];
    var rs, f := HEADER, 0;
    assert xs[..f] == [];
    while f < |fmt|
      invariant 0 <= f <= |fmt| && vals == Small(xs[..f])
      invariant rs == HEADER + |Encode(Small(xs[..f]))| <= r.Length
    {
      SmallSnoc(xs, f);
      if fmt[f] != 'B' {
        NextField(r[HEADER..], xs, f);
        DecodeOneEncode(fmt[f], xs[f], r[HEADER..][|Encode(xs[..f + 1])|..]);
        assert r[rs..] == r[HEADER..][rs - HEADER..];
        var x;
        x, rs := GetOne(r, rs, fmt[f]);
        EncodeSnoc(xs[..f], xs[f]);
        vals := vals + [x];
      }
      f := f + 1;
    }
    assert xs[..|fmt|] == xs;
  }

  /** After the first f fields of a body comes field f. */
  lemma NextField(m: seq<byte>, xs: seq<Value>, f: nat)
    requires f < |xs| && !xs[f].Big? && (forall i :: 0 <= i < |xs| - 1 ==> !xs[i].Big?)
    requires Encode(Small(xs)) <= m
    ensures |Encode(xs[..f])| <= |Encode(xs[..f + 1])| <= |m|
    ensures m[|Encode(xs[..f])|..] == EncodeOne(xs[f]) + m[|Encode(xs[..f + 1])|..]
  {
    var s := SmallSplit(xs, f);
    EncodeSnoc(xs[..f], xs[f]);
    EncodeAppend(xs[..f + 1], s);
    Parts(m, Encode(xs[..f]), EncodeOne(xs[f]), Encode(s));
  }

  lemma SmallSplit(xs: seq<Value>, f: nat) returns (rest: seq<Value>)
    requires f < |xs| && !xs[f].Big?
    ensures Small(xs) == xs[..f + 1] + rest && xs[..f + 1] == xs[..f] + [xs[f]]
  {
    var s := Small(xs);
    rest := s[f + 1..];
    assert s[..f + 1] == xs[..f + 1];
  }

  lemma Parts(m: seq<byte>, a: seq<byte>, b: seq<byte>, c: seq<byte>)
    requires a + b + c <= m
    ensures m[|a|..] == b + m[|a + b|..]
  {
    assert a + b + c == m[..|a + b + c|];
    assert m[..|a + b|] == a + b;
    assert m[|a|..|a + b|] == (a + b)[|a|..] == b;
  }

  /** `b << n`. */
  function Shifted(b: byte, n: nat): nat
    requires n in {0, 8, 16, 24}
  {
    (b as nat) * (if n == 0 then 1 else if n == 8 then 0x100 else if n == 16 then 0x10000 else 0x1000000)
  }

  /** The four bytes of an error code, wherever the split between the buffers falls. */
  method ErrorCode(r: array<byte>, rs: nat, rbig: array<byte>) returns (err: nat)
    requires HEADER <= rs <= r.Length && 11 <= rs + rbig.Length
    ensures var m := r[..rs] + rbig[..]; err == FromLE(m[HEADER..HEADER + 4])
  {
    err := 0;
    ghost var m := r[..rs] + rbig[..];
    var big, errbyte := false, HEADER;
    var i := 0;
    while i < 4
      invariant 0 <= i <= 4
      invariant if big then errbyte == HEADER + i - rs >= 0 else errbyte == HEADER + i <= rs
      invariant i == 0 ==> err == 0
      invariant i == 1 ==> err == Shifted(m[7], 24)
      invariant i == 2 ==> err == Shifted(m[8], 24) + Shifted(m[7], 16)
      invariant i == 3 ==> err == Shifted(m[9], 24) + Shifted(m[8], 16) + Shifted(m[7], 8)
      invariant i == 4 ==> err == Shifted(m[10], 24) + Shifted(m[9], 16) + Shifted(m[8], 8) + Shifted(m[7], 0)
    {
      if !big && errbyte == rs {
        big, errbyte := true, 0;
      }
      var b := if big then rbig[errbyte] else r[errbyte];
      assert b == m[HEADER + i];
      err := Shifted(b, 24) + err / 256;
      errbyte := errbyte + 1;
      i := i + 1;
    }
    FourBytes(m[HEADER..HEADER + 4]);
  }

  lemma FourBytes(s: seq<byte>)
    requires |s| == 4
    ensures FromLE(s) == Shifted(s[3], 24) + Shifted(s[2], 16) + Shifted(s[1], 8) + Shifted(s[0], 0)
  {
    assert s[1..][1..] == s[2..] && s[2..][1..] == s[3..] && s[3..][1..] == [];
    assert FromLE(s[3..]) == s[3];
    assert FromLE(s[2..]) == s[2] + 256 * FromLE(s[3..]);
    assert FromLE(s[1..]) == s[1] + 256 * FromLE(s[2..]);
  }

  // ------------------------------------------------------------------ a whole transaction

  predicate IsError(reply: seq<byte>, code: nat) {
    code < Pow256(4) && reply == ErrorReply(code)
  }

  predicate IsResult(reply: seq<byte>, cmd: byte, fmt: string, xs: seq<Value>, room: nat) {
    Holds(fmt, xs) && reply == Message(cmd + 1, xs) && HEADER + |Encode(xs)| < Pow256(4) && |Trailer(xs)| <= room
  }

  lemma ErrorBytes(code: nat)
    requires code < Pow256(4)
    ensures |ErrorReply(code)| == 11 && ErrorReply(code)[4] == RLERROR && Little(ErrorReply(code)[7..], code)
    ensures FromLE(ErrorReply(code)[HEADER..HEADER + 4]) == code
  {
    ReadBack(code, 4);
    assert ErrorReply(code)[HEADER..HEADER + 4] == LE(code, 4);
    assert ErrorReply(code)[7..] == LE(code, 4);
    LEIsLittle(code, 4);
  }

  /** The results lie in the header buffer, and a large buffer starts exactly where the trailer does. */
  lemma ResultBytes(reply: seq<byte>, cmd: byte, fmt: string, xs: seq<Value>, room: nat)
    requires IsResult(reply, cmd, fmt, xs, room) && cmd < 255
    ensures var rs, n := ReplySize(fmt, room), HEADER + |Encode(Small(xs))|;
            && n <= rs && |reply| <= rs + room && n <= |reply| && reply[4] == cmd + 1
            && reply[HEADER..n] == Encode(Small(xs))
            && (Trailer(xs) != [] ==> n == rs && reply[n..] == Trailer(xs))
  {
    MessageHeader(cmd + 1, xs);
    SmallPlusTrailer(xs);
    RoomsEnough(fmt, xs);
    BodyParts(reply, Encode(Small(xs)), Trailer(xs));
  }

  lemma BodyParts(m: seq<byte>, a: seq<byte>, b: seq<byte>)
    requires |m| >= HEADER && m[HEADER..] == a + b
    ensures var n := HEADER + |a|; |m| == n + |b| && m[HEADER..n] == a && m[n..] == b
  {
    var n := HEADER + |a|;
    assert m[HEADER..n] == m[HEADER..][..|a|];
    assert m[n..] == m[HEADER..][|a|..];
  }

  /** The device writes its reply into the header buffer and goes on in the trailer buffer. */
  method Lay(reply: seq<byte>, r: array<byte>, rs: nat, rbig: array<byte>)
    requires rs <= r.Length && |reply| <= rs + rbig.Length && r != rbig
    modifies r, rbig
    ensures reply <= r[..rs] + rbig[..]
  {
    forall i | 0 <= i < |reply| && i < rs {
      r[i] := reply[i];
    }
    forall i | 0 <= i < |reply| - rs {
      rbig[i] := reply[rs + i];
    }
  }

  method CountRoom(fmt: string, trailer: nat) returns (rs: nat)
    ensures rs == ReplySize(fmt, trailer)
  {
    rs := HEADER;
    var f := 0;
    while f < |fmt|
      invariant 0 <= f <= |fmt| && rs == HEADER + Rooms(fmt[..f])
    {
      assert fmt[..f + 1][..f] == fmt[..f];
      rs := rs + Room(fmt[f]);
      f := f + 1;
    }
    assert fmt[..|fmt|] == fmt;
    if rs < 11 && trailer == 0 {
      rs := 11;
    }
  }

  /** What the server may answer with. */
  ghost predicate Answers(reply: seq<byte>, cmd: byte, fmt: string, room: nat) {
    (exists code: nat :: IsError(reply, code)) || (exists xs :: IsResult(reply, cmd, fmt, xs, room))
  }

  /** One request and its reply, with memory locking and scattering left aside. The request is the 9P
      message for the arguments; an error code comes back whatever the split between the buffers; and
      results come back as the server gave them, the large one in `rbig`. */
  method Transaction(cmd: byte, tfmt: string, targs: seq<Value>, rfmt: string, rbig: array<byte>,
                     server: seq<byte> -> seq<byte>)
    returns (err: nat, vals: seq<Value>)
    requires Fits(tfmt, targs) && (forall i :: 0 <= i < |targs| ==> !targs[i].Qid?) && cmd < 255 && cmd + 1 != RLERROR
    requires HEADER + |Encode(Small(targs))| <= SMALL
    requires ReplySize(rfmt, rbig.Length) <= SMALL && ReplySize(rfmt, rbig.Length) + rbig.Length >= 11
    requires Answers(server(Message(cmd, targs)), cmd, rfmt, rbig.Length)
    modifies rbig
    ensures var reply := server(Message(cmd, targs));
            && (forall code :: IsError(reply, code) ==> err == code && vals == [])
            && (forall xs :: IsResult(reply, cmd, rfmt, xs, rbig.Length) ==>
                  err == 0 && vals == Small(xs) && Trailer(xs) <= rbig[..])
  {
    var t, ts, tbig := Marshal(cmd, tfmt, targs);
    var rs := CountRoom(rfmt, rbig.Length);
    var reply := server(t[..ts] + tbig);
    err, vals := Receive(reply, cmd, rfmt, rs, rbig);
  }

  method Receive(reply: seq<byte>, cmd: byte, fmt: string, rs: nat, rbig: array<byte>) returns (err: nat, vals: seq<Value>)
    requires Answers(reply, cmd, fmt, rbig.Length) && cmd < 255 && cmd + 1 != RLERROR
    requires rs == ReplySize(fmt, rbig.Length) <= SMALL && rs + rbig.Length >= 11
    modifies rbig
    ensures forall code :: IsError(reply, code) ==> err == code && vals == []
    ensures forall xs :: IsResult(reply, cmd, fmt, xs, rbig.Length) ==>
              err == 0 && vals == Small(xs) && Trailer(xs) <= rbig[..]
  {
    AnswerBytes(reply, cmd, fmt, rbig.Length);
    var r := new byte[SMALL](_ => 0);
    Lay(reply, r, rs, rbig);
    assert r[4] == (r[..rs] + rbig[..])[4] == reply[4];
    if r[4] == RLERROR {
      err := ErrorCode(r, rs, rbig);
      vals := [];
      forall code | IsError(reply, code) ensures err == code {
        ErrorBytes(code);
        Overlay(reply, r[..rs], rbig[..], HEADER, 11);
      }
    } else {
      ghost var xs :| IsResult(reply, cmd, fmt, xs, rbig.Length);
      ResultLaid(reply, cmd, fmt, xs, r[..], rs, rbig[..]);
      err := 0;
      vals := Unmarshal(r, fmt, xs);
      forall ys | IsResult(reply, cmd, fmt, ys, rbig.Length) ensures ys == xs {
        ResultUnique(reply, cmd, fmt, xs, ys, rbig.Length);
      }
    }
  }

  /** The type byte tells an error from a result. */
  lemma AnswerBytes(reply: seq<byte>, cmd: byte, fmt: string, room: nat)
    requires Answers(reply, cmd, fmt, room) && cmd < 255 && cmd + 1 != RLERROR && ReplySize(fmt, room) + room >= 11
    ensures HEADER <= |reply| <= ReplySize(fmt, room) + room
    ensures reply[4] == 7 <==> exists code: nat :: IsError(reply, code)
    ensures reply[4] != 7 <==> exists xs :: IsResult(reply, cmd, fmt, xs, room)
  {
    if xs :| IsResult(reply, cmd, fmt, xs, room) {
      ResultBytes(reply, cmd, fmt, xs, room);
    }
    if code: nat :| IsError(reply, code) {
      ErrorBytes(code);
    }
  }

  lemma ResultUnique(reply: seq<byte>, cmd: byte, fmt: string, xs: seq<Value>, ys: seq<Value>, room: nat)
    requires IsResult(reply, cmd, fmt, xs, room) && IsResult(reply, cmd, fmt, ys, room) && cmd < 255
    ensures xs == ys
  {
    MessageHeader(cmd + 1, xs);
    MessageHeader(cmd + 1, ys);
    SameBytes(fmt, xs, ys);
    assert Meanings(xs) == xs && Meanings(ys) == ys;
  }

  lemma Overlay(reply: seq<byte>, a: seq<byte>, b: seq<byte>, i: nat, j: nat)
    requires reply <= a + b && i <= j <= |reply|
    ensures (a + b)[i..j] == reply[i..j]
    ensures j <= |a| ==> a[i..j] == reply[i..j]
    ensures |a| <= |reply| ==> reply[|a|..] <= b
  {
    assert reply == (a + b)[..|reply|];
    if j <= |a| { assert a[i..j] == (a + b)[i..j]; }
    if |a| <= |reply| { assert reply[|a|..] == b[..|reply| - |a|]; }
  }

  lemma ResultLaid(reply: seq<byte>, cmd: byte, fmt: string, xs: seq<Value>, r: seq<byte>, rs: nat, rbig: seq<byte>)
    requires IsResult(reply, cmd, fmt, xs, |rbig|) && cmd < 255 && HEADER <= rs == ReplySize(fmt, |rbig|) <= |r|
    requires reply <= r[..rs] + rbig
    ensures HEADER + |Encode(Small(xs))| <= |r| && Encode(Small(xs)) <= r[HEADER..]
    ensures Trailer(xs) <= rbig
  {
    ResultBytes(reply, cmd, fmt, xs, |rbig|);
    var n := HEADER + |Encode(Small(xs))|;
    Overlay(reply, r[..rs], rbig, HEADER, n);
    SliceOf(r, HEADER, n, rs);
  }

  lemma SliceOf(r: seq<byte>, i: nat, n: nat, rs: nat)
    requires i <= n <= rs <= |r|
    ensures r[..rs][i..n] <= r[i..]
  {
    assert r[..rs][i..n] == r[i..][..n - i];
  }
}
