/** Directory listing: Readdir9 over whatever blocks the server splits a listing into (virtio/9p.c), and
    the cached lookup by index in fsGetFileInfo (virtio/device-9p.c). */
module Listing {
  import opened Words
  import opened Wire
  import opened Transact

  /** One directory entry as the server sends it; `cookie` is its offset field. */
  datatype Entry = Entry(kind: nat, version: nat, path: nat, cookie: nat, linuxType: nat, name: seq<byte>)

  ghost predicate Sound(e: Entry) {
    && e.kind < Pow256(1) && e.version < Pow256(4) && e.path < Pow256(8)
    && 0 < e.cookie < Pow256(8) && e.linuxType < Pow256(1) && |e.name| < Pow256(2)
  }

  function Pack(e: Entry): (s: seq<byte>)
    ensures |s| == 24 + |e.name|
  {
    LE(e.kind, 1) + LE(e.version, 4) + LE(e.path, 8) + LE(e.cookie, 8) + LE(e.linuxType, 1) + LE(|e.name|, 2) + e.name
  }

  function PackAll(es: seq<Entry>): seq<byte> {
    if es == [] then [] else Pack(es[0]) + PackAll(es[1..])
  }

  lemma {:induction false} PackAppend(es: seq<Entry>, e: Entry)
    ensures PackAll(es + [e]) == PackAll(es) + Pack(e)
  {
    if es == [] {
      assert PackAll([e]) == Pack(e) + PackAll([]);
    } else {
      PackAppend(es[1..], e);
      assert (es + [e])[1..] == es[1..] + [e];
      Concat3(Pack(es[0]), PackAll(es[1..]), Pack(e));
    }
  }

  lemma PackNext(es: seq<Entry>, pos: nat, i: nat)
    requires pos <= i < |es|
    ensures PackAll(es[pos..i + 1]) == PackAll(es[pos..i]) + Pack(es[i])
  {
    assert es[pos..i + 1] == es[pos..i] + [es[i]];
    PackAppend(es[pos..i], es[i]);
  }

  lemma Concat3(a: seq<byte>, b: seq<byte>, c: seq<byte>)
    ensures a + (b + c) == a + b + c
  {}

  lemma NonEmptyBlock(es: seq<Entry>)
    ensures |PackAll(es)| > 0 <==> |es| > 0
  {}

  /** What the server keeps of a directory: distinct non-zero cookies, and no entry too big to send. */
  ghost predicate Directory(es: seq<Entry>, count: nat) {
    && (forall i :: 0 <= i < |es| ==> Sound(es[i]) && |Pack(es[i])| <= count)
    && (forall i, j :: 0 <= i < j < |es| ==> es[i].cookie != es[j].cookie)
  }

  /** The offset to ask for after the first `pos` entries. */
  function Cookie(es: seq<Entry>, pos: nat): nat
    requires pos <= |es|
  {
    if pos == 0 then 0 else es[pos - 1].cookie
  }

  /** The server answers Treaddir with at least one whole entry, if any are left after the one whose
      cookie is given, and otherwise as many as it likes. */
  method Treaddir(es: seq<Entry>, offset: nat, count: nat, ghost pos: nat) returns (block: seq<byte>, ghost n: nat)
    requires Directory(es, count) && pos <= |es| && offset == Cookie(es, pos)
    ensures pos + n <= |es| && (pos < |es| ==> n > 0)
    ensures |block| <= count && block == PackAll(es[pos..pos + n])
  {
    var i := Find(es, offset, pos, count);
    block, n := Gather(es, i, count);
  }

  method Gather(es: seq<Entry>, from: nat, count: nat) returns (block: seq<byte>, ghost n: nat)
    requires from <= |es| && (from < |es| ==> |Pack(es[from])| <= count)
    ensures from + n <= |es| && (from < |es| ==> n > 0)
    ensures |block| <= count && block == PackAll(es[from..from + n])
  {
    var i := from;
    block, n := [], 0;
    var more := true;
    assert es[from..from] == [];
    while more && i < |es| && |block| + 24 + |es[i].name| <= count
      invariant i == from + n <= |es| && |block| <= count && block == PackAll(es[from..i])
      invariant n == 0 ==> more && block == []
    {
      PackNext(es, from, i);
      block := block + Pack(es[i]);
      i, n := i + 1, n + 1;
      more := *;
    }
  }

  method Find(es: seq<Entry>, offset: nat, ghost pos: nat, ghost count: nat) returns (i: nat)
    requires Directory(es, count) && pos <= |es| && offset == Cookie(es, pos)
    ensures i == pos
  {
    i := 0;
    if offset == 0 {
      return;
    }
    while es[i].cookie != offset
      invariant i < pos
      decreases |es| - i
    {
      i := i + 1;
    }
    i := i + 1;
  }

  // ------------------------------------------------------------------ reading entries back

  lemma FieldsOf(e: Entry, m: seq<byte>)
    requires Sound(e) && Pack(e) <= m
    ensures |m| >= 24 + |e.name|
    ensures FromLE(m[0..1]) == e.kind && FromLE(m[1..5]) == e.version && FromLE(m[5..13]) == e.path
    ensures FromLE(m[13..21]) == e.cookie && FromLE(m[21..22]) == e.linuxType
    ensures FromLE(m[22..24]) == |e.name| && m[24..24 + |e.name|] == e.name
  {
    var s := Pack(e);
    assert s == m[..|s|];
    assert m[0..1] == LE(e.kind, 1);
    assert m[1..5] == LE(e.version, 4);
    assert m[5..13] == LE(e.path, 8);
    assert m[13..21] == LE(e.cookie, 8);
    assert m[21..22] == LE(e.linuxType, 1);
    assert m[22..24] == LE(|e.name|, 2);
    ReadBack(e.kind, 1);
    ReadBack(e.version, 4);
    ReadBack(e.path, 8);
    ReadBack(e.cookie, 8);
    ReadBack(e.linuxType, 1);
    ReadBack(|e.name|, 2);
  }

  /** What Readdir9 hands out of an entry; names are cut at 511 bytes. */
  datatype Found = Found(kind: nat, version: nat, path: nat, linuxType: nat, name: seq<byte>)

  function Handed(e: Entry): Found {
    Found(e.kind, e.version, e.path, e.linuxType, if |e.name| > 511 then e.name[..511] else e.name)
  }

  class Rdbuf {
    var listing: seq<Entry>  // the host's directory that the fid is open on
    var nextRequest: nat
    var recvd: nat
    var used: nat
    const data: array<byte>
    ghost var pos: nat       // entries handed out so far
    ghost var ahead: nat     // entries left in the buffer

    ghost predicate Valid()
      reads this, data
    {
      && Directory(listing, data.Length)
      && used <= recvd <= data.Length
      && pos + ahead <= |listing|
      && data[used..recvd] == PackAll(listing[pos..pos + ahead])
      && nextRequest == Cookie(listing, pos)
    }

    constructor (size: nat)
      ensures Valid() && listing == [] && pos == 0 && data.Length == size && fresh(data)
    {
      data := new byte[size](_ => 0);
      listing, nextRequest, recvd, used, pos, ahead := [], 0, 0, 0, 0, 0;
    }

    /** InitReaddir9, the fid having been opened on directory `dir`. */
    method InitReaddir9(dir: seq<Entry>)
      requires Directory(dir, data.Length)
      modifies this
      ensures Valid() && listing == dir && pos == 0
    {
      listing := dir;
      nextRequest := 0;
      recvd, used := 0, 0;
      pos, ahead := 0, 0;
      assert data[used..recvd] == [];
    }

    /** Asks the server for the next block. */
    method Refill()
      requires Valid() && used >= recvd
      modifies this, data
      ensures Valid() && listing == old(listing) && pos == old(pos) && used == 0
      ensures recvd == 0 <==> pos == |listing|
    {
      var block;
      block, ahead := Treaddir(listing, nextRequest, data.Length, pos);
      NonEmptyBlock(listing[pos..pos + ahead]);
      Load(block);
      assert data[used..recvd] == PackAll(listing[pos..pos + ahead]);
    }

    /** The reply's data lands in the buffer. */
    method Load(block: seq<byte>)
      requires |block| <= data.Length
      modifies data, `recvd, `used
      ensures used == 0 && recvd == |block| && data[used..recvd] == block
    {
      recvd, used := |block|, 0;
      forall i | 0 <= i < |block| {
        data[i] := block[i];
      }
    }

    /** 0 and the next entry, or -1 at the end. */
    method Readdir9() returns (err: int, found: Found)
      requires Valid()
      modifies this, data
      ensures Valid() && listing == old(listing)
      ensures old(pos) < |listing| ==> err == 0 && found == Handed(listing[old(pos)]) && pos == old(pos) + 1
      ensures old(pos) == |listing| ==> err == -1 && pos == old(pos)
    {
      found := Found(0, 0, 0, 0, []);
      if used >= recvd {
        Refill();
        if recvd == 0 {
          return -1, found;
        }
      }
      found := TakeEntry();
      err := 0;
    }

    lemma Front()
      requires Valid() && used < recvd
      ensures ahead > 0 && pos < |listing| && Sound(listing[pos])
      ensures Pack(listing[pos]) <= data[used..recvd] && Pack(listing[pos]) <= data[used..]
      ensures data[used..recvd][|Pack(listing[pos])|..] == PackAll(listing[pos + 1..pos + ahead])
    {
      var es := listing[pos..pos + ahead];
      assert |PackAll(es)| > 0 && es != [];
      assert es[0] == listing[pos] && es[1..] == listing[pos + 1..pos + ahead];
    }

    method TakeEntry() returns (found: Found)
      requires Valid() && used < recvd
      modifies this
      ensures Valid() && listing == old(listing)
      ensures old(pos) < |listing| && found == Handed(listing[old(pos)]) && pos == old(pos) + 1
    {
      Front();
      var cookie, nlen;
      found, cookie, nlen := Fields(used, listing[pos]);
      Pass(cookie, nlen);
    }

    /** Moves on past an entry in the buffer. */
    method Pass(cookie: nat, nlen: nat)
      requires Valid() && used < recvd && pos < |listing| && cookie == listing[pos].cookie && nlen == |listing[pos].name|
      modifies `nextRequest, `used, `pos, `ahead
      ensures Valid() && pos == old(pos) + 1
    {
      Front();
      ghost var e, m := listing[pos], data[used..recvd];
      nextRequest := cookie;
      used := used + 24 + nlen;
      assert data[used..recvd] == m[|Pack(e)|..];
      pos, ahead := pos + 1, ahead - 1;
    }

    method Fields(at: nat, ghost e: Entry) returns (found: Found, cookie: nat, nlen: nat)
      requires at <= data.Length && Sound(e) && Pack(e) <= data[at..]
      ensures found == Handed(e) && cookie == e.cookie && nlen == |e.name|
    {
      ghost var m := data[at..];
      assert |m| >= 24 + |e.name| && m[24..24 + |e.name|] == e.name by { FieldsOf(e, m); }
      var kind, version, path, linuxType;
      kind, version, path, cookie, linuxType, nlen := FixedFields(at, e);
      assert data[at + 24..at + 24 + nlen] == m[24..24 + nlen];
      var name := CutName(at + 24, nlen, e);
      found := Found(kind, version, path, linuxType, name);
    }

    method FixedFields(at: nat, ghost e: Entry)
      returns (kind: nat, version: nat, path: nat, cookie: nat, linuxType: nat, nlen: nat)
      requires at <= data.Length && Sound(e) && Pack(e) <= data[at..]
      ensures kind == e.kind && version == e.version && path == e.path && cookie == e.cookie && linuxType == e.linuxType
      ensures nlen == |e.name|
    {
      FieldsOf(e, data[at..]);
      Slices(data[at..], at);
      kind := Get(data, at, 1);
      version := Get(data, at + 1, 4);
      path := Get(data, at + 5, 8);
      cookie := Get(data, at + 13, 8);
      linuxType := Get(data, at + 21, 1);
      nlen := Get(data, at + 22, 2);
    }

    method CutName(at: nat, nlen: nat, ghost e: Entry) returns (name: seq<byte>)
      requires nlen == |e.name| && at + nlen <= data.Length && data[at..at + nlen] == e.name
      ensures name == Handed(e).name
    {
      var copylen := if nlen > 511 then 511 else nlen;
      name := data[at..at + copylen];
      assert name == data[at..at + nlen][..copylen];
    }

    lemma Slices(m: seq<byte>, at: nat)
      requires at + 24 <= data.Length && m == data[at..]
      ensures data[at..at + 1] == m[0..1] && data[at + 1..at + 5] == m[1..5] && data[at + 5..at + 13] == m[5..13]
      ensures data[at + 13..at + 21] == m[13..21] && data[at + 21..at + 22] == m[21..22]
      ensures data[at + 22..at + 24] == m[22..24]
    {}
  }
}
