/** What a Mac path means, read character by character (virtio/device-9p.c, browse and
    appendRelativePath). */
module Reading {
  import opened Words
  import opened Wire
  import NameConversion
  import opened Browse

  /** One step up: to the parent, and from the root nowhere. */
  function Up(t: Tree, n: Node): Node {
    if n in t.up then t.up[n].0 else n
  }

  /** One step down, by the host's name for a Mac name. */
  function Down(t: Tree, codec: NameConversion.Codec, n: Node, name: seq<byte>): Option<Node> {
    Lookup(t, n, NameConversion.CString(NameConversion.Utf8Of(codec, name)))
  }

  /** Reads a path from node n, having read the characters of `name` since the last colon: a colon after a
      name ends it; a colon with no name before it leads up; and so does the end of the path end a name. */
  function Read(t: Tree, codec: NameConversion.Codec, n: Node, name: seq<byte>, p: seq<byte>): Option<Node>
    decreases |p|
  {
    if p == [] then (if name == [] then Some(n) else Down(t, codec, n, name))
    else if p[0] != 58 then Read(t, codec, n, name + [p[0]], p[1..])
    else if name == [] then Read(t, codec, Up(t, n), [], p[1..])
    else
      match Down(t, codec, n, name)
      case None => None
      case Some(m) => Read(t, codec, m, [], p[1..])
  }

  /** A path that is not absolute: a colon in front only says so. */
  function ReadFrom(t: Tree, codec: NameConversion.Codec, n: Node, p: seq<byte>): Option<Node> {
    Read(t, codec, n, [], if p != [] && p[0] == 58 then p[1..] else p)
  }

  // ------------------------------------------------------------------ the components mean the same

  lemma {:induction false} RunOf(name: seq<byte>, p: seq<byte>)
    requires COLON !in name && (p == [] || p[0] == COLON)
    ensures RunLength(name + p) == |name|
  {
    var q := name + p;
    if name != [] {
      RunOf(name[1..], p);
      assert q[1..] == name[1..] + p && q[0] == name[0];
    } else {
      assert q == p;
    }
  }

  /** A name and the colon after it, if any, are the first part of a path. */
  lemma FirstPart(name: seq<byte>, p: seq<byte>)
    requires COLON !in name && (p == [] || p[0] == COLON) && name + p != []
    ensures Split(name + p) == [name] + Split(if p == [] then [] else p[1..])
  {
    RunOf(name, p);
    var q := name + p;
    assert q[..|name|] == name;
    if p != [] { assert q[|name| + 1..] == p[1..]; }
  }

  lemma CompNamesNext(codec: NameConversion.Codec, comps: seq<Name>, run: seq<byte>, rest: seq<seq<byte>>)
    ensures comps + CompNames(codec, [run] + rest) == comps + [CompName(codec, run)] + CompNames(codec, rest)
  {
    assert ([run] + rest)[1..] == rest;
    assert comps + ([CompName(codec, run)] + CompNames(codec, rest)) == comps + [CompName(codec, run)] + CompNames(codec, rest);
  }

  lemma OneMore(t: Tree, comps: seq<Name>, name: Name)
    requires At(t, comps).Some?
    ensures At(t, comps + [name]) == Lookup(t, At(t, comps).value, name)
  {
    assert (comps + [name])[..|comps|] == comps;
  }

  /** Where a part of the path ends. */
  lemma EndOfPart(t: Tree, codec: NameConversion.Codec, comps: seq<Name>, name: seq<byte>, p: seq<byte>)
    returns (next: seq<Name>, rest: seq<byte>)
    requires At(t, comps).Some? && COLON !in name && name + p != [] && (p == [] || p[0] == COLON)
    ensures rest == if p == [] then [] else p[1..]
    ensures comps + CompNames(codec, Split(name + p)) == next + CompNames(codec, Split(rest))
    ensures At(t, next) == if name == [] then Some(Up(t, At(t, comps).value)) else Down(t, codec, At(t, comps).value, name)
    ensures At(t, next).None? ==> At(t, next + CompNames(codec, Split(rest))).None?
  {
    rest := if p == [] then [] else p[1..];
    FirstPart(name, p);
    CompNamesNext(codec, comps, name, Split(rest));
    next := comps + [CompName(codec, name)];
    OneMore(t, comps, CompName(codec, name));
    var whole := next + CompNames(codec, Split(rest));
    assert whole[..|next|] == next;
    if At(t, next).None? { AtBroken(t, whole, |next|); }
  }

  /** Following the components of the rest of a path is reading it. */
  lemma {:induction false} ReadSplit(t: Tree, codec: NameConversion.Codec, comps: seq<Name>, name: seq<byte>, p: seq<byte>,
                                     q: seq<byte>)
    requires At(t, comps).Some? && COLON !in name && q == name + p
    ensures At(t, comps + CompNames(codec, Split(q))) == Read(t, codec, At(t, comps).value, name, p)
    decreases |p|, 1
  {
    if p != [] && p[0] != COLON {
      ShiftOne(name, p);
      ReadSplit(t, codec, comps, name + [p[0]], p[1..], q);
    } else if q == [] {
      assert comps + CompNames(codec, []) == comps;
    } else {
      ReadPart(t, codec, comps, name, p, q);
    }
  }

  lemma ShiftOne(name: seq<byte>, p: seq<byte>)
    requires p != []
    ensures name + [p[0]] + p[1..] == name + p
  {}

  lemma {:induction false} ReadPart(t: Tree, codec: NameConversion.Codec, comps: seq<Name>, name: seq<byte>, p: seq<byte>,
                                    q: seq<byte>)
    requires At(t, comps).Some? && COLON !in name && q == name + p && q != [] && (p == [] || p[0] == COLON)
    ensures At(t, comps + CompNames(codec, Split(q))) == Read(t, codec, At(t, comps).value, name, p)
    decreases |p|, 0
  {
    var next, rest := EndOfPart(t, codec, comps, name, p);
    if At(t, next).Some? {
      if p == [] {
        assert next + CompNames(codec, []) == next;
      } else {
        ReadSplit(t, codec, next, [], rest, rest);
      }
    }
  }

  lemma NamesRead(t: Tree, codec: NameConversion.Codec, comps: seq<Name>, p: seq<byte>)
    requires At(t, comps).Some?
    ensures At(t, comps + Names(codec, p)) == ReadFrom(t, codec, At(t, comps).value, p)
  {
    ReadSplit(t, codec, comps, [], Relative(p), Relative(p));
  }

  // ------------------------------------------------------------------ the first name of a path

  function DropColon(p: seq<byte>): seq<byte> {
    if p != [] && p[0] == 58 then p[1..] else p
  }

  /** What follows the characters before the first colon. */
  function SkipName(p: seq<byte>): seq<byte> {
    if p == [] || p[0] == 58 then p else SkipName(p[1..])
  }

  /** A path with a colon, but not in front. */
  predicate HasVolume(p: seq<byte>) {
    58 in p && p[0] != 58
  }

  lemma {:induction false} RunIs(p: seq<byte>)
    ensures SkipName(p) == p[RunLength(p)..]
    ensures RunLength(p) < |p| <==> COLON in p
  {
    if p != [] && p[0] != COLON {
      RunIs(p[1..]);
      assert p[RunLength(p)..] == p[1..][RunLength(p[1..])..];
      assert COLON in p <==> COLON in p[1..];
    }
  }

  lemma FirstName(p: seq<byte>)
    ensures IsAbs(p) <==> HasVolume(p)
    ensures RootName(p) == [] <==> DropColon(p) == [] || DropColon(p)[0] == 58
    ensures AfterRoot(p) == SkipName(DropColon(p))
  {
    RunIs(p);
    RunIs(Relative(p));
  }

  /** The parts of a path, having read the characters of `name` since the last colon. */
  function Parts(name: seq<byte>, p: seq<byte>): seq<seq<byte>>
    decreases |p|
  {
    if p == [] then (if name == [] then [] else [name])
    else if p[0] != 58 then Parts(name + [p[0]], p[1..])
    else [name] + Parts([], p[1..])
  }

  lemma {:induction false} PartsAre(name: seq<byte>, p: seq<byte>, q: seq<byte>)
    requires COLON !in name && q == name + p
    ensures Parts(name, p) == Split(q)
    decreases |p|
  {
    if p != [] && p[0] != COLON {
      ShiftOne(name, p);
      PartsAre(name + [p[0]], p[1..], q);
    } else if q != [] {
      FirstPart(name, p);
      if p != [] { PartsAre([], p[1..], p[1..]); }
    }
  }

  // ------------------------------------------------------------------ the fixed arrays

  /** Part i finds the hundred components used, or, being a name, ends beyond the 512 bytes of the blob. */
  ghost predicate NoRoomFor(codec: NameConversion.Codec, cnt: nat, size: nat, runs: seq<seq<byte>>, i: nat)
    requires i < |runs|
  {
    cnt + i >= 100 || (runs[i] != [] && size + BlobSize(Stored(codec, runs[..i + 1])) > 512)
  }

  /** What the blob holds of the parts, before C strings end early. */
  function Stored(codec: NameConversion.Codec, runs: seq<seq<byte>>): seq<Name> {
    if runs == [] then []
    else [if runs[0] == [] then DOTDOT else NameConversion.Utf8Of(codec, runs[0])] + Stored(codec, runs[1..])
  }

  /** Some part does. */
  ghost predicate NoRoom(codec: NameConversion.Codec, cnt: nat, size: nat, runs: seq<seq<byte>>) {
    exists i: nat :: i < |runs| && NoRoomFor(codec, cnt, size, runs, i)
  }

  /** How much of the blob a component takes. */
  function Taken(codec: NameConversion.Codec, run: seq<byte>): nat {
    if run == [] then 3 else |NameConversion.Utf8Of(codec, run)| + 1
  }

  lemma NoRoomNext(codec: NameConversion.Codec, cnt: nat, size: nat, runs: seq<seq<byte>>, i: nat)
    requires 1 <= i < |runs|
    ensures NoRoomFor(codec, cnt, size, runs, i) <==>
            NoRoomFor(codec, cnt + 1, size + Taken(codec, runs[0]), runs[1..], i - 1)
  {
    assert runs[..i + 1][1..] == runs[1..][..i];
    var s := Stored(codec, runs[..i + 1]);
    assert s[1..] == Stored(codec, runs[1..][..i]);
  }

  lemma NoRoomFirst(codec: NameConversion.Codec, cnt: nat, size: nat, runs: seq<seq<byte>>)
    requires runs != []
    ensures NoRoomFor(codec, cnt, size, runs, 0) <==> cnt >= 100 || (runs[0] != [] && size + Taken(codec, runs[0]) > 512)
  {
    var one := runs[..1];
    var st := Stored(codec, one);
    assert one[1..] == [] && one[0] == runs[0] && Stored(codec, one[1..]) == [];
    assert |st| == 1 && st[1..] == [] && BlobSize(st) == |st[0]| + 1;
  }

  lemma {:induction false} TooLongExactly(codec: NameConversion.Codec, cnt: nat, size: nat, runs: seq<seq<byte>>)
    ensures TooLong(codec, cnt, size, runs) <==> NoRoom(codec, cnt, size, runs)
    decreases |runs|
  {
    if runs != [] {
      var more := size + Taken(codec, runs[0]);
      TooLongExactly(codec, cnt + 1, more, runs[1..]);
      NoRoomFirst(codec, cnt, size, runs);
      NoRoomLater(codec, cnt, size, runs);
    }
  }

  lemma NoRoomLater(codec: NameConversion.Codec, cnt: nat, size: nat, runs: seq<seq<byte>>)
    requires runs != []
    ensures NoRoom(codec, cnt, size, runs) <==>
            NoRoomFor(codec, cnt, size, runs, 0) || NoRoom(codec, cnt + 1, size + Taken(codec, runs[0]), runs[1..])
  {
    var more := size + Taken(codec, runs[0]);
    if NoRoom(codec, cnt, size, runs) {
      var i: nat :| i < |runs| && NoRoomFor(codec, cnt, size, runs, i);
      if i > 0 { NoRoomNext(codec, cnt, size, runs, i); }
    }
    if NoRoom(codec, cnt + 1, more, runs[1..]) {
      var j: nat :| j < |runs[1..]| && NoRoomFor(codec, cnt + 1, more, runs[1..], j);
      NoRoomNext(codec, cnt, size, runs, j + 1);
    }
  }
}
