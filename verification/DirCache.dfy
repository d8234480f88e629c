/** The indexed branch of fsGetFileInfo and its one-directory cache (virtio/device-9p.c). */
module DirCache {
  import opened Words
  import opened Listing
  import Cnid
  import HostFiles
  import ForkRings

  const DIRTYPE: nat := 4

  function Ends(name: seq<byte>, suffix: seq<byte>): bool {
    |name| >= |suffix| && name[|name| - |suffix|..] == suffix
  }

  /** visName: not a dot file, and none of the files that carry a resource fork or Finder information. */
  predicate VisName(name: seq<byte>) {
    if |name| > 0 && name[0] == 46 then false                    // "."
    else if Ends(name, [46, 114, 115, 114, 99]) then false       // ".rsrc"
    else if Ends(name, [46, 114, 100, 117, 109, 112]) then false // ".rdump"
    else if Ends(name, [46, 105, 100, 117, 109, 112]) then false // ".idump"
    else true
  }

  /** GetCatInfo counts every visible entry, GetFInfo only those that are not directories. */
  predicate Counts(f: Found, catalogCall: bool) {
    !(!catalogCall && f.linuxType == DIRTYPE) && VisName(f.name)
  }

  /** GetFInfo passes over directories, whose type is DT_DIR. */
  lemma CountsExactly(f: Found, catalogCall: bool)
    ensures Counts(f, catalogCall) <==> VisName(f.name) && (catalogCall || f.linuxType != 4)
  {}

  /** The entries that an index counts, in listing order. */
  function Counted(es: seq<Entry>, catalogCall: bool): seq<Found> {
    if es == [] then [] else
      var rest := Counted(es[..|es| - 1], catalogCall);
      var f := Handed(es[|es| - 1]);
      if Counts(f, catalogCall) then rest + [f] else rest
  }

  lemma CountedSnoc(es: seq<Entry>, i: nat, catalogCall: bool)
    requires i < |es|
    ensures var f := Handed(es[i]);
            Counted(es[..i + 1], catalogCall) ==
            Counted(es[..i], catalogCall) + (if Counts(f, catalogCall) then [f] else [])
  {
    assert es[..i + 1][..i] == es[..i];
  }

  lemma {:induction false} CountedPrefix(es: seq<Entry>, i: nat, catalogCall: bool)
    requires i <= |es|
    ensures Counted(es[..i], catalogCall) <= Counted(es, catalogCall)
    decreases |es| - i
  {
    if i < |es| {
      CountedPrefix(es, i + 1, catalogCall);
      CountedSnoc(es, i, catalogCall);
    } else {
      assert es[..i] == es;
    }
  }

  /** The qid's own type byte is not filled in by Rreaddir; qidTypeFix derives it. */
  function QidTypeFix(f: Found): Found {
    f.(kind := if f.linuxType == DIRTYPE then 0x80 else 0)
  }

  lemma EndsExactly(name: seq<byte>, suffix: seq<byte>)
    ensures Ends(name, suffix) <==> exists stem :: name == stem + suffix
  {
    if Ends(name, suffix) {
      assert name == name[..|name| - |suffix|] + suffix;
    }
  }

  function Code(c: char): byte
    requires c < 128 as char
  {
    c as int
  }

  function Ascii(s: string): seq<byte>
    requires forall i :: 0 <= i < |s| ==> s[i] < 128 as char
  {
    seq(|s|, i requires 0 <= i < |s| => Code(s[i]))
  }

  /** The hidden files: those whose names begin with a dot, and the sidecars of other files that hold their
      resource forks or Finder information. */
  lemma HiddenExactly(name: seq<byte>)
    ensures !VisName(name) <==>
            || (|name| > 0 && name[0] == '.' as int)
            || (exists stem :: name == stem + Ascii(".rsrc"))
            || (exists stem :: name == stem + Ascii(".rdump"))
            || (exists stem :: name == stem + Ascii(".idump"))
  {
    assert Ascii(".rsrc") == [46, 114, 115, 114, 99] && Ascii(".rdump") == [46, 114, 100, 117, 109, 112];
    assert Ascii(".idump") == [46, 105, 100, 117, 109, 112];
    EndsExactly(name, Ascii(".rsrc"));
    EndsExactly(name, Ascii(".rdump"));
    EndsExactly(name, Ascii(".idump"));
  }

  /** So no file's resource fork is ever listed. */
  lemma SidecarsHidden(p: ForkRings.Place)
    ensures !VisName(HostFiles.Sidecar(p).name)
  {
    assert Ascii(".rsrc") == HostFiles.RSRC;
    HiddenExactly(HostFiles.Sidecar(p).name);
  }

  /** The number made from a fixed qid tells directories (DT_DIR is 4) from files as the listing does. */
  lemma FixedKind(f: Found, root: nat)
    requires f.path < Cnid.INODES && f.path != root
    ensures var q := QidTypeFix(f);
            && q.path == f.path && q.version == f.version && q.name == f.name
            && (Cnid.IsDir(Cnid.Qid2Cnid(root, And(q.kind, 0x80) != 0, q.path)) <==> f.linuxType == 4)
  {
    AndHigh();
  }

  lemma AndHigh()
    ensures And(0x80, 0x80) == 0x80 && And(0, 0x80) == 0
  {
    assert And(1, 1) == 1;
    assert And(2, 2) == 2;
    assert And(4, 4) == 4;
    assert And(8, 8) == 8;
    assert And(16, 16) == 16;
    assert And(32, 32) == 32;
    assert And(64, 64) == 64;
  }

  datatype Answer = FnfErr | PermErr | Child(found: Found)

  function Pick(all: seq<Found>, idx: nat): Answer
    requires idx > 0
  {
    if idx <= |all| then Child(QidTypeFix(all[idx - 1])) else FnfErr
  }

  /** The idx-th counted entry of a listing, if there is one. */
  function Nth(es: seq<Entry>, idx: nat, catalogCall: bool): Answer
    requires idx > 0
  {
    Pick(Counted(es, catalogCall), idx)
  }

  /** What the call means, with no cache. */
  function Indexed(host: map<nat, seq<Entry>>, readable: set<nat>, dir: nat, idx: nat, catalogCall: bool): Answer
    requires idx > 0
  {
    if dir !in host then FnfErr
    else if dir !in readable then PermErr
    else Nth(host[dir], idx, catalogCall)
  }

  // --------------------------------------------- both kinds of call on one directory

  /** The count after reading |kinds| entries, each by the kind of call given for it. */
  function Tally(es: seq<Entry>, kinds: seq<bool>): nat
    requires |kinds| <= |es|
  {
    if kinds == [] then 0 else
      var n := |kinds| - 1;
      Tally(es, kinds[..n]) + (if Counts(Handed(es[n]), kinds[n]) then 1 else 0)
  }

  /** An entry that the two kinds of call treat differently: a visible directory. */
  predicate Folder(e: Entry) {
    e.linuxType == DIRTYPE && VisName(Handed(e).name)
  }

  /** Each folder passed was counted or passed over as this kind of call does. */
  predicate FoldersAlike(es: seq<Entry>, kinds: seq<bool>, catalogCall: bool)
    requires |kinds| <= |es|
  {
    forall i :: 0 <= i < |kinds| && Folder(es[i]) ==> kinds[i] == catalogCall
  }

  /** The count carried over is the one this kind of call would have reached just when it treated every
      folder the same. */
  lemma {:induction false} TallyExactly(es: seq<Entry>, kinds: seq<bool>, catalogCall: bool)
    requires |kinds| <= |es|
    ensures var n := |Counted(es[..|kinds|], catalogCall)|;
            && (Tally(es, kinds) == n <==> FoldersAlike(es, kinds, catalogCall))
            && (if catalogCall then Tally(es, kinds) <= n else Tally(es, kinds) >= n)
  {
    if kinds != [] {
      var n := |kinds| - 1;
      TallyExactly(es, kinds[..n], catalogCall);
      CountedSnoc(es, n, catalogCall);
      FoldersNext(es, kinds, catalogCall);
    }
  }

  lemma FoldersNext(es: seq<Entry>, kinds: seq<bool>, catalogCall: bool)
    requires 0 < |kinds| <= |es|
    ensures var n := |kinds| - 1;
            FoldersAlike(es, kinds, catalogCall) <==>
              FoldersAlike(es, kinds[..n], catalogCall) && (Folder(es[n]) ==> kinds[n] == catalogCall)
  {
    assert forall i :: 0 <= i < |kinds| - 1 ==> kinds[..|kinds| - 1][i] == kinds[i];
  }

  /** What the cached call gives when it goes on from `pos` entries read and `seen` counted. */
  function Resumed(es: seq<Entry>, pos: nat, seen: nat, idx: nat, catalogCall: bool): Answer
    requires pos <= |es| && seen < idx
  {
    Nth(es[pos..], idx - seen, catalogCall)
  }

  lemma FromStart(es: seq<Entry>, idx: nat, catalogCall: bool)
    requires idx > 0
    ensures Resumed(es, 0, 0, idx, catalogCall) == Nth(es, idx, catalogCall)
  {
    assert es[0..] == es;
  }

  /** The entries counted in `passed` entries after the first `from`. */
  function Since(es: seq<Entry>, from: nat, passed: nat, catalogCall: bool): seq<Found>
    requires from <= passed <= |es|
  {
    Counted(es[from..passed], catalogCall)
  }

  lemma SinceNext(es: seq<Entry>, from: nat, i: nat, catalogCall: bool)
    requires from <= i < |es|
    ensures Since(es, from, i + 1, catalogCall) ==
            Since(es, from, i, catalogCall) + (if Counts(Handed(es[i]), catalogCall) then [Handed(es[i])] else [])
  {
    CountedSnoc(es[from..], i - from, catalogCall);
    assert es[from..][..i - from] == es[from..i] && es[from..][..i - from + 1] == es[from..i + 1];
  }

  lemma {:induction false} CountedSplit(es: seq<Entry>, pos: nat, i: nat, catalogCall: bool)
    requires pos <= i <= |es|
    ensures Counted(es[..i], catalogCall) == Counted(es[..pos], catalogCall) + Since(es, pos, i, catalogCall)
  {
    if i == pos {
      assert es[pos..i] == [];
    } else {
      CountedSplit(es, pos, i - 1, catalogCall);
      CountedSnoc(es, i - 1, catalogCall);
      SinceNext(es, pos, i - 1, catalogCall);
      var f := Handed(es[i - 1]);
      Reassociate(Counted(es[..pos], catalogCall), Since(es, pos, i - 1, catalogCall), if Counts(f, catalogCall) then [f] else []);
    }
  }

  lemma Reassociate(a: seq<Found>, b: seq<Found>, c: seq<Found>)
    ensures a + (b + c) == a + b + c
  {}

  lemma CountedWhole(es: seq<Entry>, pos: nat, catalogCall: bool)
    requires pos <= |es|
    ensures Counted(es, catalogCall) == Counted(es[..pos], catalogCall) + Counted(es[pos..], catalogCall)
  {
    CountedSplit(es, pos, |es|, catalogCall);
    assert es[..|es|] == es && es[pos..|es|] == es[pos..];
  }

  ghost predicate NamesApart(es: seq<Entry>) {
    forall i, j :: 0 <= i < j < |es| ==> Handed(es[i]).name != Handed(es[j]).name
  }

  ghost predicate HandedBy(es: seq<Entry>, f: Found) {
    exists k :: 0 <= k < |es| && Handed(es[k]) == f
  }

  lemma {:induction false} CountedFrom(es: seq<Entry>, catalogCall: bool, i: nat)
    requires i < |Counted(es, catalogCall)|
    ensures HandedBy(es, Counted(es, catalogCall)[i])
  {
    var n := |es| - 1;
    var rest := Counted(es[..n], catalogCall);
    if i < |rest| {
      CountedFrom(es[..n], catalogCall, i);
      var k :| 0 <= k < n && Handed(es[..n][k]) == rest[i];
      assert Handed(es[k]) == rest[i];
    } else {
      assert Handed(es[n]) == Counted(es, catalogCall)[i];
    }
  }

  lemma {:induction false} CountedApart(es: seq<Entry>, catalogCall: bool, i: nat, j: nat)
    requires NamesApart(es) && i < j < |Counted(es, catalogCall)|
    ensures Counted(es, catalogCall)[i].name != Counted(es, catalogCall)[j].name
  {
    var n := |es| - 1;
    var rest := Counted(es[..n], catalogCall);
    if j < |rest| {
      CountedApart(es[..n], catalogCall, i, j);
    } else {
      CountedFrom(es[..n], catalogCall, i);
      var k :| 0 <= k < n && Handed(es[..n][k]) == rest[i];
      assert Handed(es[k]).name != Handed(es[n]).name;
    }
  }

  /** A resumed call looks up an entry that is off by the difference of the two counts. */
  lemma ResumedIs(es: seq<Entry>, pos: nat, past: nat, seen: nat, idx: nat, catalogCall: bool)
    requires pos <= |es| && past == |Counted(es[..pos], catalogCall)| && seen < idx
    ensures Resumed(es, pos, seen, idx, catalogCall) == Nth(es, past + idx - seen, catalogCall)
  {
    CountedWhole(es, pos, catalogCall);
  }

  lemma PickApart(all: seq<Found>, k: nat, idx: nat)
    requires forall i, j :: 0 <= i < j < |all| ==> all[i].name != all[j].name
    requires k > 0 && idx > 0
    ensures Pick(all, k) == Pick(all, idx) <==> k == idx || (k > |all| && idx > |all|)
  {
    if k < idx <= |all| {
      assert all[k - 1].name != all[idx - 1].name;
    } else if idx < k <= |all| {
      assert all[idx - 1].name != all[k - 1].name;
    }
  }

  /** A resumed call is right if and only if the calls before it treated every folder passed as it does,
      or the listing has too few entries both for the index and for that many more after those passed. */
  lemma ResumedExactly(es: seq<Entry>, kinds: seq<bool>, idx: nat, catalogCall: bool)
    requires NamesApart(es) && |kinds| <= |es| && Tally(es, kinds) < idx
    ensures Resumed(es, |kinds|, Tally(es, kinds), idx, catalogCall) == Nth(es, idx, catalogCall) <==>
            || FoldersAlike(es, kinds, catalogCall)
            || (Nth(es, idx, catalogCall) == FnfErr && idx - Tally(es, kinds) > |Counted(es[|kinds|..], catalogCall)|)
  {
    var past := |Counted(es[..|kinds|], catalogCall)|;
    TallyExactly(es, kinds, catalogCall);
    ResumedIs(es, |kinds|, past, Tally(es, kinds), idx, catalogCall);
    var all := Counted(es, catalogCall);
    forall i: nat, j: nat | i < j < |all| ensures all[i].name != all[j].name { CountedApart(es, catalogCall, i, j); }
    PickApart(all, past + idx - Tally(es, kinds), idx);
    CountedWhole(es, |kinds|, catalogCall);
  }

  /** Distinct names are not needed for this direction. */
  lemma ResumedRight(es: seq<Entry>, kinds: seq<bool>, idx: nat, catalogCall: bool)
    requires |kinds| <= |es| && Tally(es, kinds) < idx && FoldersAlike(es, kinds, catalogCall)
    ensures Resumed(es, |kinds|, Tally(es, kinds), idx, catalogCall) == Nth(es, idx, catalogCall)
  {
    TallyExactly(es, kinds, catalogCall);
    var seen := Tally(es, kinds);
    ResumedIs(es, |kinds|, seen, seen, idx, catalogCall);
  }

  /** `kinds` is `before` followed by calls of one kind. */
  ghost predicate Extends(before: seq<bool>, kinds: seq<bool>, catalogCall: bool) {
    before <= kinds && forall i :: |before| <= i < |kinds| ==> kinds[i] == catalogCall
  }

  /** How far a call has got that began when the entries of `before` had been read and `seen` counted. */
  ghost predicate Going(es: seq<Entry>, before: seq<bool>, seen: nat, kinds: seq<bool>, count: nat, catalogCall: bool) {
    && Extends(before, kinds, catalogCall) && |kinds| <= |es| && count == Tally(es, kinds)
    && count == seen + |Since(es, |before|, |kinds|, catalogCall)|
  }

  /** `found` is the last entry passed, and was counted. */
  ghost predicate IsNext(es: seq<Entry>, from: nat, passed: nat, found: Found, catalogCall: bool) {
    from < passed <= |es| && var f := Handed(es[passed - 1]); found == QidTypeFix(f) && Counts(f, catalogCall)
  }

  lemma GoingStart(es: seq<Entry>, kinds: seq<bool>, catalogCall: bool)
    requires |kinds| <= |es|
    ensures Going(es, kinds, Tally(es, kinds), kinds, Tally(es, kinds), catalogCall)
  {
    assert es[|kinds|..|kinds|] == [];
  }

  lemma TallyNext(es: seq<Entry>, kinds: seq<bool>, kind: bool)
    requires |kinds| < |es|
    ensures Tally(es, kinds + [kind]) == Tally(es, kinds) + if Counts(Handed(es[|kinds|]), kind) then 1 else 0
  {
    assert (kinds + [kind])[..|kinds|] == kinds;
  }

  lemma GoingNext(es: seq<Entry>, before: seq<bool>, seen: nat, kinds: seq<bool>, count: nat, catalogCall: bool)
    requires Going(es, before, seen, kinds, count, catalogCall) && |kinds| < |es|
    ensures var f, passed := Handed(es[|kinds|]), kinds + [catalogCall];
            Going(es, before, seen, passed, count + if Counts(f, catalogCall) then 1 else 0, catalogCall)
  {
    SinceNext(es, |before|, |kinds|, catalogCall);
    TallyNext(es, kinds, catalogCall);
  }

  /** The entry the loop stops at is the one a fresh count of the rest would find. */
  lemma Reached(es: seq<Entry>, before: seq<bool>, seen: nat, kinds: seq<bool>, count: nat, found: Found, catalogCall: bool)
    requires Going(es, before, seen, kinds, count, catalogCall) && seen < count
    requires IsNext(es, |before|, |kinds|, found, catalogCall)
    ensures Resumed(es, |before|, seen, count, catalogCall) == Child(found)
    ensures found == QidTypeFix(Handed(es[|kinds| - 1])) && Extends(before, kinds, catalogCall)
  {
    SinceNext(es, |before|, |kinds| - 1, catalogCall);
    var rest, n := es[|before|..], |kinds| - |before|;
    assert rest[..n] == es[|before|..|kinds|];
    CountedPrefix(rest, n, catalogCall);
  }

  lemma RanOut(es: seq<Entry>, before: seq<bool>, seen: nat, kinds: seq<bool>, count: nat, idx: nat, catalogCall: bool)
    requires Going(es, before, seen, kinds, count, catalogCall) && |kinds| == |es| && count < idx
    ensures Resumed(es, |before|, seen, idx, catalogCall) == FnfErr
  {
    assert es[|before|..|kinds|] == es[|before|..];
  }

  datatype Query = Query(dir: nat, idx: nat, catalogCall: bool)

  /** Queries before the i-th about the same directory were of the same kind. */
  predicate OneKind(queries: seq<Query>, i: nat)
    requires i < |queries|
  {
    forall j :: 0 <= j < i && queries[j].dir == queries[i].dir ==> queries[j].catalogCall == queries[i].catalogCall
  }

  predicate Flat(es: seq<Entry>) {
    forall i :: 0 <= i < |es| ==> !Folder(es[i])
  }

  class Cache {
    const host: map<nat, seq<Entry>>  // the unchanging tree: directory CNID to listing
    const readable: set<nat>
    const scratch: Rdbuf
    var lastCNID: nat
    var lastIdx: nat
    ghost var kinds: seq<bool>        // the kind of call that read each entry

    ghost predicate Valid()
      reads this, scratch, scratch.data
    {
      && Hosted() && scratch.Valid()
      && (lastCNID != 0 ==> Cached())
    }

    ghost predicate Hosted() {
      forall d :: d in host ==> d != 0 && Directory(host[d], scratch.data.Length)
    }

    /** The directory being listed, and how far the count has got. */
    ghost predicate Cached()
      reads this, scratch
    {
      && lastCNID in host && lastCNID in readable && scratch.listing == host[lastCNID]
      && scratch.pos == |kinds| <= |scratch.listing| && lastIdx == Tally(scratch.listing, kinds)
    }

    /** `size` is what scratch has room for after its header. */
    constructor (tree: map<nat, seq<Entry>>, canRead: set<nat>, size: nat)
      requires forall d :: d in tree ==> d != 0 && Directory(tree[d], size)
      ensures Valid() && host == tree && readable == canRead && lastCNID == 0 && fresh(scratch) && fresh(scratch.data)
    {
      host, readable := tree, canRead;
      var buf := new Rdbuf(size);
      scratch := buf;
      lastCNID, lastIdx, kinds := 0, 0, [];
    }

    predicate Resumes(cnid: nat, idx: nat)
      reads this
    {
      cnid == lastCNID && idx > lastIdx
    }

    /** Starts a new listing unless the cached one can be continued. */
    method Prepare(cnid: nat, idx: nat) returns (failure: Answer, ok: bool)
      requires Valid() && cnid != 0 && idx > 0
      modifies this, scratch
      ensures Valid()
      ensures ok <==> cnid in host && cnid in readable
      ensures ok ==> lastCNID == cnid
      ensures ok && old(Resumes(cnid, idx)) ==> kinds == old(kinds) && lastIdx == old(lastIdx)
      ensures ok && !old(Resumes(cnid, idx)) ==> kinds == [] && lastIdx == 0
      ensures !ok ==> forall call :: failure == Indexed(host, readable, cnid, idx, call)
      ensures !ok ==> lastCNID == 0 && !old(Resumes(cnid, idx))
    {
      failure := FnfErr;
      if cnid != lastCNID || idx <= lastIdx {
        lastCNID := 0;
        lastIdx := 0;
        if cnid !in host {
          return FnfErr, false;
        }
        if cnid !in readable {
          return PermErr, false;
        }
        scratch.InitReaddir9(host[cnid]);
        lastCNID := cnid;
        kinds := [];
      }
      ok := true;
    }

    /** The fast-forward loop. */
    method FastForward(idx: nat, catalogCall: bool) returns (answer: Answer)
      requires Valid() && lastCNID != 0 && lastIdx < idx
      modifies `lastCNID, `lastIdx, `kinds, scratch, scratch.data
      ensures Valid() && answer == Resumed(host[old(lastCNID)], old(|kinds|), old(lastIdx), idx, catalogCall)
      ensures old(kinds) == [] ==> answer == Nth(host[old(lastCNID)], idx, catalogCall)
      ensures lastCNID == if answer == FnfErr then 0 else old(lastCNID)
      ensures lastCNID != 0 ==> Extends(old(kinds), kinds, catalogCall)
      ensures answer.Child? ==> lastIdx == idx && answer == Child(QidTypeFix(Handed(host[lastCNID][|kinds| - 1])))
    {
      ghost var es, before, seen := scratch.listing, kinds, lastIdx;
      GoingStart(es, kinds, catalogCall);
      FromStart(es, idx, catalogCall);
      var more, found := Advance(idx, catalogCall, before, seen);
      if !more {
        RanOut(es, before, seen, kinds, lastIdx, idx, catalogCall);
        Forget();
        return FnfErr;
      }
      Reached(es, before, seen, kinds, lastIdx, found, catalogCall);
      answer := Child(found);
    }

    method Forget()
      requires Valid()
      modifies `lastCNID
      ensures Valid() && lastCNID == 0
    {
      lastCNID := 0;
    }

    /** The loop itself. */
    method Advance(idx: nat, catalogCall: bool, ghost before: seq<bool>, ghost seen: nat) returns (more: bool, found: Found)
      requires Valid() && lastCNID != 0 && lastIdx < idx
      requires Going(scratch.listing, before, seen, kinds, lastIdx, catalogCall)
      modifies `lastIdx, `kinds, scratch, scratch.data
      ensures Valid() && scratch.listing == old(scratch.listing)
      ensures Going(scratch.listing, before, seen, kinds, lastIdx, catalogCall)
      ensures if more then lastIdx == idx && IsNext(scratch.listing, |before|, |kinds|, found, catalogCall)
              else lastIdx < idx && |kinds| == |scratch.listing|
    {
      more, found := true, Found(0, 0, 0, 0, []);
      while more && lastIdx < idx
        invariant scratch.Valid() && scratch.listing == old(scratch.listing) && scratch.pos == |kinds| && lastIdx <= idx
        invariant Going(scratch.listing, before, seen, kinds, lastIdx, catalogCall)
        invariant if more then lastIdx == idx ==> IsNext(scratch.listing, |before|, |kinds|, found, catalogCall)
                  else lastIdx < idx && |kinds| == |scratch.listing|
        decreases more, |scratch.listing| - |kinds|
      {
        more, found := NextEntry(catalogCall, before, seen);
      }
    }

    /** One pass of the loop: reads an entry and counts it if it counts. */
    method NextEntry(catalogCall: bool, ghost before: seq<bool>, ghost seen: nat) returns (more: bool, found: Found)
      requires scratch.Valid() && scratch.pos == |kinds|
      requires Going(scratch.listing, before, seen, kinds, lastIdx, catalogCall)
      modifies `lastIdx, `kinds, scratch, scratch.data
      ensures scratch.Valid() && scratch.listing == old(scratch.listing) && scratch.pos == |kinds|
      ensures Going(scratch.listing, before, seen, kinds, lastIdx, catalogCall)
      ensures more <==> old(|kinds|) < |scratch.listing|
      ensures |kinds| == old(|kinds|) + if more then 1 else 0
      ensures old(lastIdx) <= lastIdx <= old(lastIdx) + if more then 1 else 0
      ensures lastIdx > old(lastIdx) ==> IsNext(scratch.listing, |before|, |kinds|, found, catalogCall)
    {
      var err;
      err, found := scratch.Readdir9();
      more := err == 0;
      if !more {
        return;
      }
      GoingNext(scratch.listing, before, seen, kinds, lastIdx, catalogCall);
      kinds := kinds + [catalogCall];
      var counts := Decide(found, catalogCall);
      found := QidTypeFix(found);
      if !counts {
        return;
      }
      lastIdx := lastIdx + 1;
    }

    method Decide(found: Found, catalogCall: bool) returns (counts: bool)
      ensures counts == Counts(found, catalogCall)
    {
      counts := !((!catalogCall && found.linuxType == DIRTYPE) || !VisName(found.name));
    }

    /** Looks up the idx-th entry of directory `cnid`. */
    method GetIndexed(cnid: nat, idx: nat, catalogCall: bool) returns (answer: Answer)
      requires Valid() && cnid != 0 && idx > 0
      modifies this, scratch, scratch.data
      ensures Valid()
      ensures old(Resumes(cnid, idx)) ==> answer == Resumed(host[cnid], old(|kinds|), old(lastIdx), idx, catalogCall)
      ensures !old(Resumes(cnid, idx)) ==> answer == Indexed(host, readable, cnid, idx, catalogCall)
      ensures lastCNID == if answer.Child? then cnid else 0
      ensures lastCNID != 0 && old(Resumes(cnid, idx)) ==> Extends(old(kinds), kinds, catalogCall)
      ensures lastCNID != 0 && !old(Resumes(cnid, idx)) ==> Extends([], kinds, catalogCall)
      ensures answer.Child? ==> lastIdx == idx && answer == Child(QidTypeFix(Handed(host[cnid][|kinds| - 1])))
    {
      var ok;
      answer, ok := Prepare(cnid, idx);
      if ok {
        answer := FastForward(idx, catalogCall);
      }
    }

    /** Any calls on any directories in any order, from an empty cache. A call gets the answer it would get
        without the cache if all earlier calls on its directory were of the same kind, or if the directory
        has no folders. */
    method Session(queries: seq<Query>) returns (answers: seq<Answer>)
      requires Valid() && lastCNID == 0
      requires forall i :: 0 <= i < |queries| ==> queries[i].dir != 0 && queries[i].idx > 0
      modifies this, scratch, scratch.data
      ensures Valid() && |answers| == |queries|
      ensures forall i :: 0 <= i < |queries| && Plain(queries, i) ==>
                answers[i] == Indexed(host, readable, queries[i].dir, queries[i].idx, queries[i].catalogCall)
    {
      answers := [];
      for i := 0 to |queries|
        invariant Valid() && |answers| == i && FromQueries(queries, i)
        invariant forall j :: 0 <= j < i && Plain(queries, j) ==>
                    answers[j] == Indexed(host, readable, queries[j].dir, queries[j].idx, queries[j].catalogCall)
      {
        var answer := NextQuery(queries, i);
        answers := answers + [answer];
      }
    }

    method NextQuery(queries: seq<Query>, i: nat) returns (answer: Answer)
      requires Valid() && i < |queries| && FromQueries(queries, i) && queries[i].dir != 0 && queries[i].idx > 0
      modifies this, scratch, scratch.data
      ensures Valid() && FromQueries(queries, i + 1)
      ensures Plain(queries, i) ==>
                answer == Indexed(host, readable, queries[i].dir, queries[i].idx, queries[i].catalogCall)
    {
      var q := queries[i];
      if Plain(queries, i) && Resumes(q.dir, q.idx) {
        ResumedRight(host[q.dir], kinds, q.idx, q.catalogCall);
      }
      answer := GetIndexed(q.dir, q.idx, q.catalogCall);
      assert queries[i].dir == q.dir && queries[i].catalogCall == q.catalogCall;
    }

    /** What the i-th answer is right for. */
    predicate Plain(queries: seq<Query>, i: nat)
      requires i < |queries|
    {
      OneKind(queries, i) || (queries[i].dir in host && Flat(host[queries[i].dir]))
    }

    /** The entries passed were read by some of the first `i` queries. */
    ghost predicate FromQueries(queries: seq<Query>, i: nat)
      requires i <= |queries|
      reads this
    {
      lastCNID != 0 ==>
        forall k :: 0 <= k < |kinds| ==>
          exists j :: 0 <= j < i && queries[j].dir == lastCNID && queries[j].catalogCall == kinds[k]
    }
  }

  /** A directory holding a folder "a" and a file "b". */
  function FolderAndFile(): seq<Entry> {
    [Entry(0x80, 0, 1, 1, DIRTYPE, [97]), Entry(0, 0, 2, 2, 8, [98])]
  }

  lemma TwoEntries()
    ensures var es := FolderAndFile();
            && Directory(es, 100) && NamesApart(es) && Counted(es, true) == [Handed(es[0]), Handed(es[1])]
            && Counted(es, false) == [Handed(es[1])] && Resumed(es, 2, 1, 2, true) == FnfErr
  {
    var es := FolderAndFile();
    CountedSnoc(es, 0, true);
    CountedSnoc(es, 1, true);
    CountedSnoc(es, 0, false);
    CountedSnoc(es, 1, false);
    assert es[..0] == [] && es[..2] == es && es[2..] == [];
  }

  /** GetFInfo for the first file, then GetCatInfo for the second entry: the count of 1 carried over left
      out the folder, so the file is passed over and the call fails. */
  method MixedCalls() returns (first: Answer, second: Answer)
    ensures first == Child(Found(0, 0, 2, 8, [98]))
    ensures second == FnfErr && Nth(FolderAndFile(), 2, true) == first
  {
    var es := FolderAndFile();
    TwoEntries();
    var cache := new Cache(map[2 := es], {2}, 100);
    first := cache.GetIndexed(2, 1, false);
    second := cache.GetIndexed(2, 2, true);
  }
}
