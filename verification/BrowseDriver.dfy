/** browse, setPath and appendRelativePath themselves (virtio/device-9p.c), over fids that the host
    moves about its tree (virtio/9p.c, Walk9). */
module BrowseDriver {
  import opened Words
  import opened Wire
  import NameConversion
  import opened Browse
  import opened Trail
  import opened Reading
  import DirCache

  const ROOTFID: nat := 2
  const SEARCHFID: nat := 27
  const LISTFID: nat := 22
  const INFOFID: nat := 3
  const ENOENT: nat := 2

  datatype Outcome = FnfErr | DirNFErr | BdNamErr | PermErr | File(cnid: nat)

  /** A component whose number is already in the database leads to that number's file. */
  ghost predicate Expected(t: Tree, db: Database, comps: seq<Name>, nums: seq<nat>) {
    && |nums| == |comps|
    && forall i :: 0 <= i < |nums| && nums[i] != 0 ==> ExpectedAt(t, db, comps, nums[i], i)
  }

  ghost predicate ExpectedAt(t: Tree, db: Database, comps: seq<Name>, c: nat, i: nat)
    requires i < |comps|
  {
    c in db && At(t, comps[..i + 1]).Some? && At(t, comps[..i + 1]).value in t.cnid
    && t.cnid[At(t, comps[..i + 1]).value] == c
  }

  /** The same for the last components of a path only, from component `base` on. */
  ghost predicate ExpectedFrom(t: Tree, db: Database, path: seq<Name>, base: int, nums: seq<nat>) {
    0 <= base && base + |nums| <= |path| &&
    forall j :: 0 <= j < |nums| ==> ExpectedAt(t, db, path, nums[j], base + j)
  }

  lemma ExpectedMore(t: Tree, db: Database, path: seq<Name>, c: nat, nums: seq<nat>)
    requires |nums| < |path| && ExpectedFrom(t, db, path, |path| - |nums|, nums)
    requires ExpectedAt(t, db, path, c, |path| - |nums| - 1)
    ensures ExpectedFrom(t, db, path, |path| - |nums| - 1, [c] + nums)
  {
    var base := |path| - |nums| - 1;
    forall j | 0 <= j < |[c] + nums| ensures ExpectedAt(t, db, path, ([c] + nums)[j], base + j) {
      if j > 0 { assert ExpectedAt(t, db, path, nums[j - 1], base + 1 + (j - 1)); }
    }
  }

  lemma MeetsExpectation(t: Tree, db: Database, path: seq<Name>, c: nat, below: seq<Name>)
    requires Good(t) && Rooted(t, db) && c in db && c != ROOTCNID && c in t.node && Exists(t, t.node[c])
    requires path == PathTo(t, t.node[c]) + below
    ensures |below| < |path| && ExpectedAt(t, db, path, c, |path| - |below| - 1)
  {
    UpOne(t, db, c);
    PathLeads(t, t.node[c]);
    assert path[..|path| - |below|] == PathTo(t, t.node[c]);
  }

  /** The numbers expected of appended components are not known. */
  ghost predicate Appended(nums: seq<nat>, before: seq<nat>) {
    |before| <= |nums| && forall i :: 0 <= i < |nums| ==> nums[i] == if i < |before| then before[i] else 0
  }

  lemma AppendedMore(nums: seq<nat>, before: seq<nat>)
    requires Appended(nums, before)
    ensures Appended(nums + [0], before)
  {}

  /** What is left of a path from `at` on. */
  function Tail(path: seq<byte>, at: nat): seq<byte> {
    if at < |path| then path[at..] else []
  }

  /** appendRelativePath has still to append `runs`; in the end it will have failed, or not and made
      `final` of the path. */
  ghost predicate Halfway(codec: NameConversion.Codec, runs: seq<seq<byte>>, comps: seq<Name>, size: nat,
                          failing: bool, final: seq<Name>)
  {
    TooLong(codec, |comps|, size, runs) == failing && comps + CompNames(codec, runs) == final
  }

  lemma HalfwayFull(codec: NameConversion.Codec, run: seq<byte>, rest: seq<seq<byte>>, comps: seq<Name>, size: nat,
                    failing: bool, final: seq<Name>)
    requires Halfway(codec, [run] + rest, comps, size, failing, final)
    requires |comps| >= 100 || (run != [] && size + Taken(codec, run) > 512)
    ensures failing
  {
    RunsNext(codec, run, rest, comps, size);
  }

  lemma HalfwayNext(codec: NameConversion.Codec, run: seq<byte>, rest: seq<seq<byte>>, comps: seq<Name>, size: nat,
                    failing: bool, final: seq<Name>)
    requires Halfway(codec, [run] + rest, comps, size, failing, final)
    requires |comps| < 100 && (run == [] || size + Taken(codec, run) <= 512)
    ensures Halfway(codec, rest, comps + [CompName(codec, run)], size + Taken(codec, run), failing, final)
  {
    RunsNext(codec, run, rest, comps, size);
  }

  lemma HalfwayDone(codec: NameConversion.Codec, comps: seq<Name>, size: nat, failing: bool, final: seq<Name>)
    requires Halfway(codec, [], comps, size, failing, final)
    ensures !failing && comps == final
  {
    assert comps + [] == comps;
  }

  lemma TailNext(path: seq<byte>, at: nat) returns (next: nat)
    requires at < |path|
    ensures next == at + RunLength(path[at..]) + 1
    ensures var runs := Split(Tail(path, at));
            && runs != [] && runs[0] == path[at..][..RunLength(path[at..])]
            && runs[1..] == Split(Tail(path, next))
  {
    next := at + RunLength(path[at..]) + 1;
    assert Tail(path, next) == After(path[at..]);
  }

  lemma RunsNext(codec: NameConversion.Codec, run: seq<byte>, rest: seq<seq<byte>>, comps: seq<Name>, size: nat)
    ensures var runs := [run] + rest;
            && TooLong(codec, |comps|, size, runs) ==
               (|comps| >= 100 || (run != [] && size + Taken(codec, run) > 512) ||
                TooLong(codec, |comps| + 1, size + Taken(codec, run), rest))
            && comps + CompNames(codec, runs) == comps + [CompName(codec, run)] + CompNames(codec, rest)
  {
    var runs := [run] + rest;
    assert runs[1..] == rest && runs[0] == run;
    Shift(comps, CompName(codec, run), CompNames(codec, rest));
  }

  lemma Shift(a: seq<Name>, x: Name, b: seq<Name>)
    ensures a + ([x] + b) == (a + [x]) + b
  {}

  /** What the host lists of a directory: files under names that lead to them. */
  ghost predicate Lists(t: Tree, list: map<Node, seq<(Name, Node)>>) {
    forall d, i :: d in list && 0 <= i < |list[d]| ==> Lookup(t, d, list[d][i].0) == Some(list[d][i].1) && list[d][i].1 in t.cnid
  }

  /** browse has walked the first `progress` components: `tip` is there, and qids are the files passed. */
  ghost predicate Reached(t: Tree, comps: seq<Name>, fids: map<nat, Node>, fid: nat, progress: nat, tip: nat, qids: seq<Node>) {
    && progress <= |comps| && At(t, comps[..progress]).Some?
    && tip == (if progress == 0 then ROOTFID else fid)
    && tip in fids && fids[tip] == At(t, comps[..progress]).value
    && progress <= |qids| && forall i :: 0 <= i < progress ==> At(t, comps[..i + 1]) == Some(qids[i])
  }

  /** A batch of a walk that succeeds moves on by that much; one that fails shows the path leads
      nowhere. */
  lemma WalkOn(t: Tree, comps: seq<Name>, fids: map<nat, Node>, fid: nat, progress: nat, tip: nat, qids: seq<Node>,
               upto: nat, nodes: seq<Node>, fids': map<nat, Node>)
    requires Reached(t, comps, fids, fid, progress, tip, qids) && progress < upto <= |comps|
    requires nodes == Walk(t, fids[tip], comps[progress..upto])
    requires |nodes| == upto - progress ==> fid in fids' && fids'[fid] == nodes[|nodes| - 1]
    ensures |nodes| == upto - progress ==> Reached(t, comps, fids', fid, upto, fid, qids[..progress] + nodes)
    ensures |nodes| < upto - progress ==> At(t, comps).None?
  {
    WalkFollows(t, comps, progress, upto);
    if |nodes| < upto - progress {
      AtBroken(t, comps, progress + |nodes| + 1);
    } else {
      var qids' := qids[..progress] + nodes;
      forall i | 0 <= i < upto ensures At(t, comps[..i + 1]) == Some(qids'[i]) {
        if i >= progress { assert At(t, comps[..progress + (i - progress) + 1]) == Some(nodes[i - progress]); }
      }
    }
  }

  predicate Absolute(cnid: nat, path: seq<byte>) {
    IsAbs(path) || cnid == 1
  }

  /** Where the search starts: at the root for an absolute path, else at the file with number `cnid`,
      which must be known. */
  ghost predicate StartKnown(t: Tree, db: Database, cnid: nat) {
    Good(t) && (cnid == ROOTCNID || cnid in db) && cnid in t.node && Exists(t, t.node[cnid])
  }

  ghost function StartPath(t: Tree, db: Database, cnid: nat, path: seq<byte>): seq<Name>
    requires Absolute(cnid, path) || StartKnown(t, db, cnid)
  {
    if Absolute(cnid, path) then [] else PathTo(t, t.node[cnid])
  }

  /** The part of the path that is appended to it. */
  function Rest(cnid: nat, path: seq<byte>): seq<byte> {
    if Absolute(cnid, path) then AfterRoot(path) else path
  }

  ghost function WholePath(t: Tree, db: Database, codec: NameConversion.Codec, cnid: nat, path: seq<byte>): seq<Name>
    requires Absolute(cnid, path) || StartKnown(t, db, cnid)
  {
    StartPath(t, db, cnid, path) + Names(codec, Rest(cnid, path))
  }

  /** The fixed limits: known paths fit the static arrays unchecked, and a whole path has at most 99
      components and fits the blob if appendRelativePath accepts it. */
  ghost predicate WithinLimits(t: Tree, db: Database, codec: NameConversion.Codec, cnid: nat, path: seq<byte>)
    requires Absolute(cnid, path) || StartKnown(t, db, cnid)
  {
    var start := StartPath(t, db, cnid, path);
    && |start| <= 100 && BlobSize(start) <= 512
    && (!TooLong(codec, |start|, BlobSize(start), Split(Relative(Rest(cnid, path)))) ==>
          |WholePath(t, db, codec, cnid, path)| <= 99 && BlobSize(WholePath(t, db, codec, cnid, path)) <= 512)
  }

  /** What browse means: the number of the file that the path leads to, or why there is none. */
  ghost function Answer(t: Tree, db: Database, codec: NameConversion.Codec, cnid: nat, path: seq<byte>): Outcome {
    if Absolute(cnid, path) && RootName(path) == [] then FnfErr
    else if !Absolute(cnid, path) && !StartKnown(t, db, cnid) then DirNFErr
    else
      var start := StartPath(t, db, cnid, path);
      if TooLong(codec, |start|, BlobSize(start), Split(Relative(Rest(cnid, path)))) then BdNamErr
      else
        Reply(t, WholePath(t, db, codec, cnid, path))
  }

  /** The number of the file that a path leads to. */
  ghost function Reply(t: Tree, comps: seq<Name>): Outcome {
    match At(t, comps)
    case None => FnfErr
    case Some(n) => if n in t.cnid then File(t.cnid[n]) else FnfErr
  }

  /** The same, from the characters of the path. */
  ghost function Understood(t: Tree, db: Database, codec: NameConversion.Codec, cnid: nat, path: seq<byte>): Outcome
    requires Good(t)
  {
    var fromRoot, first := HasVolume(path) || cnid == 1, DropColon(path);
    if fromRoot && (first == [] || first[0] == 58) then FnfErr
    else if !fromRoot && (!(cnid == 2 || cnid in db) || !(cnid in t.node && Exists(t, t.node[cnid]))) then DirNFErr
    else
      var n, rest := if fromRoot then t.root else t.node[cnid], if fromRoot then SkipName(first) else path;
      if NoRoom(codec, |PathTo(t, n)|, BlobSize(PathTo(t, n)), Parts([], DropColon(rest))) then BdNamErr
      else
        match ReadFrom(t, codec, n, rest)
        case None => FnfErr
        case Some(m) => if m in t.cnid then File(t.cnid[m]) else FnfErr
  }

  lemma AnswerReads(t: Tree, db: Database, codec: NameConversion.Codec, cnid: nat, path: seq<byte>)
    requires Good(t)
    ensures Answer(t, db, codec, cnid, path) == Understood(t, db, codec, cnid, path)
  {
    FirstName(path);
    if Absolute(cnid, path) {
      AbsoluteReads(t, db, codec, cnid, path);
    } else if StartKnown(t, db, cnid) {
      RelativeReads(t, db, codec, cnid, path);
    }
  }

  lemma AbsoluteReads(t: Tree, db: Database, codec: NameConversion.Codec, cnid: nat, path: seq<byte>)
    requires Good(t) && Absolute(cnid, path)
    ensures StartPath(t, db, cnid, path) == PathTo(t, t.root)
    ensures At(t, WholePath(t, db, codec, cnid, path)) == ReadFrom(t, codec, t.root, Rest(cnid, path))
    ensures var start := StartPath(t, db, cnid, path);
            NoRoom(codec, |start|, BlobSize(start), Parts([], DropColon(Rest(cnid, path)))) <==>
            TooLong(codec, |start|, BlobSize(start), Split(Relative(Rest(cnid, path))))
  {
    var start := StartPath(t, db, cnid, path);
    PartsAre([], DropColon(Rest(cnid, path)), DropColon(Rest(cnid, path)));
    TooLongExactly(codec, |start|, BlobSize(start), Split(Relative(Rest(cnid, path))));
    RootNumber(t);
    NamesRead(t, codec, [], Rest(cnid, path));
  }

  lemma RelativeReads(t: Tree, db: Database, codec: NameConversion.Codec, cnid: nat, path: seq<byte>)
    requires StartKnown(t, db, cnid) && !Absolute(cnid, path)
    ensures StartPath(t, db, cnid, path) == PathTo(t, t.node[cnid])
    ensures At(t, WholePath(t, db, codec, cnid, path)) == ReadFrom(t, codec, t.node[cnid], path)
    ensures var start := StartPath(t, db, cnid, path);
            NoRoom(codec, |start|, BlobSize(start), Parts([], DropColon(path))) <==>
            TooLong(codec, |start|, BlobSize(start), Split(Relative(path)))
  {
    var start := StartPath(t, db, cnid, path);
    PartsAre([], DropColon(path), DropColon(path));
    TooLongExactly(codec, |start|, BlobSize(start), Split(Relative(path)));
    PathLeads(t, t.node[cnid]);
    NamesRead(t, codec, PathTo(t, t.node[cnid]), path);
  }

  /** Two colons in front of a name mean that name in the parent. */
  lemma UpThenName(t: Tree, db: Database, codec: NameConversion.Codec, cnid: nat, name: seq<byte>)
    requires Good(t) && Rooted(t, db) && cnid in db && cnid != ROOTCNID
    requires var p := db[cnid].parent;
             Understood(t, db, codec, cnid, [58, 58] + name) != BdNamErr && Understood(t, db, codec, p, [58] + name) != BdNamErr
    ensures Understood(t, db, codec, cnid, [58, 58] + name) == Understood(t, db, codec, db[cnid].parent, [58] + name)
  {
    UpOne(t, db, cnid);
    var d := t.node[cnid];
    assert DropColon([58, 58] + name) == [58] + name && DropColon([58] + name) == name;
    assert ([58] + name)[1..] == name;
    assert ReadFrom(t, codec, d, [58, 58] + name) == ReadFrom(t, codec, Up(t, d), [58] + name);
  }

  /** What browse does not handle, whatever is in the database. */
  ghost predicate Permitted(t: Tree, db: Database, codec: NameConversion.Codec, cnid: nat, path: seq<byte>) {
    Absolute(cnid, path) || StartKnown(t, db, cnid) ==>
      WithinLimits(t, db, codec, cnid, path) && StaysBelow(WholePath(t, db, codec, cnid, path))
  }

  /** If the path leads anywhere, it leaves nothing recorded falsely. */
  ghost predicate Harmless(t: Tree, db: Database, codec: NameConversion.Codec, cnid: nat, path: seq<byte>) {
    (Absolute(cnid, path) || StartKnown(t, db, cnid)) && At(t, WholePath(t, db, codec, cnid, path)).Some? ==>
      Wrong(WholePath(t, db, codec, cnid, path), |StartPath(t, db, cnid, path)|) == {}
  }

  /** Calls that use the database: browse, and the recording of a directory's entry found by its index,
      for which the directory may have been found by an earlier call. */
  datatype Op = Look(fid: nat, cnid: nat, path: seq<byte>) | Index(cnid: nat, i: nat, relist: bool)

  ghost predicate Handled(t: Tree, codec: NameConversion.Codec, op: Op) {
    match op
    case Look(fid, cnid, path) =>
      fid != ROOTFID && fid != SEARCHFID &&
      forall db :: Permitted(t, db, codec, cnid, path) && Harmless(t, db, codec, cnid, path)
    case Index(cnid, _, _) => forall db, n :: Permitted(t, db, codec, n, [])
  }

  /** The entries of a directory that are counted. */
  function Shown(es: seq<(Name, Node)>): (r: seq<(Name, Node)>)
    ensures forall x :: x in r ==> x in es && DirCache.VisName(x.0)
  {
    if es == [] then [] else (if DirCache.VisName(es[0].0) then [es[0]] else []) + Shown(es[1..])
  }

  /** What an indexed call means. */
  ghost function EntryAnswer(t: Tree, list: map<Node, seq<(Name, Node)>>, readable: set<Node>, db: Database,
                             cnid: nat, i: nat): Outcome
  {
    if !StartKnown(t, db, cnid) then FnfErr
    else if t.node[cnid] !in list || t.node[cnid] !in readable then PermErr
    else
      var es := Shown(list[t.node[cnid]]);
      if i < |es| && es[i].1 in t.cnid then File(t.cnid[es[i].1]) else FnfErr
  }

  /** No entry is lost or changed, but that the root may be given one. */
  ghost predicate Kept(db: Database, db': Database) {
    forall c :: c in db ==> c in db' && (c != ROOTCNID ==> db'[c] == db[c])
  }

  lemma KnownStart(t: Tree, db: Database, cnid: nat)
    requires Good(t) && Rooted(t, db)
    ensures StartKnown(t, db, cnid) <==> cnid == ROOTCNID || cnid in db
  {
    RootNumber(t);
    if cnid in db && cnid != ROOTCNID { UpOne(t, db, cnid); }
  }

  /** A number with an empty path means its own file, and nothing is recorded. */
  lemma SelfAnswer(t: Tree, db: Database, codec: NameConversion.Codec, cnid: nat)
    requires Good(t) && Rooted(t, db)
    ensures if StartKnown(t, db, cnid) then
              && !Absolute(cnid, []) && Answer(t, db, codec, cnid, []) == File(cnid)
              && WholePath(t, db, codec, cnid, []) == StartPath(t, db, cnid, [])
              && Recorded(t, db, WholePath(t, db, codec, cnid, []), |StartPath(t, db, cnid, [])|) == db
              && Harmless(t, db, codec, cnid, [])
            else !Answer(t, db, codec, cnid, []).File?
  {
    if StartKnown(t, db, cnid) {
      var n := t.node[cnid];
      assert Numbered(t, n);
      PathLeads(t, n);
      assert Names(codec, []) == [] && PathTo(t, n) + [] == PathTo(t, n);
    }
  }

  /** An entry that is shown leads down to the file of its number. */
  lemma EntryIsChild(t: Tree, db: Database, cnid: nat, name: Name, child: Node)
    requires Good(t) && Rooted(t, db) && StartKnown(t, db, cnid) && DirCache.VisName(name)
    requires Lookup(t, t.node[cnid], name) == Some(child) && child in t.cnid
    ensures Rooted(t, db[t.cnid[child] := Rec(cnid, name)]) && t.cnid[child] != ROOTCNID
  {
    var d := t.node[cnid];
    assert (d, name) in t.child && t.child[(d, name)] == child;
    assert t.up[child] == (d, name) && Numbered(t, child) && Numbered(t, d);
    SetKeepsRooted(t, db, child);
  }

  /** What was in one database is in every later one. */
  ghost predicate OnlyGrows(dbs: seq<Database>) {
    forall i, j :: 0 <= i <= j < |dbs| ==> Kept(dbs[i], dbs[j])
  }

  lemma GrowsNext(dbs: seq<Database>, db: Database)
    requires OnlyGrows(dbs) && dbs != [] && Kept(dbs[|dbs| - 1], db)
    ensures OnlyGrows(dbs + [db])
  {
    forall i | 0 <= i < |dbs| ensures Kept(dbs[i], db) { assert Kept(dbs[i], dbs[|dbs| - 1]); }
  }

  lemma RootedKeeps(t: Tree, db: Database, db': Database)
    requires Rooted(t, db) && Rooted(t, db') && db.Keys <= db'.Keys
    ensures Kept(db, db')
  {
    forall c | c in db && c != ROOTCNID ensures db'[c] == db[c] {
      assert Connected(t, db, c) && Connected(t, db', c);
    }
  }

  /** Whether or not all was recorded truly, the file at the end of the path is known afterwards. */
  lemma EndKnown(t: Tree, db: Database, comps: seq<Name>, k: nat)
    requires Good(t) && Rooted(t, db) && StaysBelow(comps) && At(t, comps).Some?
    requires k <= |comps| && AllKnown(t, db, comps[..k])
    ensures var r, n := Recorded(t, db, comps, k), At(t, comps).value;
            && (Rooted(t, r) <==> Wrong(comps, k) == {})
            && n in t.cnid && t.cnid[n] in t.node && t.node[t.cnid[n]] == n && (t.cnid[n] == ROOTCNID || t.cnid[n] in r)
  {
    assert k == |comps| ==> comps[..k] == comps;
    RecordedExactly(t, db, comps, k);
    NormLeads(t, comps);
    var r, p := Recorded(t, db, comps, k), Norm(comps);
    assert p[..|p|] == p && KnownAt(t, r, p[..|p|]);
    PlaceNumber(t, r, p);
  }

  lemma PrefixStays(comps: seq<Name>, i: nat)
    requires StaysBelow(comps) && i <= |comps|
    ensures StaysBelow(comps[..i])
  {
    assert forall j :: 1 <= j <= i ==> comps[..i][..j] == comps[..j];
  }

  lemma ExpectedAppend(t: Tree, db: Database, start: seq<Name>, names: seq<Name>, before: seq<nat>, nums: seq<nat>)
    requires Expected(t, db, start, before) && |nums| == |start + names| && Appended(nums, before)
    ensures Expected(t, db, start + names, nums)
  {
    forall i | 0 <= i < |nums| && nums[i] != 0 ensures ExpectedAt(t, db, start + names, nums[i], i) {
      assert ExpectedAt(t, db, start, before[i], i);
      assert (start + names)[..i + 1] == start[..i + 1];
    }
  }

  class Volume {
    const t: Tree                               // the host's, as are the next two
    const list: map<Node, seq<(Name, Node)>>
    const readable: set<Node>
    const codec: NameConversion.Codec
    var fids: map<nat, Node>
    var db: Database
    var pathComps: seq<Name>
    var expectCNID: seq<nat>
    var pathBlobSize: nat

    ghost predicate Valid()
      reads this
    {
      Hosted() && Rooted(t, db)
    }

    /** What concerns the host. */
    ghost predicate Hosted()
      reads this
    {
      && Good(t) && Lists(t, list) && (forall d :: d in readable ==> d in list)
      && ROOTFID in fids && fids[ROOTFID] == t.root
    }

    constructor (tree: Tree, listing: map<Node, seq<(Name, Node)>>, canRead: set<Node>, tables: NameConversion.Codec)
      requires Good(tree) && Lists(tree, listing) && forall d :: d in canRead ==> d in listing
      ensures Valid() && t == tree && db == map[] && codec == tables
    {
      t, list, readable, codec := tree, listing, canRead, tables;
      fids := map[ROOTFID := tree.root];
      db := map[];
      pathComps, expectCNID, pathBlobSize := [], [], 0;
    }

    // ---------------------------------------------------------------- the database

    method SetDB(cnid: nat, pcnid: nat, name: Name)
      modifies `db
      ensures db == old(db)[cnid := Rec(pcnid, name)]
    {
      db := db[cnid := Rec(pcnid, name)];
    }

    /** Zero for a number that is not in the database. */
    method GetDBParent(cnid: nat) returns (parent: nat)
      ensures parent == if cnid in db then db[cnid].parent else 0
    {
      parent := if cnid in db then db[cnid].parent else 0;
    }

    // ---------------------------------------------------------------- Walk9

    /** One batch of at most 16 names. The new fid moves only if every name is found; it is clunked
        first if it is another. */
    method Walk9(fid: nat, newfid: nat, names: seq<Name>) returns (err: nat, numOK: nat, nodes: seq<Node>)
      requires fid in fids && |names| <= 16
      modifies `fids
      ensures nodes == Walk(t, old(fids)[fid], names) && numOK == |nodes|
      ensures err == 0 <==> |nodes| == |names|
      ensures err == 0 ==> fids == old(fids)[newfid := if nodes == [] then old(fids)[fid] else nodes[|nodes| - 1]]
      ensures err != 0 ==> fids == if newfid == fid then old(fids) else old(fids) - {newfid}
    {
      nodes := Walk(t, fids[fid], names);
      numOK := |nodes|;
      var at := if nodes == [] then fids[fid] else nodes[|nodes| - 1];
      if newfid != fid {
        fids := fids - {newfid};
      }
      err := ENOENT;
      if numOK == |names| {
        fids := fids[newfid := at];
        err := 0;
      }
    }

    // ---------------------------------------------------------------- setPath

    /** Sets the global path to the known path of a number; fails if it is not known. */
    method SetPath(cnid: nat) returns (bad: bool)
      requires Valid()
      modifies `pathComps, `expectCNID, `pathBlobSize
      ensures bad <==> !(cnid == ROOTCNID || cnid in db)
      ensures bad ==> pathComps == old(pathComps)
      ensures !bad ==> cnid in t.node && Exists(t, t.node[cnid])
      ensures !bad ==> pathComps == PathTo(t, t.node[cnid]) && Expected(t, db, pathComps, expectCNID)
      ensures !bad ==> 0 !in expectCNID
      ensures !bad ==> pathBlobSize == BlobSize(pathComps)
    {
      var nbytes, npath, known := Preflight(cnid);
      if !known {
        return true;
      }
      pathBlobSize := nbytes;
      FillPath(cnid);
      bad := false;
    }

    /** Number `i` lies between the root and `cnid`, with the names `below` still to come. */
    ghost predicate OnTheWay(cnid: nat, i: nat, below: seq<Name>)
      reads this
    {
      && Good(t) && Place(cnid) && Place(i)
      && PathTo(t, t.node[cnid]) == PathTo(t, t.node[i]) + below
    }

    ghost predicate Place(i: nat)
      reads this
    {
      (i == ROOTCNID || i in db) && i in t.node && Exists(t, t.node[i])
    }

    ghost function Rank(i: nat): nat {
      if i in t.node && t.node[i] in t.depth then t.depth[t.node[i]] else 0
    }

    lemma Climb(cnid: nat, i: nat, below: seq<Name>)
      requires Valid() && OnTheWay(cnid, i, below) && i != ROOTCNID
      ensures i != 0 && i in db && OnTheWay(cnid, db[i].parent, [db[i].name] + below)
      ensures Rank(db[i].parent) < Rank(i)
    {
      UpOne(t, db, i);
      Shift(PathTo(t, t.up[t.node[i]].0), db[i].name, below);
    }

    lemma Depart(cnid: nat)
      requires Valid() && (cnid == ROOTCNID || cnid in db)
      ensures OnTheWay(cnid, cnid, [])
    {
      RootNumber(t);
      if cnid != ROOTCNID { UpOne(t, db, cnid); }
    }

    lemma ZeroUnknown()
      requires Valid()
      ensures 0 !in db
    {
      if 0 in db { UpOne(t, db, 0); }
    }

    /** The first loop: counts components and bytes; a number that is not known fails. */
    method Preflight(cnid: nat) returns (nbytes: nat, npath: nat, fine: bool)
      requires Valid()
      ensures fine <==> cnid == ROOTCNID || cnid in db
      ensures fine ==> OnTheWay(cnid, cnid, [])
      ensures fine ==> npath == |PathTo(t, t.node[cnid])| && nbytes == BlobSize(PathTo(t, t.node[cnid]))
    {
      nbytes, npath := 0, 0;
      ghost var known := cnid == ROOTCNID || cnid in db;
      if known { Depart(cnid); }
      ZeroUnknown();
      var i := cnid;
      ghost var below: seq<Name> := [];
      while i != ROOTCNID
        invariant known ==> OnTheWay(cnid, i, below) && npath == |below| && nbytes == BlobSize(below)
        invariant !known ==> i == cnid || i == 0
        decreases if known then Rank(i) else if i == 0 then 0 else 1
      {
        if known { Climb(cnid, i, below); }
        if i == 0 {
          return nbytes, npath, false;
        }
        var name := GetDBName(i);
        nbytes := nbytes + |name| + 1;
        npath := npath + 1;
        i := GetDBParent(i);
        below := [name] + below;
      }
      RootNumber(t);
      assert PathTo(t, t.root) + below == below;
      fine := true;
    }

    /** The second loop fills the path in from its end. */
    method FillPath(cnid: nat)
      requires Valid() && OnTheWay(cnid, cnid, [])
      modifies `pathComps, `expectCNID
      ensures pathComps == PathTo(t, t.node[cnid]) && Expected(t, db, pathComps, expectCNID)
      ensures 0 !in expectCNID
    {
      ghost var path := PathTo(t, t.node[cnid]);
      pathComps, expectCNID := [], [];
      var i := cnid;
      while i != ROOTCNID
        invariant OnTheWay(cnid, i, pathComps) && |expectCNID| == |pathComps| && 0 !in expectCNID
        invariant ExpectedFrom(t, db, path, |path| - |expectCNID|, expectCNID)
        decreases Rank(i)
      {
        i := FillOne(cnid, i, path);
      }
      RootNumber(t);
      assert PathTo(t, t.root) + pathComps == pathComps;
    }

    method FillOne(ghost cnid: nat, i: nat, ghost path: seq<Name>) returns (parent: nat)
      requires Valid() && OnTheWay(cnid, i, pathComps) && i != ROOTCNID && path == PathTo(t, t.node[cnid])
      requires |expectCNID| == |pathComps| && ExpectedFrom(t, db, path, |path| - |expectCNID|, expectCNID)
      modifies `pathComps, `expectCNID
      ensures i != 0 && expectCNID == [i] + old(expectCNID)
      ensures OnTheWay(cnid, parent, pathComps) && Rank(parent) < Rank(i)
      ensures |expectCNID| == |pathComps| && ExpectedFrom(t, db, path, |path| - |expectCNID|, expectCNID)
    {
      Climb(cnid, i, pathComps);
      MeetsExpectation(t, db, path, i, pathComps);
      ExpectedMore(t, db, path, i, expectCNID);
      var name := GetDBName(i);
      pathComps := [name] + pathComps;
      expectCNID := [i] + expectCNID;
      parent := GetDBParent(i);
    }

    /** The name in the database; for a number that is not in it the code measures a null pointer. */
    method GetDBName(cnid: nat) returns (name: Name)
      ensures cnid in db ==> name == db[cnid].name
    {
      name := *;
      if cnid in db {
        name := db[cnid].name;
      }
    }

    // ---------------------------------------------------------------- appendRelativePath

    /** Appends a Mac path to the global path; fails when that runs out of room. */
    method AppendRelativePath(path: seq<byte>) returns (oom: bool)
      requires |expectCNID| == |pathComps|
      modifies `pathComps, `expectCNID, `pathBlobSize
      ensures oom <==> TooLong(codec, old(|pathComps|), old(pathBlobSize), Split(Relative(path)))
      ensures !oom ==> pathComps == old(pathComps) + Names(codec, path)
      ensures !oom ==> |expectCNID| == |pathComps| && Appended(expectCNID, old(expectCNID))
    {
      var component := if path != [] && path[0] == COLON then 1 else 0;
      assert Tail(path, component) == Relative(path);
      oom := AppendFrom(path, component);
    }

    /** The component conversion loop. */
    method AppendFrom(path: seq<byte>, start: nat) returns (oom: bool)
      requires |expectCNID| == |pathComps|
      modifies `pathComps, `expectCNID, `pathBlobSize
      ensures oom <==> TooLong(codec, old(|pathComps|), old(pathBlobSize), Split(Tail(path, start)))
      ensures !oom ==> pathComps == old(pathComps) + CompNames(codec, Split(Tail(path, start)))
      ensures !oom ==> |expectCNID| == |pathComps| && Appended(expectCNID, old(expectCNID))
    {
      ghost var failing := TooLong(codec, |pathComps|, pathBlobSize, Split(Tail(path, start)));
      ghost var final := pathComps + CompNames(codec, Split(Tail(path, start)));
      var component := start;
      while component < |path|
        invariant Halfway(codec, Split(Tail(path, component)), pathComps, pathBlobSize, failing, final)
        invariant |expectCNID| == |pathComps| && Appended(expectCNID, old(expectCNID))
      {
        oom, component := AppendAt(path, component, failing, final, old(expectCNID));
        if oom {
          return;
        }
      }
      HalfwayDone(codec, pathComps, pathBlobSize, failing, final);
      oom := false;
    }

    method AppendAt(path: seq<byte>, component: nat, ghost failing: bool, ghost final: seq<Name>, ghost nums0: seq<nat>)
      returns (oom: bool, next: nat)
      requires component < |path| && Halfway(codec, Split(Tail(path, component)), pathComps, pathBlobSize, failing, final)
      requires |expectCNID| == |pathComps| && Appended(expectCNID, nums0)
      modifies `pathComps, `expectCNID, `pathBlobSize
      ensures component < next
      ensures oom ==> failing
      ensures !oom ==> Halfway(codec, Split(Tail(path, next)), pathComps, pathBlobSize, failing, final)
      ensures !oom ==> |expectCNID| == |pathComps| && Appended(expectCNID, nums0)
    {
      ghost var to := TailNext(path, component);
      oom, next := AppendNext(path, component, Split(Tail(path, component)), Split(Tail(path, to)), failing, final, nums0);
      assert next == to;
    }

    method AppendNext(path: seq<byte>, component: nat, ghost runs: seq<seq<byte>>, ghost rest: seq<seq<byte>>, ghost failing: bool,
                      ghost final: seq<Name>, ghost nums0: seq<nat>)
      returns (oom: bool, next: nat)
      requires component < |path| && runs != [] && runs[0] == path[component..][..RunLength(path[component..])] && rest == runs[1..]
      requires Halfway(codec, runs, pathComps, pathBlobSize, failing, final)
      requires |expectCNID| == |pathComps| && Appended(expectCNID, nums0)
      modifies `pathComps, `expectCNID, `pathBlobSize
      ensures next == component + RunLength(path[component..]) + 1
      ensures oom ==> failing
      ensures !oom ==> Halfway(codec, rest, pathComps, pathBlobSize, failing, final)
      ensures !oom ==> |expectCNID| == |pathComps| && Appended(expectCNID, nums0)
    {
      var len := ComponentLength(path, component);
      next := component + len + 1;
      assert runs == [runs[0]] + rest;
      if |pathComps| >= 100 {
        HalfwayFull(codec, runs[0], rest, pathComps, pathBlobSize, failing, final);
        return true, next;
      }
      AppendedMore(expectCNID, nums0);
      ghost var comps, size := pathComps, pathBlobSize;
      oom := AppendComponent(path[component..][..len]);
      if oom {
        HalfwayFull(codec, runs[0], rest, comps, size, failing, final);
      } else {
        HalfwayNext(codec, runs[0], rest, comps, size, failing, final);
      }
    }

    method ComponentLength(path: seq<byte>, component: nat) returns (len: nat)
      requires component < |path|
      ensures len == RunLength(path[component..])
    {
      len := 0;
      while component + len < |path| && path[component + len] != COLON
        invariant component + len <= |path|
        invariant len + RunLength(path[component + len..]) == RunLength(path[component..])
      {
        assert path[component + len..][1..] == path[component + len + 1..];
        len := len + 1;
      }
    }

    /** Copies one component into the blob; fails when the blob is full, which is not checked for "..". */
    method AppendComponent(run: seq<byte>) returns (full: bool)
      modifies `pathComps, `expectCNID, `pathBlobSize
      ensures full <==> run != [] && old(pathBlobSize) + Taken(codec, run) > 512
      ensures !full ==> pathComps == old(pathComps) + [CompName(codec, run)] && expectCNID == old(expectCNID) + [0]
      ensures !full ==> pathBlobSize == old(pathBlobSize) + Taken(codec, run)
    {
      var size := pathBlobSize;
      var text: seq<byte> := [];
      if |run| == 0 {
        text, size := DOTDOT, size + 3;
      } else {
        full, text, size := CopyBytes(run, size);
        if full {
          return;
        }
      }
      pathBlobSize := size;
      pathComps := pathComps + [text];
      expectCNID := expectCNID + [0];
      full := false;
    }

    method CopyBytes(run: seq<byte>, size0: nat) returns (full: bool, text: Name, size: nat)
      ensures full <==> size0 + |NameConversion.Utf8Of(codec, run)| + 1 > 512
      ensures !full ==> text == NameConversion.CString(NameConversion.Utf8Of(codec, run))
      ensures !full ==> size == size0 + |NameConversion.Utf8Of(codec, run)| + 1
    {
      var blob: seq<byte> := [];
      size := size0;
      assert run[0..] == run;
      for i := 0 to |run|
        invariant blob + NameConversion.Utf8Of(codec, run[i..]) == NameConversion.Utf8Of(codec, run)
        invariant size == size0 + |blob| && (i > 0 ==> size <= 512)
      {
        var bytes := NameConversion.Unpack(codec.encode(run[i]));
        assert run[i..][1..] == run[i + 1..];
        if size + |bytes| > 512 {
          return true, [], size;
        }
        blob := blob + bytes;
        size := size + |bytes|;
      }
      assert run[|run|..] == [] && blob + [] == blob;
      if size >= 512 {
        return true, [], size;
      }
      full, text, size := false, NameConversion.CString(blob), size + 1;
    }

    // ---------------------------------------------------------------- browse: walking

    /** Tries the next 16 components at most. */
    method TryWalk(fid: nat, progress: nat, tip: nat, qids: seq<Node>) returns (curDepth: nat, tryDepth: nat, tip': nat, qids': seq<Node>)
      requires Valid() && fid != ROOTFID && fid != SEARCHFID && progress < |pathComps|
      requires Reached(t, pathComps, fids, fid, progress, tip, qids)
      modifies `fids
      ensures Valid() && progress <= curDepth <= |pathComps|
      ensures Reached(t, pathComps, fids, fid, curDepth, tip', qids')
      ensures curDepth < tryDepth ==> curDepth == progress && At(t, pathComps).None?
      ensures curDepth >= tryDepth ==> curDepth > progress
    {
      tryDepth := if |pathComps| > progress + 16 then progress + 16 else |pathComps|;
      ghost var fids0 := fids;
      var err, numOK, nodes := Walk9(tip, fid, pathComps[progress..tryDepth]);
      WalkOn(t, pathComps, fids0, fid, progress, tip, qids, tryDepth, nodes, fids);
      qids' := qids[..progress] + nodes;
      if progress + numOK == tryDepth {
        curDepth, tip' := tryDepth, fid;
      } else {
        curDepth, tip' := progress, tip;
      }
    }

    /** The loop that discards components with an unexpected number; in a tree that does not change
        there are none. */
    method CheckNumbers(progress: nat, curDepth: nat, qids: seq<Node>) returns (keepDepth: nat)
      requires Valid() && Expected(t, db, pathComps, expectCNID) && progress <= curDepth <= |pathComps| && curDepth <= |qids|
      requires forall i :: 0 <= i < curDepth ==> At(t, pathComps[..i + 1]) == Some(qids[i])
      ensures keepDepth == curDepth
    {
      keepDepth := curDepth;
      for i := progress to curDepth
        invariant keepDepth == curDepth
      {
        AtExists(t, pathComps[..i + 1]);
        assert Numbered(t, qids[i]);
        if expectCNID[i] != 0 {
          assert ExpectedAt(t, db, pathComps, expectCNID[i], i);
          if expectCNID[i] != t.cnid[qids[i]] {
            assert false;
          }
        }
      }
    }

    /** The exhaustive search of the directory at `tip` for the next component, by number; there is
        none to go by for a component that is only a name. */
    method SearchStep(fid: nat, progress: nat, tip: nat, qids: seq<Node>) returns (ok: bool, qids': seq<Node>)
      requires Valid() && fid != ROOTFID && fid != SEARCHFID && progress < |pathComps|
      requires Reached(t, pathComps, fids, fid, progress, tip, qids) && Expected(t, db, pathComps, expectCNID)
      modifies `fids
      ensures Valid()
      ensures ok ==> Reached(t, pathComps, fids, fid, progress + 1, fid, qids')
    {
      qids' := qids;
      var wantCNID := expectCNID[progress];
      var found, filename, node := FindNumber(tip, wantCNID);
      if !found {
        return false, qids;
      }
      AtExists(t, pathComps[..progress]);
      FoundNext(progress, wantCNID, filename, node, fids[tip]);
      ok, qids' := EnterFound(fid, progress, tip, qids, filename, node);
    }

    method EnterFound(fid: nat, progress: nat, tip: nat, qids: seq<Node>, filename: Name, node: Node)
      returns (ok: bool, qids': seq<Node>)
      requires Valid() && fid != ROOTFID && progress < |pathComps|
      requires Reached(t, pathComps, fids, fid, progress, tip, qids)
      requires At(t, pathComps[..progress + 1]) == Some(node) && Walk(t, fids[tip], [filename]) == [node]
      modifies `fids
      ensures Valid()
      ensures ok ==> Reached(t, pathComps, fids, fid, progress + 1, fid, qids')
    {
      var err, _, nodes := Walk9(tip, fid, [filename]);
      if err != 0 {
        return false, qids;
      }
      qids' := qids[..progress] + [node];
      ok := true;
    }

    lemma FoundNext(progress: nat, want: nat, filename: Name, node: Node, tipNode: Node)
      requires Valid() && Expected(t, db, pathComps, expectCNID) && progress < |pathComps|
      requires want == expectCNID[progress] && want != 0 && node in t.cnid && t.cnid[node] == want
      requires Lookup(t, tipNode, filename) == Some(node) && Exists(t, tipNode)
      ensures At(t, pathComps[..progress + 1]) == Some(node)
      ensures Walk(t, tipNode, [filename]) == [node]
    {
      assert ExpectedAt(t, db, pathComps, want, progress);
      AtExists(t, pathComps[..progress + 1]);
      LookupExists(t, tipNode, filename);
      assert Numbered(t, node) && Numbered(t, At(t, pathComps[..progress + 1]).value);
      assert [filename][1..] == [];
    }

    /** Lists the directory at `tip` through a fid of its own. */
    method FindNumber(tip: nat, want: nat) returns (found: bool, filename: Name, node: Node)
      requires Valid() && tip in fids && tip != SEARCHFID
      modifies `fids
      ensures Valid() && fids == old(fids) - {SEARCHFID}
      ensures found ==> want != 0 && node in t.cnid && t.cnid[node] == want && Lookup(t, fids[tip], filename) == Some(node)
    {
      found, filename, node := false, [], 0;
      var _, _, _ := Walk9(tip, SEARCHFID, []);
      var dir := fids[SEARCHFID];
      if dir in readable {
        var entries := list[dir];
        var i := 0;
        while i < |entries| && !found
          invariant i <= |entries|
          invariant found ==> want != 0 && node in t.cnid && t.cnid[node] == want && Lookup(t, dir, filename) == Some(node)
          decreases |entries| - i, !found
        {
          if want != 0 && t.cnid[entries[i].1] == want {
            found, filename, node := true, entries[i].0, entries[i].1;
          }
          i := i + 1;
        }
      }
      fids := fids - {SEARCHFID};
    }

    /** The loop that walks the whole path. It fails exactly when the path leads nowhere. */
    method WalkPath(fid: nat) returns (ok: bool, qids: seq<Node>)
      requires Valid() && Expected(t, db, pathComps, expectCNID) && fid != ROOTFID && fid != SEARCHFID && |pathComps| > 0
      modifies `fids
      ensures Valid() && (ok <==> At(t, pathComps).Some?)
      ensures ok ==> Reached(t, pathComps, fids, fid, |pathComps|, fid, qids)
    {
      var progress, tip := 0, ROOTFID;
      qids := [];
      while progress < |pathComps|
        invariant Valid() && Reached(t, pathComps, fids, fid, progress, tip, qids)
        decreases |pathComps| - progress
      {
        ok, progress, tip, qids := WalkSome(fid, progress, tip, qids);
        if !ok {
          return;
        }
      }
      assert pathComps[..|pathComps|] == pathComps;
      ok := true;
    }

    /** One iteration: up to 16 components at once, or one found by searching. */
    method WalkSome(fid: nat, progress: nat, tip: nat, qids: seq<Node>)
      returns (ok: bool, progress': nat, tip': nat, qids': seq<Node>)
      requires Valid() && Expected(t, db, pathComps, expectCNID) && fid != ROOTFID && fid != SEARCHFID
      requires progress < |pathComps| && Reached(t, pathComps, fids, fid, progress, tip, qids)
      modifies `fids
      ensures Valid()
      ensures !ok ==> At(t, pathComps).None?
      ensures ok ==> progress < progress' && Reached(t, pathComps, fids, fid, progress', tip', qids')
    {
      var curDepth, tryDepth;
      curDepth, tryDepth, tip', qids' := TryWalk(fid, progress, tip, qids);
      var keepDepth := CheckNumbers(progress, curDepth, qids');
      if curDepth > keepDepth {
        assert false;
      }
      ok, progress' := true, curDepth;
      if curDepth < tryDepth {
        ok, qids' := SearchStep(fid, progress, tip', qids');
        tip', progress' := fid, progress + 1;
      }
    }

    // ---------------------------------------------------------------- browse: the trail

    /** The first k components were known by number before, and the others are only names. */
    ghost predicate Begun(k: nat)
      reads this
    {
      && Good(t) && k <= |pathComps| == |expectCNID| && AllKnown(t, db, pathComps[..k])
      && forall i :: 0 <= i < |expectCNID| ==> (expectCNID[i] == 0 <==> i >= k)
    }

    /** The loop over the trail: records the end of the trail after every component that was not known
        by number. */
    method RecordTrail(qids: seq<Node>, ghost k: nat)
      requires Valid() && StaysBelow(pathComps) && Begun(k) && At(t, pathComps).Some? && |qids| >= |pathComps|
      requires forall i :: 0 <= i < |pathComps| ==> At(t, pathComps[..i + 1]) == Some(qids[i])
      modifies `db
      ensures Hosted() && db == Recorded(t, old(db), pathComps, k)
    {
      var nametrail: seq<Name>, qidtrail: seq<Node> := [], [];
      for i := 0 to |pathComps|
        invariant Hosted() && Follows(t, Crumbs(pathComps[..i]), nametrail, qidtrail)
        invariant db == Recorded(t, old(db), pathComps[..i], k)
      {
        nametrail, qidtrail := TrailOne(i, nametrail, qidtrail, qids[i], k, old(db));
      }
      assert pathComps[..|pathComps|] == pathComps;
    }

    method TrailOne(i: nat, nametrail: seq<Name>, qidtrail: seq<Node>, qid: Node, ghost k: nat, ghost db0: Database)
      returns (names: seq<Name>, line: seq<Node>)
      requires Hosted() && StaysBelow(pathComps) && i < |pathComps| == |expectCNID| && (expectCNID[i] == 0 <==> i >= k)
      requires Follows(t, Crumbs(pathComps[..i]), nametrail, qidtrail) && At(t, pathComps[..i + 1]) == Some(qid)
      requires db == Recorded(t, db0, pathComps[..i], k)
      modifies `db
      ensures Hosted() && Follows(t, Crumbs(pathComps[..i + 1]), names, line)
      ensures db == Recorded(t, db0, pathComps[..i + 1], k)
    {
      ghost var upto := pathComps[..i + 1];
      assert upto[..i] == pathComps[..i];
      PrefixStays(pathComps, i + 1);
      CrumbCount(upto);
      FollowsNext(t, upto, nametrail, qidtrail, qid);
      if pathComps[i] == DOTDOT {
        names, line := nametrail[..|nametrail| - 1], qidtrail[..|qidtrail| - 1];
      } else {
        names, line := nametrail + [pathComps[i]], qidtrail + [qid];
      }
      FollowsTop(t, Crumbs(upto), names, line);
      var theName, theCNID := names[|names| - 1], t.cnid[line[|line| - 1]];
      var parentCNID := if |line| == 1 then ROOTCNID else t.cnid[line[|line| - 2]];
      if expectCNID[i] == 0 {
        SetDB(theCNID, parentCNID, theName);
      }
    }

    // ---------------------------------------------------------------- browse itself

    method PathSplitRoot(path: seq<byte>) returns (root: seq<byte>, relative: seq<byte>)
      ensures root == RootName(path) && relative == AfterRoot(path)
    {
      var strip := if |path| > 0 && path[0] == COLON then 1 else 0;
      var rootlen := 0;
      assert path[strip..] == Relative(path);
      while strip + rootlen < |path| && path[strip + rootlen] != COLON
        invariant strip + rootlen <= |path|
        invariant rootlen + RunLength(path[strip + rootlen..]) == RunLength(path[strip..])
      {
        assert path[strip + rootlen..][1..] == path[strip + rootlen + 1..];
        rootlen := rootlen + 1;
      }
      root := path[strip..strip + rootlen];
      relative := path[strip + rootlen..];
    }

    /** Sets the global path; `early` is the error if that fails. */
    method ChoosePath(cnid: nat, path: seq<byte>) returns (early: Outcome, ok: bool, ghost k: nat)
      requires Valid()
      modifies `pathComps, `expectCNID, `pathBlobSize
      ensures !ok ==> early == Answer(t, db, codec, cnid, path) && !early.File?
      ensures ok ==> Absolute(cnid, path) || StartKnown(t, db, cnid)
      ensures ok ==> pathComps == WholePath(t, db, codec, cnid, path) && Expected(t, db, pathComps, expectCNID)
      ensures ok ==> k == |StartPath(t, db, cnid, path)| && Begun(k)
      ensures ok ==> Answer(t, db, codec, cnid, path) == Reply(t, pathComps)
    {
      early, ok, k := FnfErr, false, 0;
      var rest := path;
      RootNumber(t);
      if IsAbs(path) || cnid == 1 {
        var _ := SetPath(ROOTCNID);
        KnownPath(t, db, ROOTCNID);
        var root, relative := PathSplitRoot(path);
        if root == [] {
          return FnfErr, false, 0;
        }
        rest := relative;
      } else {
        var bad := SetPath(cnid);
        if bad {
          return DirNFErr, false, 0;
        }
        KnownPath(t, db, cnid);
      }
      ghost var start, before := pathComps, expectCNID;
      var oom := AppendRelativePath(rest);
      if oom {
        return BdNamErr, false, 0;
      }
      ExpectedAppend(t, db, start, Names(codec, rest), before, expectCNID);
      assert pathComps[..|start|] == start;
      k := |start|;
      ok := true;
    }

    /** Finds a file by number and path, leaves `fid` there, and returns its number, which is then
        known. The database stays sound exactly when the path's names alone show that nothing is left
        recorded falsely; only a "." can do that. A path that climbs back to the root is not handled by
        the code. */
    method Browse(fid: nat, cnid: nat, path: seq<byte>) returns (r: Outcome)
      requires Valid() && fid != ROOTFID && fid != SEARCHFID
      requires Absolute(cnid, path) || StartKnown(t, db, cnid) ==>
                 WithinLimits(t, db, codec, cnid, path) && StaysBelow(WholePath(t, db, codec, cnid, path))
      modifies this
      ensures Hosted() && r == Answer(t, old(db), codec, cnid, path) == Understood(t, old(db), codec, cnid, path)
      ensures !r.File? ==> db == old(db)
      ensures r.File? ==>
                && (Absolute(cnid, path) || StartKnown(t, old(db), cnid))
                && var whole, k := WholePath(t, old(db), codec, cnid, path), |StartPath(t, old(db), cnid, path)|;
                   && db == Recorded(t, old(db), whole, k)
                   && (Rooted(t, db) <==> Wrong(whole, k) == {})
      ensures r.File? ==> r.cnid in t.node && fid in fids && fids[fid] == t.node[r.cnid]
      ensures r.File? ==> r.cnid == ROOTCNID || r.cnid in db
    {
      AnswerReads(t, db, codec, cnid, path);
      var ok;
      ghost var k;
      r, ok, k := ChoosePath(cnid, path);
      if !ok {
        return;
      }
      r := Find(fid, k);
    }

    /** Any lookups and indexed entries, one after another. Every entry made stays, goes on leading to its
        file, and goes on being found by its number; every file returned is the one that its path leads to,
        and the only other reason for an answer than the host's tree is that a number is not yet known. */
    method Session(ops: seq<Op>) returns (answers: seq<Outcome>, ghost dbs: seq<Database>)
      requires Valid() && forall i :: 0 <= i < |ops| ==> Handled(t, codec, ops[i])
      modifies this
      ensures Valid() && |answers| == |ops| && |dbs| == |ops| + 1 && dbs[0] == old(db) && dbs[|ops|] == db
      ensures OnlyGrows(dbs)
      ensures forall i :: 0 <= i < |ops| ==> Rooted(t, dbs[i]) && Answered(ops[i], dbs[i], dbs[i + 1], answers[i])
    {
      answers, dbs := [], [db];
      for i := 0 to |ops|
        invariant Valid() && |answers| == i && |dbs| == i + 1 && dbs[0] == old(db) && dbs[i] == db && OnlyGrows(dbs)
        invariant forall j :: 0 <= j < i ==> Rooted(t, dbs[j]) && Answered(ops[j], dbs[j], dbs[j + 1], answers[j])
      {
        var r := OneOp(ops[i]);
        GrowsNext(dbs, db);
        answers, dbs := answers + [r], dbs + [db];
      }
    }

    /** The answer to one call, and that the file it names can be found by its number afterwards. */
    ghost predicate Answered(op: Op, before: Database, after: Database, r: Outcome) {
      && (r.File? ==> r.cnid == ROOTCNID || r.cnid in after)
      && match op
         case Look(_, cnid, path) => r == Answer(t, before, codec, cnid, path)
         case Index(cnid, i, _) => r == EntryAnswer(t, list, readable, before, cnid, i)
    }

    method OneOp(op: Op) returns (r: Outcome)
      requires Valid() && Handled(t, codec, op)
      modifies this
      ensures Valid() && Kept(old(db), db) && Answered(op, old(db), db, r)
    {
      match op {
        case Look(fid, cnid, path) =>
          r := LookUp(fid, cnid, path);
        case Index(cnid, i, relist) =>
          // only a directory that was found before can be the one last listed
          r := ByIndex(cnid, i, relist || !(cnid == ROOTCNID || cnid in db));
      }
    }

    /** browse, with a path that does no harm. */
    method LookUp(fid: nat, cnid: nat, path: seq<byte>) returns (r: Outcome)
      requires Valid() && fid != ROOTFID && fid != SEARCHFID
      requires Permitted(t, db, codec, cnid, path) && Harmless(t, db, codec, cnid, path)
      modifies this
      ensures Valid() && Kept(old(db), db) && r == Answer(t, old(db), codec, cnid, path)
      ensures r.File? ==> r.cnid == ROOTCNID || r.cnid in db
    {
      ghost var before := db;
      r := Browse(fid, cnid, path);
      if r.File? {
        RecordedGrows(t, before, WholePath(t, before, codec, cnid, path), |StartPath(t, before, cnid, path)|);
      }
      RootedKeeps(t, before, db);
    }

    /** The indexed branch of fsGetFileInfo: the i-th entry shown of a directory is recorded under its own
        number, and found by it. Without `relist` the directory was found by an earlier call. */
    method ByIndex(cnid: nat, i: nat, relist: bool) returns (r: Outcome)
      requires Valid() && forall db', n :: Permitted(t, db', codec, n, [])
      requires relist || cnid == ROOTCNID || cnid in db
      modifies this
      ensures Valid() && Kept(old(db), db) && r == EntryAnswer(t, list, readable, old(db), cnid, i)
      ensures r.File? ==> r.cnid in db
    {
      KnownStart(t, db, cnid);
      if relist {
        var found := FindSelf(LISTFID, cnid);
        if !found {
          return FnfErr;
        }
      }
      if t.node[cnid] !in list || t.node[cnid] !in readable {
        return PermErr;
      }
      var es := Shown(list[t.node[cnid]]);
      if i >= |es| {
        return FnfErr;
      }
      r := RecordEntry(cnid, es[i].0, es[i].1);
    }

    /** A known number found again with an empty path. */
    method FindSelf(fid: nat, cnid: nat) returns (found: bool)
      requires Valid() && fid != ROOTFID && fid != SEARCHFID && forall db', n :: Permitted(t, db', codec, n, [])
      modifies this
      ensures Valid() && db == old(db) && (found <==> StartKnown(t, db, cnid))
      ensures found ==> fid in fids && fids[fid] == t.node[cnid]
    {
      assert Permitted(t, db, codec, cnid, []);
      SelfAnswer(t, db, codec, cnid);
      var r := Browse(fid, cnid, []);
      found := r.File?;
    }

    /** Records the entry `name` of a directory, and finds it again by its own number. */
    method RecordEntry(cnid: nat, name: Name, child: Node) returns (r: Outcome)
      requires Valid() && StartKnown(t, db, cnid) && forall db', n :: Permitted(t, db', codec, n, [])
      requires DirCache.VisName(name) && Lookup(t, t.node[cnid], name) == Some(child) && child in t.cnid
      modifies this
      ensures Valid() && Kept(old(db), db) && r == File(t.cnid[child]) && t.cnid[child] in db
    {
      EntryIsChild(t, db, cnid, name, child);
      ghost var before := db;
      SetDB(t.cnid[child], cnid, name);
      RootedKeeps(t, before, db);
      KnownStart(t, db, t.cnid[child]);
      var found := FindSelf(INFOFID, t.cnid[child]);
      assert found;
      r := File(t.cnid[child]);
    }

    /** The rest of browse, once the global path is set. */
    method Find(fid: nat, ghost k: nat) returns (r: Outcome)
      requires Valid() && StaysBelow(pathComps) && Expected(t, db, pathComps, expectCNID) && Begun(k)
      requires fid != ROOTFID && fid != SEARCHFID
      modifies `fids, `db
      ensures Hosted() && r == Reply(t, pathComps)
      ensures !r.File? ==> db == old(db)
      ensures r.File? ==> db == Recorded(t, old(db), pathComps, k) && (Rooted(t, db) <==> Wrong(pathComps, k) == {})
      ensures r.File? ==> r.cnid in t.node && fid in fids && fids[fid] == t.node[r.cnid]
      ensures r.File? ==> r.cnid == ROOTCNID || r.cnid in db
    {
      if |pathComps| == 0 {
        RootNumber(t);
        assert Numbered(t, t.root);
        var _, _, _ := Walk9(ROOTFID, fid, []);
        return File(ROOTCNID);
      }
      r := FindBelow(fid, k);
    }

    method FindBelow(fid: nat, ghost k: nat) returns (r: Outcome)
      requires Valid() && StaysBelow(pathComps) && Expected(t, db, pathComps, expectCNID) && Begun(k)
      requires fid != ROOTFID && fid != SEARCHFID && |pathComps| > 0
      modifies `fids, `db
      ensures Hosted() && r == Reply(t, pathComps)
      ensures !r.File? ==> db == old(db)
      ensures r.File? ==> db == Recorded(t, old(db), pathComps, k) && (Rooted(t, db) <==> Wrong(pathComps, k) == {})
      ensures r.File? ==> r.cnid in t.node && fid in fids && fids[fid] == t.node[r.cnid]
      ensures r.File? ==> r.cnid == ROOTCNID || r.cnid in db
    {
      var ok, qids := WalkPath(fid);
      if !ok {
        return FnfErr;
      }
      assert pathComps[..|pathComps|] == pathComps;
      EndKnown(t, db, pathComps, k);
      RecordTrail(qids, k);
      r := File(t.cnid[qids[|pathComps| - 1]]);
    }
  }
}
