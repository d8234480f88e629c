/** Files by catalogue number (virtio/device-9p.c): the host's tree of files, the database that ties
    every number to its parent's number and its name, and paths. */
module Browse {
  import opened Words
  import opened Wire
  import NameConversion

  type Name = seq<byte>
  type Node = nat

  const DOT: Name := [46]
  const DOTDOT: Name := [46, 46]
  const ROOTCNID: nat := 2

  /** The host's tree, which does not change. `up` gives the parent and name of every node but the
      root, `child` is its inverse; `cnid` numbers the nodes and `node` is its inverse. */
  datatype Tree = Tree(root: Node, child: map<(Node, Name), Node>, up: map<Node, (Node, Name)>,
                       depth: map<Node, nat>, cnid: map<Node, nat>, node: map<nat, Node>)

  predicate Exists(t: Tree, n: Node) {
    n == t.root || n in t.up
  }

  ghost predicate Good(t: Tree) {
    && t.root !in t.up && t.root in t.depth && t.depth[t.root] == 0
    && (forall n :: n in t.up ==> GoodNode(t, n))
    && (forall dn :: dn in t.child ==> t.child[dn] in t.up && t.up[t.child[dn]] == dn)
    && (forall n :: Exists(t, n) ==> Numbered(t, n))
    && (forall c :: c in t.node ==> Exists(t, t.node[c]) && t.cnid[t.node[c]] == c)
  }

  ghost predicate GoodNode(t: Tree, n: Node)
    requires n in t.up
  {
    var (d, name) := t.up[n];
    && Exists(t, d) && (d, name) in t.child && t.child[(d, name)] == n
    && name != DOT && name != DOTDOT
    && d in t.depth && n in t.depth && t.depth[n] == t.depth[d] + 1
  }

  /** Distinct nodes have distinct numbers; 0 and 1 are no file's, and 2 is the root's. */
  ghost predicate Numbered(t: Tree, n: Node) {
    && n in t.cnid && t.cnid[n] in t.node && t.node[t.cnid[n]] == n
    && t.cnid[n] >= 2 && (t.cnid[n] == ROOTCNID <==> n == t.root)
  }

  /** The host's answer to one step of a walk. */
  function Lookup(t: Tree, n: Node, name: Name): Option<Node> {
    if name == DOTDOT then Some(if n in t.up then t.up[n].0 else n)
    else if name == DOT then Some(n)
    else if (n, name) in t.child then Some(t.child[(n, name)])
    else None
  }

  /** Where a path from the root leads. */
  function At(t: Tree, comps: seq<Name>): Option<Node> {
    if comps == [] then Some(t.root)
    else
      match At(t, comps[..|comps| - 1])
      case None => None
      case Some(n) => Lookup(t, n, comps[|comps| - 1])
  }

  lemma AtNext(t: Tree, comps: seq<Name>, i: nat)
    requires i < |comps|
    ensures At(t, comps[..i + 1]) ==
            if At(t, comps[..i]).Some? then Lookup(t, At(t, comps[..i]).value, comps[i]) else None
  {
    assert comps[..i + 1][..i] == comps[..i];
  }

  lemma {:induction false} AtExists(t: Tree, comps: seq<Name>)
    requires Good(t)
    ensures At(t, comps).Some? ==> Exists(t, At(t, comps).value)
  {
    if comps != [] {
      AtExists(t, comps[..|comps| - 1]);
      if At(t, comps[..|comps| - 1]).Some? {
        LookupExists(t, At(t, comps[..|comps| - 1]).value, comps[|comps| - 1]);
      }
    }
  }

  lemma LookupExists(t: Tree, n: Node, name: Name)
    requires Good(t) && Exists(t, n)
    ensures Lookup(t, n, name).Some? ==> Exists(t, Lookup(t, n, name).value)
  {
    if n in t.up { assert GoodNode(t, n); }
  }

  lemma {:induction false} AtBroken(t: Tree, comps: seq<Name>, i: nat)
    requires i <= |comps| && At(t, comps[..i]).None?
    ensures At(t, comps).None?
    decreases |comps| - i
  {
    if i == |comps| {
      assert comps[..i] == comps;
    } else {
      AtNext(t, comps, i);
      AtBroken(t, comps, i + 1);
    }
  }

  // ------------------------------------------------------------------ walking on the host

  /** The nodes a Twalk passes through before it fails or is done. */
  function Walk(t: Tree, n: Node, names: seq<Name>): (ns: seq<Node>)
    ensures |ns| <= |names|
    decreases |names|
  {
    if names == [] then []
    else
      match Lookup(t, n, names[0])
      case None => []
      case Some(m) => [m] + Walk(t, m, names[1..])
  }

  /** A walk over part of a path passes through the nodes of its prefixes, and stops where they do. */
  lemma {:induction false} WalkFollows(t: Tree, comps: seq<Name>, i: nat, j: nat)
    requires i <= j <= |comps| && At(t, comps[..i]).Some?
    ensures var ns := Walk(t, At(t, comps[..i]).value, comps[i..j]);
            && (forall k :: 0 <= k < |ns| ==> At(t, comps[..i + k + 1]) == Some(ns[k]))
            && (|ns| < j - i ==> At(t, comps[..i + |ns| + 1]).None?)
    decreases j - i
  {
    if i < j {
      AtNext(t, comps, i);
      assert comps[i..j][0] == comps[i] && comps[i..j][1..] == comps[i + 1..j];
      if At(t, comps[..i + 1]).Some? {
        WalkFollows(t, comps, i + 1, j);
        var ns, rest := Walk(t, At(t, comps[..i]).value, comps[i..j]), Walk(t, At(t, comps[..i + 1]).value, comps[i + 1..j]);
        assert ns == [At(t, comps[..i + 1]).value] + rest;
        forall k | 0 <= k < |ns| ensures At(t, comps[..i + k + 1]) == Some(ns[k]) {
          if k > 0 { assert ns[k] == rest[k - 1]; }
        }
      }
    }
  }

  // ------------------------------------------------------------------ the way to a node

  /** The names from the root down to n. */
  function PathTo(t: Tree, n: Node): seq<Name>
    requires Good(t) && Exists(t, n)
    decreases if n in t.depth then t.depth[n] else 0
  {
    if n !in t.up then [] else (assert GoodNode(t, n); PathTo(t, t.up[n].0) + [t.up[n].1])
  }

  lemma {:induction false} PathLeads(t: Tree, n: Node)
    requires Good(t) && Exists(t, n)
    ensures At(t, PathTo(t, n)) == Some(n)
    ensures |PathTo(t, n)| == t.depth[n] && DOTDOT !in PathTo(t, n) && DOT !in PathTo(t, n)
    decreases t.depth[n]
  {
    if n in t.up {
      assert GoodNode(t, n);
      var p := t.up[n].0;
      PathLeads(t, p);
      assert PathTo(t, n)[..|PathTo(t, n)| - 1] == PathTo(t, p);
    }
  }

  // ------------------------------------------------------------------ the database

  datatype Rec = Rec(parent: nat, name: Name)
  type Database = map<nat, Rec>

  /** The entry for number c says truly where the file is, and its parent can be looked up in turn. */
  ghost predicate Connected(t: Tree, db: Database, c: nat)
    requires c in db
  {
    && c in t.node && t.node[c] in t.up
    && var (d, name) := t.up[t.node[c]];
       d in t.cnid && db[c] == Rec(t.cnid[d], name) && (d == t.root || t.cnid[d] in db)
  }

  /** Every entry reaches the root through its parents, by names that lead to that file. */
  ghost predicate Rooted(t: Tree, db: Database) {
    forall c :: c in db && c != ROOTCNID ==> Connected(t, db, c)
  }

  predicate Known(t: Tree, db: Database, n: Node) {
    n == t.root || (n in t.cnid && t.cnid[n] in db)
  }

  /** One step from a known number towards the root. */
  lemma UpOne(t: Tree, db: Database, c: nat)
    requires Good(t) && Rooted(t, db) && c in db && c != ROOTCNID
    ensures c >= 2 && c in t.node && t.node[c] in t.up && t.cnid[t.node[c]] == c
    ensures var (d, name) := t.up[t.node[c]];
            && Exists(t, d) && db[c].name == name && db[c].parent in t.node && t.node[db[c].parent] == d
            && (db[c].parent == ROOTCNID || db[c].parent in db)
            && PathTo(t, t.node[c]) == PathTo(t, d) + [name]
            && t.depth[t.node[c]] == t.depth[d] + 1
  {
    assert Connected(t, db, c);
    assert GoodNode(t, t.node[c]);
    assert Numbered(t, t.node[c]);
    assert Numbered(t, t.up[t.node[c]].0);
  }

  lemma RootNumber(t: Tree)
    requires Good(t)
    ensures ROOTCNID in t.node && t.node[ROOTCNID] == t.root && PathTo(t, t.root) == []
  {
    assert Numbered(t, t.root);
  }

  /** Recording a file whose parent is known. */
  lemma SetKeepsRooted(t: Tree, db: Database, n: Node)
    requires Good(t) && Rooted(t, db) && n in t.up && Known(t, db, t.up[n].0) && t.up[n].0 in t.cnid && n in t.cnid
    ensures Rooted(t, db[t.cnid[n] := Rec(t.cnid[t.up[n].0], t.up[n].1)])
  {
    assert Numbered(t, n);
    var db' := db[t.cnid[n] := Rec(t.cnid[t.up[n].0], t.up[n].1)];
    forall c | c in db' && c != ROOTCNID ensures Connected(t, db', c) {
      if c != t.cnid[n] { assert Connected(t, db, c); }
    }
  }

  /** The names met on the way from the root to a known number, as the database has them. */
  ghost function NamesDown(t: Tree, db: Database, c: nat): seq<Name>
    requires Good(t) && Rooted(t, db) && (c == ROOTCNID || c in db)
    decreases if c in t.node && t.node[c] in t.depth then t.depth[t.node[c]] else 0
  {
    if c == ROOTCNID then [] else (UpOne(t, db, c); RootNumber(t); NamesDown(t, db, db[c].parent) + [db[c].name])
  }

  /** They really lead to that file. */
  lemma {:induction false} EntryLeads(t: Tree, db: Database, c: nat)
    requires Good(t) && Rooted(t, db) && (c == ROOTCNID || c in db)
    ensures c in t.node && Exists(t, t.node[c])
    ensures NamesDown(t, db, c) == PathTo(t, t.node[c]) && At(t, NamesDown(t, db, c)) == Some(t.node[c])
    decreases if c in t.node && t.node[c] in t.depth then t.depth[t.node[c]] else 0
  {
    RootNumber(t);
    if c != ROOTCNID {
      UpOne(t, db, c);
      EntryLeads(t, db, db[c].parent);
    }
    PathLeads(t, t.node[c]);
  }

  // ------------------------------------------------------------------ paths that stay below the root

  /** How many levels below the root a path ends, were all its names to exist. */
  function Height(comps: seq<Name>): int {
    if comps == [] then 0
    else Height(comps[..|comps| - 1]) + (if comps[|comps| - 1] == DOTDOT then -1 else 1)
  }

  /** The path never climbs back to the root: as browse counts, a "." being a level of its own. */
  ghost predicate StaysBelow(comps: seq<Name>) {
    forall i :: 1 <= i <= |comps| ==> Height(comps[..i]) >= 1
  }

  lemma HeightNext(comps: seq<Name>, i: nat)
    requires i < |comps|
    ensures Height(comps[..i + 1]) == Height(comps[..i]) + (if comps[i] == DOTDOT then -1 else 1)
  {
    assert comps[..i + 1][..i] == comps[..i];
  }

  // ------------------------------------------------------------------ Mac paths

  const COLON: byte := NameConversion.COLON

  function RunLength(p: seq<byte>): (k: nat)
    ensures k <= |p| && (k < |p| ==> p[k] == COLON)
  {
    if p == [] || p[0] == COLON then 0 else RunLength(p[1..]) + 1
  }

  /** What follows the first part of a path and its colon. */
  function After(p: seq<byte>): (rest: seq<byte>)
    ensures p != [] ==> |rest| < |p|
  {
    if RunLength(p) < |p| then p[RunLength(p) + 1..] else []
  }

  /** The parts of a path, each ended by a colon or by the end of the path. */
  function Split(p: seq<byte>): seq<seq<byte>>
    decreases |p|
  {
    if p == [] then [] else [p[..RunLength(p)]] + Split(After(p))
  }

  /** An empty part means the parent; the others are converted to UTF-8. */
  function CompName(codec: NameConversion.Codec, run: seq<byte>): Name {
    if run == [] then DOTDOT else NameConversion.CString(NameConversion.Utf8Of(codec, run))
  }

  function CompNames(codec: NameConversion.Codec, runs: seq<seq<byte>>): (ns: seq<Name>)
    ensures |ns| == |runs|
  {
    if runs == [] then [] else [CompName(codec, runs[0])] + CompNames(codec, runs[1..])
  }

  /** A leading colon only says that the path is relative. */
  function Relative(p: seq<byte>): seq<byte> {
    if p != [] && p[0] == COLON then p[1..] else p
  }

  function Names(codec: NameConversion.Codec, p: seq<byte>): seq<Name> {
    CompNames(codec, Split(Relative(p)))
  }

  /** The bytes the names take in the path blob, terminators included. */
  function BlobSize(comps: seq<Name>): nat {
    if comps == [] then 0 else |comps[0]| + 1 + BlobSize(comps[1..])
  }

  /** appendRelativePath runs out of components or of blob. */
  predicate TooLong(codec: NameConversion.Codec, cnt: nat, size: nat, runs: seq<seq<byte>>)
    decreases |runs|
  {
    runs != [] &&
    (cnt >= 100 ||
     if runs[0] == [] then TooLong(codec, cnt + 1, size + 3, runs[1..])
     else
       var n := |NameConversion.Utf8Of(codec, runs[0])| + 1;
       size + n > 512 || TooLong(codec, cnt + 1, size + n, runs[1..]))
  }

  /** An absolute path has a colon, and not at the front. */
  predicate IsAbs(p: seq<byte>) {
    0 < RunLength(p) < |p|
  }

  /** pathSplitRoot: the first name of a path, and what follows it. */
  function RootName(p: seq<byte>): seq<byte> {
    Relative(p)[..RunLength(Relative(p))]
  }

  function AfterRoot(p: seq<byte>): seq<byte> {
    Relative(p)[RunLength(Relative(p))..]
  }
}
