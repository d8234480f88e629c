/** The breadcrumb trail by which browse records the files it passed (virtio/device-9p.c), for every path
    that does not climb back to the root, and exactly which paths leave the database sound. */
module Trail {
  import opened Wire
  import opened Browse

  // ------------------------------------------------------------------ from the names alone

  /** The way down from the root to where a path leads, if it leads anywhere. */
  function Norm(comps: seq<Name>): (p: seq<Name>)
  {
    if comps == [] then []
    else
      var p := Norm(comps[..|comps| - 1]);
      var name := comps[|comps| - 1];
      if name == DOTDOT then (if p == [] then [] else p[..|p| - 1])
      else if name == DOT then p
      else p + [name]
  }

  /** One entry of the trail: its name, and where the file is that was found under it. */
  datatype Crumb = Crumb(name: Name, place: seq<Name>)

  /** The trail after a path: every name but ".." is pushed, and ".." pops one. */
  function Crumbs(comps: seq<Name>): seq<Crumb> {
    if comps == [] then []
    else
      var cs := Crumbs(comps[..|comps| - 1]);
      var name := comps[|comps| - 1];
      if name != DOTDOT then cs + [Crumb(name, Norm(comps))]
      else if cs == [] then []
      else cs[..|cs| - 1]
  }

  /** What the trail's last entry is recorded as: the child, by its name, of the entry before it. */
  function Top(cs: seq<Crumb>): Crumb
    requires cs != []
  {
    cs[|cs| - 1]
  }

  function Under(cs: seq<Crumb>): seq<Name>
    requires cs != []
  {
    if |cs| == 1 then [] else cs[|cs| - 2].place
  }

  /** The record is true, or is the root's own, which is never looked up on the way to a file. */
  predicate Rightly(cs: seq<Crumb>)
    requires cs != []
  {
    Top(cs).place == [] || Top(cs).place == Under(cs) + [Top(cs).name]
  }

  /** The places whose last record is false, once a path has been recorded from component k on. */
  function Wrong(comps: seq<Name>, k: nat): set<seq<Name>> {
    if |comps| <= k then {}
    else
      var w, cs := Wrong(comps[..|comps| - 1], k), Crumbs(comps);
      if cs == [] then w
      else if Rightly(cs) then w - {Top(cs).place}
      else w + {Top(cs).place}
  }

  lemma {:induction false} CrumbCount(comps: seq<Name>)
    requires StaysBelow(comps)
    ensures |Crumbs(comps)| == Height(comps) && (comps != [] ==> Crumbs(comps) != [])
  {
    if comps != [] {
      var init := comps[..|comps| - 1];
      assert forall i :: 1 <= i <= |init| ==> init[..i] == comps[..i];
      CrumbCount(init);
      assert comps[..|comps|] == comps;
    }
  }

  // ------------------------------------------------------------------ which paths do no harm

  /** Without "." the trail is the way down itself. */
  ghost predicate Plain(cs: seq<Crumb>, p: seq<Name>) {
    |cs| == |p| && forall j :: 0 <= j < |cs| ==> cs[j] == Crumb(p[j], p[..j + 1])
  }

  lemma {:induction false} PlainTrail(comps: seq<Name>, k: nat)
    requires DOT !in comps
    ensures Plain(Crumbs(comps), Norm(comps)) && Wrong(comps, k) == {}
  {
    if comps != [] {
      var init, name := comps[..|comps| - 1], comps[|comps| - 1];
      PlainTrail(init, k);
      PlainNext(Crumbs(init), Norm(init), name, Crumbs(comps), Norm(comps));
    }
  }

  lemma PlainNext(cs: seq<Crumb>, p: seq<Name>, name: Name, cs': seq<Crumb>, p': seq<Name>)
    requires Plain(cs, p) && name != DOT
    requires p' == if name == DOTDOT then (if p == [] then [] else p[..|p| - 1]) else p + [name]
    requires cs' == if name != DOTDOT then cs + [Crumb(name, p')] else if cs == [] then [] else cs[..|cs| - 1]
    ensures Plain(cs', p')
    ensures cs' != [] ==> Rightly(cs')
  {
    forall j | 0 <= j < |cs'| ensures cs'[j] == Crumb(p'[j], p'[..j + 1]) {
      if j < |cs| { assert p'[..j + 1] == p[..j + 1]; }
    }
    if cs' != [] {
      var n := |cs'|;
      assert p'[..n] == p'[..n - 1] + [p'[n - 1]];
    }
  }

  lemma {:induction false} ClimblessTop(comps: seq<Name>)
    requires DOTDOT !in comps
    ensures |Crumbs(comps)| == |comps|
    ensures comps != [] ==> Top(Crumbs(comps)) == Crumb(comps[|comps| - 1], Norm(comps))
    ensures comps != [] ==> Under(Crumbs(comps)) == Norm(comps[..|comps| - 1])
  {
    if comps != [] {
      ClimblessTop(comps[..|comps| - 1]);
      assert |comps| == 1 ==> comps[..|comps| - 1] == [];
    }
  }

  /** Every "." comes before the first name. */
  ghost predicate DotsLead(comps: seq<Name>) {
    forall i :: 0 <= i < |comps| && comps[i] == DOT ==> Norm(comps[..i]) == []
  }

  lemma DotsLeadNext(comps: seq<Name>)
    requires comps != []
    ensures var init := comps[..|comps| - 1];
            DotsLead(comps) <==> DotsLead(init) && (comps[|comps| - 1] == DOT ==> Norm(init) == [])
  {
    var init := comps[..|comps| - 1];
    assert forall i :: 0 <= i < |init| ==> init[..i] == comps[..i] && init[i] == comps[i];
    if DotsLead(init) && (comps[|comps| - 1] == DOT ==> Norm(init) == []) {
      forall i | 0 <= i < |comps| && comps[i] == DOT ensures Norm(comps[..i]) == [] {
        if i < |init| { assert init[i] == DOT; }
      }
    }
  }

  /** A path without ".." does no harm if and only if every "." in it comes before the first name. */
  lemma {:induction false} ClimblessExactly(comps: seq<Name>, k: nat)
    requires DOTDOT !in comps && forall i :: 0 <= i < k && i < |comps| ==> comps[i] != DOT
    ensures Wrong(comps, k) == {} <==> DotsLead(comps)
    ensures forall p :: p in Wrong(comps, k) ==> |p| <= |Norm(comps)|
  {
    if comps != [] {
      var init := comps[..|comps| - 1];
      ClimblessExactly(init, k);
      ClimblessTop(comps);
      DotsLeadNext(comps);
      if |comps| > k && comps[|comps| - 1] != DOT {
        assert Norm(comps) == Norm(init) + [comps[|comps| - 1]];
        assert Norm(comps) !in Wrong(init, k);
      }
    }
  }

  // ------------------------------------------------------------------ in the tree

  /** Norm is indeed the way to where the path leads. */
  lemma {:induction false} NormLeads(t: Tree, comps: seq<Name>)
    requires Good(t) && At(t, comps).Some?
    ensures Exists(t, At(t, comps).value) && PathTo(t, At(t, comps).value) == Norm(comps)
    ensures At(t, Norm(comps)) == At(t, comps)
  {
    AtExists(t, comps);
    if comps != [] {
      var init, name := comps[..|comps| - 1], comps[|comps| - 1];
      NormLeads(t, init);
      var n, m := At(t, init).value, At(t, comps).value;
      if n in t.up { assert GoodNode(t, n); }
      if m in t.up { assert GoodNode(t, m); }
    }
    PathLeads(t, At(t, comps).value);
  }

  /** The number of the file at a place. */
  function NumberAt(t: Tree, p: seq<Name>): nat {
    if At(t, p).Some? && At(t, p).value in t.cnid then t.cnid[At(t, p).value] else 0
  }

  /** What browse makes of the database: it records the end of the trail after every component from k
      on, those before being already known. */
  function Recorded(t: Tree, db: Database, comps: seq<Name>, k: nat): Database {
    if |comps| <= k then db
    else
      var prev, cs := Recorded(t, db, comps[..|comps| - 1], k), Crumbs(comps);
      if cs == [] then prev
      else prev[NumberAt(t, Top(cs).place) := Rec(NumberAt(t, Under(cs)), Top(cs).name)]
  }

  /** A place that can be reached and, unless it is the root, is in the database. */
  ghost predicate KnownAt(t: Tree, db: Database, p: seq<Name>)
    requires Good(t)
  {
    && At(t, p).Some? && Exists(t, At(t, p).value) && PathTo(t, At(t, p).value) == p
    && (p == [] || NumberAt(t, p) in db)
  }

  /** So it is with everything above it. */
  ghost predicate AllKnown(t: Tree, db: Database, p: seq<Name>)
    requires Good(t)
  {
    forall j :: 0 <= j <= |p| ==> KnownAt(t, db, p[..j])
  }

  /** The entry for c names its file's parent and name truly. */
  ghost predicate Truly(t: Tree, db: Database, c: nat) {
    && c in db && c in t.node && t.node[c] in t.up
    && t.up[t.node[c]].0 in t.cnid && db[c] == Rec(t.cnid[t.up[t.node[c]].0], t.up[t.node[c]].1)
  }

  /** The entries for the places in w are false, and all others are connected to the root. */
  ghost predicate FalseAt(t: Tree, db: Database, w: set<seq<Name>>)
    requires Good(t)
  {
    && (forall c :: c in db && c != ROOTCNID ==> Sorted(t, db, w, c))
    && (forall p :: p in w ==> p != [] && KnownAt(t, db, p))
  }

  ghost predicate Sorted(t: Tree, db: Database, w: set<seq<Name>>, c: nat)
    requires Good(t) && c in db
  {
    && c in t.node && t.node[c] in t.up
    && (PathTo(t, t.node[c]) in w ==> !Truly(t, db, c))
    && (PathTo(t, t.node[c]) !in w ==> Connected(t, db, c))
  }

  lemma PlaceNumber(t: Tree, db: Database, p: seq<Name>)
    requires Good(t) && KnownAt(t, db, p)
    ensures var n := At(t, p).value;
            && n in t.cnid && NumberAt(t, p) == t.cnid[n] && NumberAt(t, p) in t.node && t.node[NumberAt(t, p)] == n
            && (NumberAt(t, p) == ROOTCNID <==> p == []) && (p != [] ==> n in t.up)
  {
    var n := At(t, p).value;
    assert Numbered(t, n);
    if n in t.up { assert GoodNode(t, n); }
  }

  lemma FalseMeansNotRooted(t: Tree, db: Database, w: set<seq<Name>>)
    requires Good(t) && FalseAt(t, db, w)
    ensures Rooted(t, db) <==> w == {}
  {
    if p :| p in w {
      PlaceNumber(t, db, p);
      assert Sorted(t, db, w, NumberAt(t, p));
    } else {
      forall c | c in db && c != ROOTCNID ensures Connected(t, db, c) { assert Sorted(t, db, w, c); }
    }
  }

  /** One record. */
  lemma RecordOne(t: Tree, db: Database, w: set<seq<Name>>, place: seq<Name>, under: seq<Name>, name: Name)
    requires Good(t) && FalseAt(t, db, w) && KnownAt(t, db, under)
    requires At(t, place).Some? && Exists(t, At(t, place).value) && PathTo(t, At(t, place).value) == place
    ensures var db' := db[NumberAt(t, place) := Rec(NumberAt(t, under), name)];
            && (forall p :: KnownAt(t, db, p) ==> KnownAt(t, db', p))
            && KnownAt(t, db', place)
            && FalseAt(t, db', if place == [] || place == under + [name] then w - {place} else w + {place})
  {
    var db' := db[NumberAt(t, place) := Rec(NumberAt(t, under), name)];
    var w' := if place == [] || place == under + [name] then w - {place} else w + {place};
    forall p | KnownAt(t, db, p) ensures KnownAt(t, db', p) {}
    RecordSorts(t, db, w, place, under, name, db', w');
  }

  lemma RecordSorts(t: Tree, db: Database, w: set<seq<Name>>, place: seq<Name>, under: seq<Name>, name: Name,
                    db': Database, w': set<seq<Name>>)
    requires Good(t) && FalseAt(t, db, w) && KnownAt(t, db, under) && KnownAt(t, db', place)
    requires db' == db[NumberAt(t, place) := Rec(NumberAt(t, under), name)]
    requires w' == if place == [] || place == under + [name] then w - {place} else w + {place}
    requires forall p :: KnownAt(t, db, p) ==> KnownAt(t, db', p)
    ensures FalseAt(t, db', w')
  {
    forall c | c in db' && c != ROOTCNID ensures Sorted(t, db', w', c) {
      RecordSortsOne(t, db, w, place, under, name, db', w', c);
    }
  }

  lemma RecordSortsOne(t: Tree, db: Database, w: set<seq<Name>>, place: seq<Name>, under: seq<Name>, name: Name,
                       db': Database, w': set<seq<Name>>, c: nat)
    requires Good(t) && KnownAt(t, db, under) && KnownAt(t, db', place)
    requires db' == db[NumberAt(t, place) := Rec(NumberAt(t, under), name)]
    requires w' == if place == [] || place == under + [name] then w - {place} else w + {place}
    requires c in db' && c != ROOTCNID && (c in db ==> Sorted(t, db, w, c))
    ensures Sorted(t, db', w', c)
  {
    PlaceNumber(t, db', place);
    if c == NumberAt(t, place) {
      NewRecord(t, db, place, under, name);
    } else {
      OldRecord(t, db, w, place, db', w', c);
    }
  }

  lemma NewRecord(t: Tree, db: Database, place: seq<Name>, under: seq<Name>, name: Name)
    requires Good(t) && KnownAt(t, db, under) && place != []
    requires At(t, place).Some? && Exists(t, At(t, place).value) && PathTo(t, At(t, place).value) == place
    ensures var db', c := db[NumberAt(t, place) := Rec(NumberAt(t, under), name)], NumberAt(t, place);
            && c in t.node && t.node[c] in t.up && PathTo(t, t.node[c]) == place
            && (if place == under + [name] then Connected(t, db', c) else !Truly(t, db', c))
  {
    var db', c := db[NumberAt(t, place) := Rec(NumberAt(t, under), name)], NumberAt(t, place);
    PlaceNumber(t, db', place);
    PlaceNumber(t, db, under);
    var n := t.node[c];
    assert GoodNode(t, n);
    var d := t.up[n].0;
    assert Numbered(t, d);
    assert place == PathTo(t, d) + [t.up[n].1];
    if place == under + [name] {
      assert under == place[..|place| - 1] == PathTo(t, d);
      PathLeads(t, d);
    }
  }

  lemma OldRecord(t: Tree, db: Database, w: set<seq<Name>>, place: seq<Name>, db': Database, w': set<seq<Name>>, c: nat)
    requires Good(t) && c in db && Sorted(t, db, w, c) && c != NumberAt(t, place)
    requires At(t, place).Some? && KnownAt(t, db', place)
    requires db'.Keys == db.Keys + {NumberAt(t, place)} && db'[c] == db[c]
    requires w' == w - {place} || w' == w + {place}
    ensures Sorted(t, db', w', c)
  {
    PlaceNumber(t, db', place);
    PathLeads(t, t.node[c]);
    assert Numbered(t, t.node[c]);
    assert PathTo(t, t.node[c]) != place;
  }

  /** Every entry of the trail is a known place. */
  ghost predicate CrumbsKnown(t: Tree, db: Database, cs: seq<Crumb>)
    requires Good(t)
  {
    forall j :: 0 <= j < |cs| ==> KnownAt(t, db, cs[j].place)
  }

  ghost predicate Sound(t: Tree, db: Database, comps: seq<Name>, w: set<seq<Name>>)
    requires Good(t)
  {
    FalseAt(t, db, w) && AllKnown(t, db, Norm(comps)) && CrumbsKnown(t, db, Crumbs(comps))
  }

  lemma SoundStart(t: Tree, db: Database, comps: seq<Name>)
    requires Good(t) && Rooted(t, db) && AllKnown(t, db, comps)
    ensures Sound(t, db, comps, {})
  {
    forall c | c in db && c != ROOTCNID ensures Sorted(t, db, {}, c) { assert Connected(t, db, c); }
    assert comps[..|comps|] == comps;
    PathLeads(t, At(t, comps).value);
    PlainTrail(comps, 0);
    NormLeads(t, comps);
    forall j | 0 <= j < |Crumbs(comps)| ensures KnownAt(t, db, Crumbs(comps)[j].place) {
      assert KnownAt(t, db, comps[..j + 1]);
    }
  }

  /** One more component: `cs` was the trail before it and `cs'` is the trail after it. */
  lemma SoundNext(t: Tree, db: Database, comps: seq<Name>, w: set<seq<Name>>)
    requires Good(t) && comps != [] && At(t, comps).Some? && Crumbs(comps) != []
    requires Sound(t, db, comps[..|comps| - 1], w)
    ensures var cs := Crumbs(comps);
            var db' := db[NumberAt(t, Top(cs).place) := Rec(NumberAt(t, Under(cs)), Top(cs).name)];
            Sound(t, db', comps, if Rightly(cs) then w - {Top(cs).place} else w + {Top(cs).place})
  {
    var init, cs := comps[..|comps| - 1], Crumbs(comps);
    var was := Crumbs(init);
    var place, under, name := Top(cs).place, Under(cs), Top(cs).name;
    NormLeads(t, comps);
    UnderWas(comps);
    NormNext(comps);
    assert KnownAt(t, db, []) by { assert Norm(init)[..0] == []; }
    assert At(t, place).Some? && Exists(t, At(t, place).value) && PathTo(t, At(t, place).value) == place;
    RecordOne(t, db, w, place, under, name);
    var db' := db[NumberAt(t, place) := Rec(NumberAt(t, under), name)];
    CrumbsGrow(t, db, db', was, cs);
    WayNext(t, db, db', Norm(init), Norm(comps));
  }

  /** After one more component, the entries of the trail were there before, or are where it leads. */
  lemma UnderWas(comps: seq<Name>)
    requires comps != [] && Crumbs(comps) != []
    ensures var was, cs := Crumbs(comps[..|comps| - 1]), Crumbs(comps);
            && |cs| <= |was| + 1 && (forall j :: 0 <= j < |cs| && j < |was| ==> cs[j] == was[j])
            && (|cs| > |was| ==> Top(cs).place == Norm(comps))
  {}

  lemma CrumbsGrow(t: Tree, db: Database, db': Database, was: seq<Crumb>, cs: seq<Crumb>)
    requires Good(t) && cs != [] && CrumbsKnown(t, db, was) && |cs| <= |was| + 1
    requires forall j :: 0 <= j < |cs| && j < |was| ==> cs[j] == was[j]
    requires (forall p :: KnownAt(t, db, p) ==> KnownAt(t, db', p)) && KnownAt(t, db', Top(cs).place)
    ensures CrumbsKnown(t, db', cs)
  {
    forall j | 0 <= j < |cs| ensures KnownAt(t, db', cs[j].place) {
      if j < |was| { assert KnownAt(t, db, was[j].place); }
    }
  }

  lemma NormNext(comps: seq<Name>)
    requires comps != []
    ensures var init, name := comps[..|comps| - 1], comps[|comps| - 1];
            && (name == DOTDOT || name == DOT ==> Norm(comps) <= Norm(init))
            && (name != DOTDOT && name != DOT ==> Norm(comps) == Norm(init) + [name])
            && (name != DOTDOT ==> Crumbs(comps) != [] && Top(Crumbs(comps)) == Crumb(name, Norm(comps)))
            && (name != DOTDOT ==> |Crumbs(comps)| == |Crumbs(init)| + 1)
            && (name == DOTDOT && Crumbs(init) != [] ==> |Crumbs(comps)| == |Crumbs(init)| - 1)
  {}

  lemma WayNext(t: Tree, db: Database, db': Database, p: seq<Name>, p': seq<Name>)
    requires Good(t) && AllKnown(t, db, p) && forall q :: KnownAt(t, db, q) ==> KnownAt(t, db', q)
    requires p' <= p || (p' != [] && p'[..|p'| - 1] == p && KnownAt(t, db', p'))
    ensures AllKnown(t, db', p')
  {
    forall j | 0 <= j <= |p'| ensures KnownAt(t, db', p'[..j]) {
      if j <= |p| {
        assert p'[..j] == p[..j];
        assert KnownAt(t, db, p[..j]);
      } else {
        assert p'[..j] == p';
      }
    }
  }

  /** Recording a path from component k on leaves the database sound if and only if the names alone
      show that nothing stays recorded falsely; and the file reached is known either way. */
  lemma {:induction false} RecordedExactly(t: Tree, db: Database, comps: seq<Name>, k: nat)
    requires Good(t) && Rooted(t, db) && StaysBelow(comps) && At(t, comps).Some?
    requires k <= |comps| ==> AllKnown(t, db, comps[..k])
    requires k >= |comps| ==> AllKnown(t, db, comps)
    ensures Sound(t, Recorded(t, db, comps, k), comps, Wrong(comps, k))
    ensures Rooted(t, Recorded(t, db, comps, k)) <==> Wrong(comps, k) == {}
  {
    if |comps| <= k {
      SoundStart(t, db, comps);
    } else {
      var init := comps[..|comps| - 1];
      assert forall i :: 1 <= i <= |init| ==> init[..i] == comps[..i];
      assert init[..k] == comps[..k] && (k == |init| ==> init == comps[..k]);
      RecordedExactly(t, db, init, k);
      CrumbCount(comps);
      SoundNext(t, Recorded(t, db, init, k), comps, Wrong(init, k));
    }
    FalseMeansNotRooted(t, Recorded(t, db, comps, k), Wrong(comps, k));
  }

  lemma {:induction false} RecordedGrows(t: Tree, db: Database, comps: seq<Name>, k: nat)
    ensures forall c :: c in db ==> c in Recorded(t, db, comps, k)
  {
    if |comps| > k { RecordedGrows(t, db, comps[..|comps| - 1], k); }
  }

  /** When nothing is left recorded falsely, no entry is lost, and none is changed but the root's own. */
  lemma NoEntryChanges(t: Tree, db: Database, comps: seq<Name>, k: nat, c: nat)
    requires Good(t) && Rooted(t, db) && Rooted(t, Recorded(t, db, comps, k)) && c in db && c != ROOTCNID
    ensures c in Recorded(t, db, comps, k) && Recorded(t, db, comps, k)[c] == db[c]
  {
    RecordedGrows(t, db, comps, k);
    assert Connected(t, db, c) && Connected(t, Recorded(t, db, comps, k), c);
  }

  /** Some record is the root's own. */
  predicate NamesRoot(comps: seq<Name>, k: nat) {
    |comps| > k && (NamesRoot(comps[..|comps| - 1], k) || (Crumbs(comps) != [] && Top(Crumbs(comps)).place == []))
  }

  /** The root's own entry loses its name if and only if a "." is recorded there. */
  lemma {:induction false} RootEntry(t: Tree, db: Database, comps: seq<Name>, k: nat)
    requires Good(t) && Rooted(t, db) && StaysBelow(comps) && At(t, comps).Some?
    requires k <= |comps| ==> AllKnown(t, db, comps[..k])
    requires k >= |comps| ==> AllKnown(t, db, comps)
    ensures var r := Recorded(t, db, comps, k);
            if NamesRoot(comps, k) then ROOTCNID in r && r[ROOTCNID].name == DOT
            else (ROOTCNID in r <==> ROOTCNID in db) && (ROOTCNID in db ==> r[ROOTCNID] == db[ROOTCNID])
  {
    if |comps| > k {
      var init, cs := comps[..|comps| - 1], Crumbs(comps);
      assert forall i :: 1 <= i <= |init| ==> init[..i] == comps[..i];
      assert init[..k] == comps[..k] && (k == |init| ==> init == comps[..k]);
      RootEntry(t, db, init, k);
      RecordedExactly(t, db, comps, k);
      CrumbCount(comps);
      var r := Recorded(t, db, comps, k);
      assert KnownAt(t, r, cs[|cs| - 1].place);
      PlaceNumber(t, r, Top(cs).place);
      RootCrumbs(comps);
    }
  }

  /** An entry of the trail at the root is named ".". */
  lemma {:induction false} RootCrumbs(comps: seq<Name>)
    ensures forall j :: 0 <= j < |Crumbs(comps)| && Crumbs(comps)[j].place == [] ==> Crumbs(comps)[j].name == DOT
  {
    if comps != [] { RootCrumbs(comps[..|comps| - 1]); }
  }

  // ------------------------------------------------------------------ the arrays of browse

  /** The arrays of names and files hold the trail. */
  ghost predicate Follows(t: Tree, cs: seq<Crumb>, names: seq<Name>, line: seq<Node>) {
    && |names| == |cs| && |line| == |cs|
    && forall j :: 0 <= j < |cs| ==> names[j] == cs[j].name && At(t, cs[j].place) == Some(line[j]) && line[j] in t.cnid
  }

  lemma FollowsNext(t: Tree, comps: seq<Name>, names: seq<Name>, line: seq<Node>, qid: Node)
    requires Good(t) && comps != [] && At(t, comps) == Some(qid) && Crumbs(comps) != []
    requires Follows(t, Crumbs(comps[..|comps| - 1]), names, line)
    ensures comps[|comps| - 1] == DOTDOT ==>
              names != [] && line != [] && Follows(t, Crumbs(comps), names[..|names| - 1], line[..|line| - 1])
    ensures comps[|comps| - 1] != DOTDOT ==> Follows(t, Crumbs(comps), names + [comps[|comps| - 1]], line + [qid])
  {
    NormLeads(t, comps);
    assert Numbered(t, qid);
    UnderWas(comps);
    NormNext(comps);
    FollowsPushOrPop(t, Crumbs(comps[..|comps| - 1]), Crumbs(comps), names, line, comps[|comps| - 1], qid);
  }

  lemma FollowsPushOrPop(t: Tree, was: seq<Crumb>, cs: seq<Crumb>, names: seq<Name>, line: seq<Node>, name: Name, qid: Node)
    requires Follows(t, was, names, line) && cs != [] && qid in t.cnid
    requires forall j :: 0 <= j < |cs| && j < |was| ==> cs[j] == was[j]
    ensures |cs| == |was| - 1 ==> Follows(t, cs, names[..|names| - 1], line[..|line| - 1])
    ensures |cs| == |was| + 1 && Top(cs).name == name && At(t, Top(cs).place) == Some(qid) ==>
              Follows(t, cs, names + [name], line + [qid])
  {}

  lemma FollowsTop(t: Tree, cs: seq<Crumb>, names: seq<Name>, line: seq<Node>)
    requires Good(t) && cs != [] && Follows(t, cs, names, line)
    ensures names[|names| - 1] == Top(cs).name && t.cnid[line[|line| - 1]] == NumberAt(t, Top(cs).place)
    ensures (if |line| == 1 then ROOTCNID else t.cnid[line[|line| - 2]]) == NumberAt(t, Under(cs))
  {
    RootNumber(t);
    assert Numbered(t, t.root);
  }

  /** A known file and everything above it are known places. */
  lemma {:induction false} KnownPath(t: Tree, db: Database, c: nat)
    requires Good(t) && Rooted(t, db) && (c == ROOTCNID || c in db)
    ensures c in t.node && Exists(t, t.node[c]) && AllKnown(t, db, PathTo(t, t.node[c]))
    decreases if c in t.node && t.node[c] in t.depth then t.depth[t.node[c]] else 0
  {
    RootNumber(t);
    if c != ROOTCNID {
      UpOne(t, db, c);
      KnownPath(t, db, db[c].parent);
      var p, p' := PathTo(t, t.node[db[c].parent]), PathTo(t, t.node[c]);
      PathLeads(t, t.node[c]);
      assert p' == p + [db[c].name] && p'[..|p|] == p;
      assert KnownAt(t, db, p');
      WayNext(t, db, db, p, p');
    } else {
      assert PathTo(t, t.root)[..0] == [];
    }
  }
}
