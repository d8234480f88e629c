/** Open files: the File Manager's table of file control blocks (virtio/universalfcb.c) and the
    circular lists, threaded through it, of the blocks open on one fork (virtio/device-9p.c). */
module ForkRings {
  import Words

  /** A data or resource fork of a file. */
  datatype Fork = Fork(cnid: int, resource: bool)

  /** A file of the host: a name in a directory. */
  datatype Place = Place(dir: nat, name: seq<Words.byte>)

  /** One block. `flNm == 0` marks it free (fcbFlNm); `ours` says that its volume is ours (fcbVPtr);
      `file` is the host's file that fcb9FID is open on; `link` is fcb9Link, the refnum of the next block
      open on the same fork. */
  datatype Fcb = Fcb(flNm: int, resource: bool, write: bool, file: Place, link: int, eof: int, mark: int, ours: bool)

  const FCB_BYTES := 94

  /** The refnum of the i'th block: its byte offset in the table, after a two-byte length. */
  function Ref(i: nat): int { 2 + FCB_BYTES * i }

  function IndexOf(refNum: int): int { (refNum - 2) / FCB_BYTES }

  /** refNumValid for a table of `n` blocks. */
  predicate RefNumValid(refNum: int, n: nat) {
    refNum >= 2 && refNum < Ref(n) && refNum % FCB_BYTES == 2
  }

  lemma ValidRefs(refNum: int, n: nat)
    ensures RefNumValid(refNum, n) <==> 0 <= IndexOf(refNum) < n && refNum == Ref(IndexOf(refNum))
  {}

  function ForkOf(f: Fcb): Fork { Fork(f.flNm, f.resource) }

  predicate IsOpen(f: Fcb) { f.flNm != 0 && f.ours }

  // -------------------------------------------------------------------- rings

  function Succ(ring: seq<nat>, p: nat): nat
    requires p < |ring|
  {
    if p + 1 < |ring| then ring[p + 1] else ring[0]
  }

  ghost predicate Distinct(ring: seq<nat>) {
    forall p, q :: 0 <= p < q < |ring| ==> ring[p] != ring[q]
  }

  /** The blocks of `ring`, in this order, link to one another in a circle, and are open on `f`. */
  ghost predicate RingOk(fcbs: seq<Fcb>, ring: seq<nat>, f: Fork) {
    && |ring| >= 1 && Distinct(ring)
    && (forall p: nat {:trigger ring[p]} :: p < |ring| ==>
          ring[p] < |fcbs| && IsOpen(fcbs[ring[p]]) && ForkOf(fcbs[ring[p]]) == f)
    && (forall p: nat {:trigger Succ(ring, p)} :: p < |ring| ==> fcbs[ring[p]].link == Ref(Succ(ring, p)))
  }

  /** There is one ring per open fork, and it holds every block open on that fork. */
  ghost predicate Rings(fcbs: seq<Fcb>, rings: map<Fork, seq<nat>>) {
    && (forall f :: f in rings ==> RingOk(fcbs, rings[f], f))
    && Listed(fcbs, rings)
  }

  ghost predicate Listed(fcbs: seq<Fcb>, rings: map<Fork, seq<nat>>) {
    forall i: nat :: i < |fcbs| && IsOpen(fcbs[i]) ==> ForkOf(fcbs[i]) in rings && i in rings[ForkOf(fcbs[i])]
  }

  function Rotated(ring: seq<nat>, s: nat): seq<nat>
    requires s <= |ring|
  {
    ring[s..] + ring[..s]
  }

  /** A ring may be listed from any of its blocks. */
  lemma RotateRing(fcbs: seq<Fcb>, ring: seq<nat>, f: Fork, s: nat)
    requires RingOk(fcbs, ring, f) && s < |ring|
    ensures RingOk(fcbs, Rotated(ring, s), f) && Rotated(ring, s)[0] == ring[s]
    ensures forall i :: i in Rotated(ring, s) <==> i in ring
  {
    var r := Rotated(ring, s);
    var n := |ring|;
    assert forall p: nat :: p < n ==> r[p] == (if p + s < n then ring[p + s] else ring[p + s - n]);
    forall p: nat | p < n ensures fcbs[r[p]].link == Ref(Succ(r, p)) {
      var q := if p + s < n then p + s else p + s - n;
      assert Succ(ring, q) == Succ(r, p);
    }
    forall i | i in ring ensures i in r {
      var p: nat :| p < n && ring[p] == i;
      if p >= s { assert r[p - s] == i; } else { assert r[p + n - s] == i; }
    }
  }

  lemma RingStartingAt(fcbs: seq<Fcb>, ring: seq<nat>, f: Fork, x: nat) returns (r: seq<nat>)
    requires RingOk(fcbs, ring, f) && x in ring
    ensures RingOk(fcbs, r, f) && r[0] == x && forall i :: i in r <==> i in ring
  {
    var p: nat :| p < |ring| && ring[p] == x;
    RotateRing(fcbs, ring, f, p);
    r := Rotated(ring, p);
  }

  lemma RingEndingAt(fcbs: seq<Fcb>, ring: seq<nat>, f: Fork, y: nat) returns (r: seq<nat>)
    requires RingOk(fcbs, ring, f) && y in ring
    ensures RingOk(fcbs, r, f) && r[|r| - 1] == y && forall i :: i in r <==> i in ring
  {
    var p: nat :| p < |ring| && ring[p] == y;
    var s := if p + 1 < |ring| then p + 1 else 0;
    RotateRing(fcbs, ring, f, s);
    r := Rotated(ring, s);
  }

  /** The block that links to `x` comes last in the ring listed from `x`. */
  lemma RingAround(fcbs: seq<Fcb>, rings: map<Fork, seq<nat>>, x: nat, y: nat) returns (r: seq<nat>)
    requires Rings(fcbs, rings) && x < |fcbs| && IsOpen(fcbs[x])
    requires y < |fcbs| && IsOpen(fcbs[y]) && fcbs[y].link == Ref(x)
    ensures ForkOf(fcbs[x]) in rings && RingOk(fcbs, r, ForkOf(fcbs[x])) && r[0] == x && r[|r| - 1] == y
    ensures forall i :: i in r <==> i in rings[ForkOf(fcbs[x])]
  {
    var f := ForkOf(fcbs[x]);
    r := RingStartingAt(fcbs, rings[f], f, x);
    assert Succ(r, |r| - 1) == x;
    LinkInjective(fcbs, rings, r[|r| - 1], y);
  }

  // ------------------------------------------------------- what rings mean

  /** The block reached from block `i` by following `n` links. */
  function Follow(fcbs: seq<Fcb>, i: int, n: nat): int
    decreases n
  {
    if n == 0 || !(0 <= i < |fcbs|) then i else Follow(fcbs, IndexOf(fcbs[i].link), n - 1)
  }

  lemma {:induction false} FollowRing(fcbs: seq<Fcb>, ring: seq<nat>, f: Fork, p: nat, n: nat)
    requires RingOk(fcbs, ring, f) && p < |ring|
    ensures p + n < |ring| ==> Follow(fcbs, ring[p], n) == ring[p + n]
    ensures Follow(fcbs, ring[p], n) in ring
    decreases n
  {
    if n > 0 {
      var q := if p + 1 < |ring| then p + 1 else 0;
      assert ring[q] == Succ(ring, p);
      FollowRing(fcbs, ring, f, q, n - 1);
    }
  }

  /** The links permute the open blocks, and their cycles are exactly the forks: following links
      from `i` reaches `j`, within the length of the table, just when both are open on one fork. */
  lemma CyclesAreForks(fcbs: seq<Fcb>, rings: map<Fork, seq<nat>>, i: nat, j: nat)
    requires Rings(fcbs, rings) && i < |fcbs| && j < |fcbs| && IsOpen(fcbs[i]) && IsOpen(fcbs[j])
    ensures ForkOf(fcbs[i]) == ForkOf(fcbs[j]) ==> exists n: nat :: n < |fcbs| && Follow(fcbs, i, n) == j
    ensures (exists n: nat :: Follow(fcbs, i, n) == j) ==> ForkOf(fcbs[i]) == ForkOf(fcbs[j])
    ensures fcbs[i].link == fcbs[j].link ==> i == j
    ensures RefNumValid(fcbs[i].link, |fcbs|)
  {
    if ForkOf(fcbs[i]) == ForkOf(fcbs[j]) { FellowsReached(fcbs, rings, i, j); }
    if n: nat :| Follow(fcbs, i, n) == j { StaysInFork(fcbs, rings, i, n); }
    LinkInjective(fcbs, rings, i, j);
  }

  lemma FellowsReached(fcbs: seq<Fcb>, rings: map<Fork, seq<nat>>, i: nat, j: nat)
    requires Rings(fcbs, rings) && i < |fcbs| && j < |fcbs| && IsOpen(fcbs[i]) && IsOpen(fcbs[j])
    requires ForkOf(fcbs[i]) == ForkOf(fcbs[j])
    ensures exists n: nat :: n < |fcbs| && Follow(fcbs, i, n) == j
  {
    var f := ForkOf(fcbs[i]);
    var r := RingStartingAt(fcbs, rings[f], f, i);
    RingFits(fcbs, r, f);
    assert j in r;
    var q: nat :| q < |r| && r[q] == j;
    FollowRing(fcbs, r, f, 0, q);
  }

  lemma StaysInFork(fcbs: seq<Fcb>, rings: map<Fork, seq<nat>>, i: nat, n: nat)
    requires Rings(fcbs, rings) && i < |fcbs| && IsOpen(fcbs[i])
    ensures var j := Follow(fcbs, i, n); 0 <= j < |fcbs| && ForkOf(fcbs[j]) == ForkOf(fcbs[i])
  {
    var f := ForkOf(fcbs[i]);
    var ring := rings[f];
    var p: nat :| p < |ring| && ring[p] == i;
    FollowRing(fcbs, ring, f, p, n);
    var q: nat :| q < |ring| && ring[q] == Follow(fcbs, i, n);
  }

  lemma LinkInjective(fcbs: seq<Fcb>, rings: map<Fork, seq<nat>>, i: nat, j: nat)
    requires Rings(fcbs, rings) && i < |fcbs| && j < |fcbs| && IsOpen(fcbs[i]) && IsOpen(fcbs[j])
    ensures RefNumValid(fcbs[i].link, |fcbs|)
    ensures fcbs[i].link == fcbs[j].link ==> i == j
  {
    var a, b := rings[ForkOf(fcbs[i])], rings[ForkOf(fcbs[j])];
    var p: nat :| p < |a| && a[p] == i;
    var q: nat :| q < |b| && b[q] == j;
    var x, y := if p + 1 < |a| then p + 1 else 0, if q + 1 < |b| then q + 1 else 0;
    assert Succ(a, p) == a[x] && Succ(b, q) == b[y];
    assert fcbs[i].link == Ref(a[x]) && fcbs[j].link == Ref(b[y]);
    if fcbs[i].link == fcbs[j].link {
      assert ForkOf(fcbs[a[x]]) == ForkOf(fcbs[i]);
      assert ForkOf(fcbs[b[y]]) == ForkOf(fcbs[j]);
      assert a == b && a[x] == a[y];
    }
  }

  lemma {:induction false} RingFits(fcbs: seq<Fcb>, ring: seq<nat>, f: Fork)
    requires RingOk(fcbs, ring, f)
    ensures |ring| <= |fcbs|
  {
    Words.Pigeonhole(ring, |fcbs|);
  }

  // ----------------------------------------------------------- splice and unsplice

  /** Block `x`, newly opened with a link to itself, is a ring of its own. */
  lemma NewRing(fcbs: seq<Fcb>, rings: map<Fork, seq<nat>>, x: nat, fcb: Fcb)
    requires Rings(fcbs, rings) && x < |fcbs| && fcbs[x].flNm == 0
    requires IsOpen(fcb) && fcb.link == Ref(x) && ForkOf(fcb) !in rings
    ensures Rings(fcbs[x := fcb], rings[ForkOf(fcb) := [x]])
  {
    forall f | f in rings ensures RingOk(fcbs[x := fcb], rings[f], f) {
      assert forall p: nat :: p < |rings[f]| ==> rings[f][p] != x;
    }
  }

  /** fsOpen's splice: block `x` goes in after block `y`, which is open on the same fork. */
  lemma SpliceIn(fcbs: seq<Fcb>, rings: map<Fork, seq<nat>>, x: nat, fcb: Fcb, y: nat)
    returns (rings': map<Fork, seq<nat>>)
    requires Rings(fcbs, rings) && x < |fcbs| && fcbs[x].flNm == 0 && IsOpen(fcb)
    requires y < |fcbs| && y != x && IsOpen(fcbs[y]) && ForkOf(fcbs[y]) == ForkOf(fcb)
    ensures Rings(fcbs[x := fcb.(link := fcbs[y].link)][y := fcbs[y].(link := Ref(x))], rings')
    ensures rings'.Keys == rings.Keys
  {
    var f := ForkOf(fcb);
    var r := RingEndingAt(fcbs, rings[f], f, y);
    rings' := rings[f := r + [x]];
    var fcbs' := fcbs[x := fcb.(link := fcbs[y].link)][y := fcbs[y].(link := Ref(x))];
    SpliceRing(fcbs, r, f, x, fcb, fcbs');
    OtherRings(fcbs, rings, f, x, y, fcbs');
    ListedAfterIn(fcbs, rings, f, r, x, fcbs');
  }

  lemma ListedAfterIn(fcbs: seq<Fcb>, rings: map<Fork, seq<nat>>, f: Fork, r: seq<nat>, x: nat, fcbs': seq<Fcb>)
    requires Listed(fcbs, rings) && f in rings && |fcbs'| == |fcbs| && x < |fcbs|
    requires forall i :: i in r <==> i in rings[f]
    requires forall i :: 0 <= i < |fcbs| && i != x ==> fcbs'[i] == fcbs[i].(link := fcbs'[i].link)
    requires ForkOf(fcbs'[x]) == f
    ensures Listed(fcbs', rings[f := r + [x]])
  {
    assert (r + [x])[|r|] == x;
  }

  lemma SpliceRing(fcbs: seq<Fcb>, r: seq<nat>, f: Fork, x: nat, fcb: Fcb, fcbs': seq<Fcb>)
    requires RingOk(fcbs, r, f) && x < |fcbs| && fcbs[x].flNm == 0 && IsOpen(fcb) && ForkOf(fcb) == f
    requires var y := r[|r| - 1];
             y < |fcbs| && fcbs' == fcbs[x := fcb.(link := fcbs[y].link)][y := fcbs[y].(link := Ref(x))]
    ensures RingOk(fcbs', r + [x], f)
  {
    var n := r + [x];
    forall p: nat | p < |n|
      ensures n[p] < |fcbs'| && IsOpen(fcbs'[n[p]]) && ForkOf(fcbs'[n[p]]) == f && fcbs'[n[p]].link == Ref(Succ(n, p))
    {
      if p < |r| {
        assert n[p] == r[p] && r[p] != x;
        assert Succ(n, p) == if p + 1 < |r| then Succ(r, p) else x;
      } else {
        assert Succ(n, p) == Succ(r, |r| - 1);
      }
    }
  }

  /** fsClose: block `x` comes out of its ring, whose block before `x` is `y`. */
  lemma SpliceOut(fcbs: seq<Fcb>, rings: map<Fork, seq<nat>>, x: nat, y: nat)
    returns (rings': map<Fork, seq<nat>>)
    requires Rings(fcbs, rings) && x < |fcbs| && IsOpen(fcbs[x])
    requires y < |fcbs| && IsOpen(fcbs[y]) && fcbs[y].link == Ref(x)
    ensures var fcbs1 := fcbs[y := fcbs[y].(link := fcbs[x].link)];
            Rings(fcbs1[x := fcbs1[x].(flNm := 0)], rings')
    ensures forall g :: g in rings' ==> g in rings
  {
    var f := ForkOf(fcbs[x]);
    var r := RingAround(fcbs, rings, x, y);
    var fcbs1 := fcbs[y := fcbs[y].(link := fcbs[x].link)];
    var fcbs2 := fcbs1[x := fcbs1[x].(flNm := 0)];
    rings' := if |r| == 1 then map g | g in rings && g != f :: rings[g] else rings[f := r[1..]];
    if |r| > 1 { UnspliceRing(fcbs, r, f, x, y, fcbs2); }
    OtherRings(fcbs, rings, f, x, y, fcbs2);
    ListedAfterOut(fcbs, rings, f, r, x, fcbs2, rings');
  }

  lemma ListedAfterOut(fcbs: seq<Fcb>, rings: map<Fork, seq<nat>>, f: Fork, r: seq<nat>, x: nat, fcbs': seq<Fcb>,
                       rings': map<Fork, seq<nat>>)
    requires Listed(fcbs, rings) && f in rings && |fcbs'| == |fcbs| && x < |fcbs|
    requires |r| >= 1 && r[0] == x && forall i :: i in r <==> i in rings[f]
    requires forall i :: 0 <= i < |fcbs| && i != x ==> fcbs'[i] == fcbs[i].(link := fcbs'[i].link)
    requires !IsOpen(fcbs'[x])
    requires forall g :: g in rings && g != f ==> g in rings' && rings'[g] == rings[g]
    requires |r| > 1 ==> f in rings' && rings'[f] == r[1..]
    ensures Listed(fcbs', rings')
  {
    forall i: nat | i < |fcbs'| && IsOpen(fcbs'[i]) ensures ForkOf(fcbs'[i]) in rings' && i in rings'[ForkOf(fcbs'[i])] {
      if ForkOf(fcbs'[i]) == f {
        var q: nat :| q < |r| && r[q] == i;
        assert q > 0 && r[1..][q - 1] == i;
      }
    }
  }

  /** A change to two blocks leaves the rings of forks neither is open on alone. */
  lemma OtherRings(fcbs: seq<Fcb>, rings: map<Fork, seq<nat>>, f: Fork, x: nat, y: nat, fcbs': seq<Fcb>)
    requires Rings(fcbs, rings) && |fcbs'| == |fcbs| && x < |fcbs| && y < |fcbs|
    requires IsOpen(fcbs[x]) ==> ForkOf(fcbs[x]) == f
    requires IsOpen(fcbs[y]) ==> ForkOf(fcbs[y]) == f
    requires forall i :: 0 <= i < |fcbs| && i != x && i != y ==> fcbs'[i] == fcbs[i]
    ensures forall g :: g in rings && g != f ==> RingOk(fcbs', rings[g], g)
  {
    forall g | g in rings && g != f ensures RingOk(fcbs', rings[g], g) {
      assert forall q: nat :: q < |rings[g]| ==> rings[g][q] != x && rings[g][q] != y;
    }
  }

  lemma UnspliceRing(fcbs: seq<Fcb>, r: seq<nat>, f: Fork, x: nat, y: nat, fcbs': seq<Fcb>)
    requires RingOk(fcbs, r, f) && |r| > 1 && r[0] == x && r[|r| - 1] == y
    requires x < |fcbs| && y < |fcbs|
    requires var fcbs1 := fcbs[y := fcbs[y].(link := fcbs[x].link)];
             fcbs' == fcbs1[x := fcbs1[x].(flNm := 0)]
    ensures RingOk(fcbs', r[1..], f)
  {
    var n := r[1..];
    forall p: nat | p < |n|
      ensures n[p] < |fcbs'| && IsOpen(fcbs'[n[p]]) && ForkOf(fcbs'[n[p]]) == f && fcbs'[n[p]].link == Ref(Succ(n, p))
    {
      assert n[p] == r[p + 1] && r[p + 1] != r[0];
      assert Succ(n, p) == if p + 1 < |n| then Succ(r, p + 1) else Succ(r, 0);
      assert p + 1 < |r| - 1 ==> r[p + 1] != r[|r| - 1];
    }
  }

  /** Rings do not depend on marks, lengths or permissions. */
  lemma RingsIgnoreLengths(fcbs: seq<Fcb>, rings: map<Fork, seq<nat>>, fcbs': seq<Fcb>)
    requires Rings(fcbs, rings) && |fcbs'| == |fcbs|
    requires forall i :: 0 <= i < |fcbs| ==> fcbs'[i] == fcbs[i].(eof := fcbs'[i].eof, mark := fcbs'[i].mark)
    ensures Rings(fcbs', rings)
  {
    forall f | f in rings ensures RingOk(fcbs', rings[f], f) {
      var ring := rings[f];
      forall p: nat | p < |ring|
        ensures ring[p] < |fcbs'| && IsOpen(fcbs'[ring[p]]) && ForkOf(fcbs'[ring[p]]) == f && fcbs'[ring[p]].link == Ref(Succ(ring, p))
      {
        assert ring[p] < |fcbs| && fcbs[ring[p]].link == Ref(Succ(ring, p));
      }
    }
  }
}
