/** Forks and the host's files they are kept in (virtio/device-9p.c), and exactly when the blocks open on
    them go on agreeing with the host about their lengths. */
module HostFiles {
  import opened Words
  import opened ForkRings

  type File = seq<byte>

  const RSRC: seq<byte> := [46, 114, 115, 114, 99]

  /** The host's file beside `p` that holds its resource fork. */
  function Sidecar(p: Place): Place {
    Place(p.dir, p.name + RSRC)
  }

  /** A fork as a caller of fsOpen names it. */
  datatype Opening = Opening(place: Place, resource: bool)

  function HostFile(o: Opening): Place {
    if o.resource then Sidecar(o.place) else o.place
  }

  /** The driver tells forks apart by catalogue number. */
  function ForkOpened(number: Place -> int, o: Opening): Fork {
    Fork(number(o.place), o.resource)
  }

  // ------------------------------------------------------------------ lengths

  function Zeros(n: nat): (z: File)
    ensures |z| == n && forall i :: 0 <= i < n ==> z[i] == 0
  {
    seq(n, i => 0)
  }

  /** The host's effect of setting a file's length. */
  function Resize(f: File, len: nat): (r: File)
    ensures |r| == len
  {
    if len <= |f| then f[..len] else f + Zeros(len - |f|)
  }

  /** Every open block's file exists. */
  ghost predicate Openings(fcbs: seq<Fcb>, host: map<Place, File>) {
    forall i :: 0 <= i < |fcbs| && IsOpen(fcbs[i]) ==> fcbs[i].file in host && fcbs[i].eof >= 0 && fcbs[i].mark >= 0
  }

  /** Every open block agrees with the host on the length of its file. */
  ghost predicate Lengths(fcbs: seq<Fcb>, host: map<Place, File>) {
    forall i :: 0 <= i < |fcbs| && IsOpen(fcbs[i]) ==> Agrees(fcbs[i], host)
  }

  ghost predicate Agrees(b: Fcb, host: map<Place, File>) {
    b.file in host && b.eof == |host[b.file]|
  }

  /** Blocks are open on one fork just when they are open on one of the host's files. */
  ghost predicate Separate(fcbs: seq<Fcb>) {
    forall i, j :: 0 <= i < |fcbs| && 0 <= j < |fcbs| && IsOpen(fcbs[i]) && IsOpen(fcbs[j]) ==> OneFork(fcbs[i], fcbs[j])
  }

  predicate OneFork(a: Fcb, b: Fcb) {
    ForkOf(a) == ForkOf(b) <==> a.file == b.file
  }

  /** fsSetEOF's effect on one block: marks beyond the new end are brought back to it. */
  function Shortened(b: Fcb, f: Fork, len: int): Fcb {
    if IsOpen(b) && ForkOf(b) == f then b.(eof := len, mark := if b.mark > len then len else b.mark) else b
  }

  function SetLength(fcbs: seq<Fcb>, f: Fork, len: int): (r: seq<Fcb>)
    ensures |r| == |fcbs| && forall i :: 0 <= i < |r| ==> r[i] == Shortened(fcbs[i], f, len)
  {
    seq(|fcbs|, i requires 0 <= i < |fcbs| => Shortened(fcbs[i], f, len))
  }

  /** Marks that were inside the new length stay, and the others come back to its end. */
  lemma MarksComeBack(fcbs: seq<Fcb>, f: Fork, len: nat, i: nat)
    requires i < |fcbs| && IsOpen(fcbs[i]) && ForkOf(fcbs[i]) == f
    ensures var b := SetLength(fcbs, f, len)[i];
            && b.eof == len && b.mark <= len && (fcbs[i].mark <= len ==> b.mark == fcbs[i].mark)
            && (fcbs[i].mark > len ==> b.mark == len)
            && b == fcbs[i].(eof := b.eof, mark := b.mark)
  {}

  /** Both sides of fsSetEOF on block `x`. */
  ghost predicate AgreesAfter(fcbs: seq<Fcb>, host: map<Place, File>, x: nat, len: nat)
    requires x < |fcbs| && fcbs[x].file in host
  {
    Lengths(SetLength(fcbs, ForkOf(fcbs[x]), len), host[fcbs[x].file := Resize(host[fcbs[x].file], len)])
  }

  lemma SeparateAgrees(fcbs: seq<Fcb>, host: map<Place, File>, x: nat, len: nat)
    requires Lengths(fcbs, host) && Separate(fcbs) && x < |fcbs| && IsOpen(fcbs[x])
    ensures fcbs[x].file in host && AgreesAfter(fcbs, host, x, len)
  {
    assert Agrees(fcbs[x], host);
    var after := SetLength(fcbs, ForkOf(fcbs[x]), len);
    forall i | 0 <= i < |after| && IsOpen(after[i])
      ensures Agrees(after[i], host[fcbs[x].file := Resize(host[fcbs[x].file], len)])
    {
      assert Agrees(fcbs[i], host) && OneFork(fcbs[i], fcbs[x]);
    }
  }

  /** A new length for one of two blocks that are not separate leaves the other one wrong. */
  lemma ClashDisagrees(fcbs: seq<Fcb>, host: map<Place, File>, x: nat, y: nat)
    requires Lengths(fcbs, host) && x < |fcbs| && y < |fcbs| && IsOpen(fcbs[x]) && IsOpen(fcbs[y])
    requires !OneFork(fcbs[x], fcbs[y])
    ensures fcbs[x].file in host && fcbs[y].file in host
    ensures !AgreesAfter(fcbs, host, x, |host[fcbs[y].file]| + 1)
  {
    assert Agrees(fcbs[x], host) && Agrees(fcbs[y], host);
    var len := |host[fcbs[y].file]| + 1;
    var after := SetLength(fcbs, ForkOf(fcbs[x]), len);
    assert after[y] == Shortened(fcbs[y], ForkOf(fcbs[x]), len);
    assert IsOpen(after[y]);
    assert !Agrees(after[y], host[fcbs[x].file := Resize(host[fcbs[x].file], len)]);
  }

  /** Blocks that agree with the host go on agreeing, whatever length is set through whichever of them, if
      and only if no two forks open share a file and no fork is open on two. */
  lemma LengthsExactly(fcbs: seq<Fcb>, host: map<Place, File>)
    requires Lengths(fcbs, host)
    ensures forall x :: 0 <= x < |fcbs| && IsOpen(fcbs[x]) ==> fcbs[x].file in host
    ensures Separate(fcbs) <==>
              forall x: nat, len: nat :: x < |fcbs| && IsOpen(fcbs[x]) ==> AgreesAfter(fcbs, host, x, len)
  {
    forall x | 0 <= x < |fcbs| && IsOpen(fcbs[x]) ensures fcbs[x].file in host { assert Agrees(fcbs[x], host); }
    if Separate(fcbs) {
      forall x: nat, len: nat | x < |fcbs| && IsOpen(fcbs[x]) ensures AgreesAfter(fcbs, host, x, len) {
        SeparateAgrees(fcbs, host, x, len);
      }
    } else {
      var i: nat, j: nat :| i < |fcbs| && j < |fcbs| && IsOpen(fcbs[i]) && IsOpen(fcbs[j]) && !OneFork(fcbs[i], fcbs[j]);
      ClashDisagrees(fcbs, host, i, j);
    }
  }

  // ------------------------------------------------------- which forks may be opened together

  /** The driver takes two forks for one just when the host keeps them in one file. */
  predicate ToldApart(number: Place -> int, a: Opening, b: Opening) {
    ForkOpened(number, a) == ForkOpened(number, b) <==> HostFile(a) == HostFile(b)
  }

  ghost predicate Apart(number: Place -> int, known: set<Opening>) {
    forall a, b :: a in known && b in known ==> ToldApart(number, a, b)
  }

  ghost predicate OpenedAs(b: Fcb, number: Place -> int, o: Opening) {
    ForkOf(b) == ForkOpened(number, o) && b.file == HostFile(o)
  }

  /** Every open block was opened as one of `known`. */
  ghost predicate From(fcbs: seq<Fcb>, number: Place -> int, known: set<Opening>) {
    forall i :: 0 <= i < |fcbs| && IsOpen(fcbs[i]) ==> exists o :: o in known && OpenedAs(fcbs[i], number, o)
  }

  lemma ApartSeparates(fcbs: seq<Fcb>, number: Place -> int, known: set<Opening>)
    requires Apart(number, known) && From(fcbs, number, known)
    ensures Separate(fcbs)
  {
    forall i, j | 0 <= i < |fcbs| && 0 <= j < |fcbs| && IsOpen(fcbs[i]) && IsOpen(fcbs[j]) ensures OneFork(fcbs[i], fcbs[j]) {
      var a :| a in known && OpenedAs(fcbs[i], number, a);
      var b :| b in known && OpenedAs(fcbs[j], number, b);
      assert ToldApart(number, a, b);
    }
  }

  function BlockOf(number: Place -> int, o: Opening, link: int): Fcb {
    Fcb(number(o.place), o.resource, true, HostFile(o), link, 0, 0, true)
  }

  /** Every table of blocks opened among `known` is separate if and only if `known` are apart. */
  lemma ApartExactly(number: Place -> int, known: set<Opening>)
    requires forall o :: o in known ==> number(o.place) != 0
    ensures Apart(number, known) <==> forall fcbs :: From(fcbs, number, known) ==> Separate(fcbs)
  {
    if Apart(number, known) {
      forall fcbs | From(fcbs, number, known) ensures Separate(fcbs) { ApartSeparates(fcbs, number, known); }
    } else {
      var a, b :| a in known && b in known && !ToldApart(number, a, b);
      var fcbs := [BlockOf(number, a, 2), BlockOf(number, b, 96)];
      assert OpenedAs(fcbs[0], number, a) && OpenedAs(fcbs[1], number, b);
      assert From(fcbs, number, known);
      assert !OneFork(fcbs[0], fcbs[1]);
    }
  }

  function BothForks(places: set<Place>): set<Opening> {
    set p, r: bool | p in places :: Opening(p, r)
  }

  /** What a caller can check: both forks of the files at `places` may be opened together if and only if
      the files have distinct numbers and none is named as another's sidecar. */
  lemma ApartFor(number: Place -> int, places: set<Place>)
    ensures Apart(number, BothForks(places)) <==>
            && (forall p, q :: p in places && q in places && number(p) == number(q) ==> p == q)
            && (forall p, q :: p in places && q in places ==> q != Sidecar(p))
  {
    if Apart(number, BothForks(places)) {
      forall p, q | p in places && q in places ensures (number(p) == number(q) ==> p == q) && q != Sidecar(p) {
        assert Opening(p, false) in BothForks(places) && Opening(q, false) in BothForks(places);
        assert Opening(p, true) in BothForks(places);
        assert ToldApart(number, Opening(p, false), Opening(q, false));
        assert ToldApart(number, Opening(p, true), Opening(q, false));
      }
    } else {
      var a, b :| a in BothForks(places) && b in BothForks(places) && !ToldApart(number, a, b);
      if a.resource && b.resource { SidecarsDiffer(a.place, b.place); }
      assert a.place in places && b.place in places;
    }
  }

  lemma SidecarsDiffer(p: Place, q: Place)
    ensures Sidecar(p) == Sidecar(q) <==> p == q
  {
    if Sidecar(p) == Sidecar(q) {
      assert p.name == Sidecar(p).name[..|Sidecar(p).name| - 5];
      assert q.name == Sidecar(q).name[..|Sidecar(q).name| - 5];
    }
  }
}
