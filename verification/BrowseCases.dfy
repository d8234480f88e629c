/** Paths with a "." given to browse on the smallest tree: a root that holds one file "a". */
module BrowseCases {
  import opened Words
  import opened Wire
  import NameConversion
  import opened Browse
  import opened Trail
  import BrowseDriver

  const A: Name := [97]
  const ANUMBER: nat := 21
  const COLON_A_COLON_DOT: seq<byte> := [58, 97, 58, 46]
  const COLON_DOT_COLON_A: seq<byte> := [58, 46, 58, 97]

  function OneFile(): Tree {
    Tree(1, map[(1, A) := 5], map[5 := (1, A)], map[1 := 0, 5 := 1], map[1 := ROOTCNID, 5 := ANUMBER],
         map[ROOTCNID := 1, ANUMBER := 5])
  }

  /** The tables leave these characters alone. */
  ghost predicate Ascii(codec: NameConversion.Codec) {
    codec.encode(97) == 97 && codec.encode(46) == 46
  }

  lemma OneFileGood()
    ensures Good(OneFile())
  {
    assert GoodNode(OneFile(), 5);
  }

  lemma OneName(codec: NameConversion.Codec, c: byte)
    requires c != 0 && codec.encode(c) == c as nat
    ensures CompName(codec, [c]) == [c]
  {
    assert [c][1..] == [];
    assert NameConversion.Utf8Of(codec, [c]) == [c];
  }

  lemma TwoNames(codec: NameConversion.Codec, x: byte, y: byte)
    requires x != COLON && y != COLON && x != 0 && y != 0 && codec.encode(x) == x as nat && codec.encode(y) == y as nat
    ensures Split(Relative([COLON, x, COLON, y])) == [[x], [y]]
    ensures Names(codec, [COLON, x, COLON, y]) == [[x], [y]]
  {
    var p := [COLON, x, COLON, y];
    assert Relative(p) == [x, COLON, y];
    assert [x, COLON, y][1..] == [COLON, y];
    assert RunLength([COLON, y]) == 0 && RunLength([x, COLON, y]) == 1;
    assert [x, COLON, y][..1] == [x] && After([x, COLON, y]) == [y];
    assert [y][1..] == [] && RunLength([y]) == 1 && [y][..1] == [y] && After([y]) == [];
    assert Split([y]) == [[y]];
    OneName(codec, x);
    OneName(codec, y);
    var runs := [[x], [y]];
    assert runs[1..] == [[y]] && [[y]][1..] == [];
    assert CompNames(codec, [[y]]) == [[y]];
    assert CompNames(codec, runs) == [[x]] + CompNames(codec, runs[1..]);
  }

  lemma WholeIs(codec: NameConversion.Codec, path: seq<byte>, x: byte, y: byte)
    requires x != COLON && y != COLON && x != 0 && y != 0 && codec.encode(x) == x as nat && codec.encode(y) == y as nat
    requires path == [COLON, x, COLON, y]
    ensures BrowseDriver.StartKnown(OneFile(), map[], ROOTCNID) && !BrowseDriver.Absolute(ROOTCNID, path)
    ensures BrowseDriver.StartPath(OneFile(), map[], ROOTCNID, path) == []
    ensures BrowseDriver.WholePath(OneFile(), map[], codec, ROOTCNID, path) == [[x], [y]]
  {
    OneFileGood();
    assert RunLength(path) == 0;
    TwoNames(codec, x, y);
  }

  /** Looking up ":a:." from the root finds "a" and records it as a child of itself. */
  lemma DotRecordsSelf(codec: NameConversion.Codec)
    requires Ascii(codec)
    ensures Good(OneFile()) && BrowseDriver.StartKnown(OneFile(), map[], ROOTCNID)
    ensures BrowseDriver.WholePath(OneFile(), map[], codec, ROOTCNID, COLON_A_COLON_DOT) == [A, DOT] && StaysBelow([A, DOT])
    ensures At(OneFile(), [A, DOT]) == Some(5)
    ensures var db := Recorded(OneFile(), map[], [A, DOT], 0);
            && ANUMBER in db && db[ANUMBER] == Rec(ANUMBER, DOT)
            && !Rooted(OneFile(), db) && Wrong([A, DOT], 0) == {[A]}
  {
    OneFileGood();
    WholeIs(codec, COLON_A_COLON_DOT, 97, 46);
    Step1(A);
    assert [A, DOT][..1] == [A];
    assert At(OneFile(), [A]) == Some(5);
    AtNext(OneFile(), [A, DOT], 1);
    assert [A, DOT][..2] == [A, DOT];
    assert Norm([A]) == [A] && Norm([A, DOT]) == [A];
    assert Crumbs([A, DOT]) == [Crumb(A, [A]), Crumb(DOT, [A])];
    assert Wrong([A], 0) == {};
    assert NumberAt(OneFile(), [A]) == ANUMBER;
    assert !Connected(OneFile(), Recorded(OneFile(), map[], [A, DOT], 0), ANUMBER);
    HeightNext([A, DOT], 0);
    HeightNext([A, DOT], 1);
  }

  lemma Step1(x: Name)
    requires x != DOTDOT
    ensures [x][..0] == [] && Crumbs([x]) == [Crumb(x, Norm([x]))]
  {}

  /** Looking up ":.:a" also goes through a ".", and does no harm. */
  lemma LeadingDotHarmless(codec: NameConversion.Codec)
    requires Ascii(codec)
    ensures Good(OneFile()) && BrowseDriver.StartKnown(OneFile(), map[], ROOTCNID)
    ensures BrowseDriver.WholePath(OneFile(), map[], codec, ROOTCNID, COLON_DOT_COLON_A) == [DOT, A]
    ensures At(OneFile(), [DOT, A]) == Some(5) && Wrong([DOT, A], 0) == {}
  {
    OneFileGood();
    WholeIs(codec, COLON_DOT_COLON_A, 46, 97);
    Step1(DOT);
    assert [DOT, A][..1] == [DOT];
    assert At(OneFile(), [DOT]) == Some(1);
    assert Norm([DOT]) == [] && Norm([DOT, A]) == [A];
    assert Crumbs([DOT, A]) == [Crumb(DOT, []), Crumb(A, [A])];
    assert Wrong([DOT], 0) == {};
  }

  /** A "." undone by ".." does none either. */
  lemma UndoneDotHarmless()
    ensures StaysBelow([A, DOT, DOTDOT]) && Wrong([A, DOT, DOTDOT], 0) == {}
  {
    var p := [A, DOT, DOTDOT];
    assert p[..1] == [A] && p[..2] == [A, DOT] && p[..3] == p && [A, DOT][..1] == [A];
    Step1(A);
    assert Norm([A]) == [A] && Norm([A, DOT]) == [A];
    assert Crumbs([A, DOT]) == [Crumb(A, [A]), Crumb(DOT, [A])];
    assert Crumbs(p) == [Crumb(A, [A])];
    assert Wrong([A], 0) == {} && Wrong([A, DOT], 0) == {[A]};
    HeightNext(p, 0);
    HeightNext(p, 1);
    HeightNext(p, 2);
  }
}
