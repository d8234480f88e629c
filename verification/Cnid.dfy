/** Catalogue numbers made from inode numbers (virtio/device-9p.c, qid2cnid and isdir), and why they
    serve as the numbers that browse assumes. */
module Cnid {
  import opened Words
  import opened Browse

  const INODES: nat := 0x1_0000_0000_0000_0000
  const NOTDIR: nat := 0x4000_0000
  const LIFT: nat := 0x12342454

  /** The C operator `^` on non-negative operands. */
  function Xor(x: nat, y: nat): nat {
    if x == 0 && y == 0 then 0 else 2 * Xor(x / 2, y / 2) + (if x % 2 != y % 2 then 1 else 0)
  }

  lemma {:induction false} XorBelow(x: nat, y: nat, k: nat)
    requires x < Pow2(k) && y < Pow2(k)
    ensures Xor(x, y) < Pow2(k)
  {
    if k > 0 { XorBelow(x / 2, y / 2, k - 1); }
  }

  lemma {:induction false} XorZero(x: nat)
    ensures Xor(x, 0) == x
  {
    if x > 0 { XorZero(x / 2); }
  }

  lemma Powers()
    ensures Pow2(20) == 0x10_0000 && Pow2(30) == NOTDIR && Pow2(40) == 0x100_0000_0000 && Pow2(60) == NOTDIR * NOTDIR
  {
    assert Pow2(5) == 32;
    assert Pow2(10) == 1024;
    Pow2Add(10, 10);
    Pow2Add(20, 10);
    Pow2Add(20, 20);
    Pow2Add(30, 30);
  }

  lemma Masked(x: nat, m: nat, e: nat)
    ensures Raised(m, e) == Pow2(e) * m && Halved(x, e) == x / Pow2(e)
    ensures And(x, Raised(m, e)) == Pow2(e) * And(Halved(x, e), m)
  {
    RaisedIs(m, e);
    HalvedIs(x, e);
    AndRaised(x, m, e);
    RaisedIs(And(Halved(x, e), m), e);
  }

  /** The inode's upper bits are folded onto its lower 30. */
  function Fold(path: nat): (c: nat)
    requires path < INODES
    ensures c < NOTDIR
  {
    FoldParts(path);
    Xor(Xor(And(path, 0x3fffffff), And(path, 0x0fffffffc0000000) / NOTDIR), And(path, 0xf000000000000000) / 0x100_0000_0000)
  }

  /** What the three masks select. */
  lemma FoldParts(path: nat)
    requires path < INODES
    ensures And(path, 0x3fffffff) == path % NOTDIR
    ensures And(path, 0x0fffffffc0000000) / NOTDIR == path / NOTDIR % NOTDIR
    ensures And(path, 0xf000000000000000) / 0x100_0000_0000 == 0x10_0000 * (path / NOTDIR / NOTDIR)
    ensures Xor(Xor(path % NOTDIR, path / NOTDIR % NOTDIR), 0x10_0000 * (path / NOTDIR / NOTDIR)) < NOTDIR
  {
    Powers();
    AndMask(path, 30);
    Masked(path, 0x3fffffff, 30);
    AndMask(path / NOTDIR, 30);
    TopPart(path);
    XorBelow(path % NOTDIR, path / NOTDIR % NOTDIR, 30);
    XorBelow(Xor(path % NOTDIR, path / NOTDIR % NOTDIR), 0x10_0000 * (path / NOTDIR / NOTDIR), 30);
  }

  lemma TopPart(path: nat)
    requires path < INODES
    ensures And(path, 0xf000000000000000) / 0x100_0000_0000 == 0x10_0000 * (path / NOTDIR / NOTDIR)
    ensures path / NOTDIR / NOTDIR < 16
  {
    Powers();
    DivDiv(path, NOTDIR, NOTDIR);
    Masked(path, 15, 60);
    TopBits(path / NOTDIR / NOTDIR, path);
  }

  lemma TopBits(top: nat, path: nat)
    requires path < INODES && top == path / (NOTDIR * NOTDIR)
    ensures top < 16 && And(top, 15) == top
  {
    assert Pow2(4) == 16;
    AndMask(top, 4);
  }

  /** Bit i of a number. */
  function Bit(x: nat, i: nat): (b: nat)
    ensures b < 2
  {
    if i == 0 then x % 2 else Bit(x / 2, i - 1)
  }

  lemma {:induction false} XorBit(x: nat, y: nat, i: nat)
    ensures Bit(Xor(x, y), i) == (Bit(x, i) + Bit(y, i)) % 2
  {
    if x == 0 && y == 0 {
      ZeroBit(i);
    } else if i > 0 {
      XorBit(x / 2, y / 2, i - 1);
    }
  }

  lemma {:induction false} ZeroBit(i: nat)
    ensures Bit(0, i) == 0
  {
    if i > 0 { ZeroBit(i - 1); }
  }

  lemma {:induction false} HalvedBit(x: nat, k: nat, i: nat)
    ensures Bit(Halved(x, k), i) == Bit(x, i + k)
  {
    if k > 0 { HalvedBit(x / 2, k - 1, i); }
  }

  lemma ShiftedBit(x: nat, k: nat, i: nat, y: nat)
    requires y == x / Pow2(k)
    ensures Bit(y, i) == Bit(x, i + k)
  {
    HalvedIs(x, k);
    HalvedBit(x, k, i);
  }

  lemma {:induction false} LowBit(x: nat, k: nat, i: nat)
    ensures Bit(x % Pow2(k), i) == if i < k then Bit(x, i) else 0
  {
    if k == 0 {
      ZeroBit(i);
    } else {
      HalfOfRest(x, Pow2(k - 1));
      if i > 0 { LowBit(x / 2, k - 1, i - 1); }
    }
  }

  lemma HalfOfRest(x: nat, p: nat)
    requires p > 0
    ensures x % (2 * p) / 2 == x / 2 % p && x % (2 * p) % 2 == x % 2
  {
    var h := x / 2;
    var q, r := h / p, h % p;
    assert x == 2 * h + x % 2 && h == p * q + r;
    assert x == (2 * p) * q + (2 * r + x % 2) by { assert 2 * (p * q) == (2 * p) * q; }
    DivModUnique(x, 2 * p, q, 2 * r + x % 2);
  }

  lemma {:induction false} RaisedBit(x: nat, k: nat, i: nat)
    ensures Bit(Pow2(k) * x, i) == if i < k then 0 else Bit(x, i - k)
  {
    if k > 0 {
      var y := Pow2(k - 1) * x;
      assert Pow2(k) * x == 2 * y;
      if i > 0 { RaisedBit(x, k - 1, i - 1); }
    }
  }

  /** Bit i of the folded number is the exclusive or of bits i and i + 30 of the inode, and for the last four
      of the 64 (60 to 63) they go on bits 20 to 23. */
  lemma FoldBit(path: nat, i: nat)
    requires path < INODES && i < 30
    ensures Bit(Fold(path), i) ==
            (Bit(path, i) + Bit(path, i + 30) + (if 20 <= i < 24 then Bit(path, i + 40) else 0)) % 2
  {
    FoldParts(path);
    var low, mid, top := path % NOTDIR, path / NOTDIR % NOTDIR, 0x10_0000 * (path / NOTDIR / NOTDIR);
    XorBit(Xor(low, mid), top, i);
    XorBit(low, mid, i);
    LowestBits(path, i);
    MiddleBits(path, i);
    TopBits4(path, i);
  }

  lemma LowestBits(path: nat, i: nat)
    requires i < 30
    ensures Bit(path % NOTDIR, i) == Bit(path, i)
  {
    Powers();
    LowBit(path, 30, i);
  }

  lemma MiddleBits(path: nat, i: nat)
    requires i < 30
    ensures Bit(path / NOTDIR % NOTDIR, i) == Bit(path, i + 30)
  {
    Powers();
    LowBit(path / NOTDIR, 30, i);
    ShiftedBit(path, 30, i, path / NOTDIR);
  }

  lemma TopBits4(path: nat, i: nat)
    requires path < INODES && i < 30
    ensures Bit(0x10_0000 * (path / NOTDIR / NOTDIR), i) == if 20 <= i < 24 then Bit(path, i + 40) else 0
  {
    Powers();
    RaisedBit(path / NOTDIR / NOTDIR, 20, i);
    if i >= 20 { TopBit(path, i - 20); }
  }

  lemma TopBit(path: nat, i: nat)
    requires path < INODES
    ensures Bit(path / NOTDIR / NOTDIR, i) == if i < 4 then Bit(path, i + 60) else 0
  {
    Powers();
    TopPart(path);
    DivDiv(path, NOTDIR, NOTDIR);
    var top := path / NOTDIR / NOTDIR;
    ShiftedBit(path, 60, i, top);
    assert Pow2(4) == 16;
    LowBit(top, 4, i);
  }

  /** Low numbers are reserved for the system. */
  function Lifted(c: nat): nat {
    if c < 16 then c + LIFT else c
  }

  /** `cnid | 0x40000000`, where that bit is clear. */
  function Marked(c: nat, dir: bool): nat {
    if dir then c else c + NOTDIR
  }

  predicate IsDir(cnid: nat) {
    And(cnid, NOTDIR) == 0
  }

  lemma IsDirMarked(c: nat, dir: bool)
    requires c < NOTDIR
    ensures IsDir(Marked(c, dir)) <==> dir
  {
    Powers();
    Masked(Marked(c, dir), 1, 30);
    assert And(1, 1) == 1;
  }

  /** A number is never an error (negative) nor one of the reserved ones; only the root's is 2; and
      bit 30 tells files from directories. */
  function Qid2Cnid(root: nat, dir: bool, path: nat): (cnid: nat)
    requires path < INODES
    ensures cnid < 0x8000_0000
    ensures cnid == ROOTCNID <==> path == root
    ensures path != root ==> cnid >= 16 && (IsDir(cnid) <==> dir)
  {
    if path == root then ROOTCNID
    else
      IsDirMarked(Lifted(Fold(path)), dir);
      Marked(Lifted(Fold(path)), dir)
  }

  /** Two inodes that fold to c and d get the same number if they are of one kind. */
  predicate Meet(c: nat, d: nat) {
    c == d || (c < 16 && d == c + LIFT) || (d < 16 && c == d + LIFT)
  }

  /** Exactly when two files get the same number. */
  lemma SameNumber(root: nat, k: bool, p: nat, l: bool, q: nat)
    requires p < INODES && q < INODES
    ensures Qid2Cnid(root, k, p) == Qid2Cnid(root, l, q) <==>
            (p == root && q == root) || (p != root && q != root && k == l && Meet(Fold(p), Fold(q)))
  {}

  lemma FoldSmall(p: nat)
    requires p < NOTDIR
    ensures Fold(p) == p
  {
    FoldParts(p);
    XorZero(p);
  }

  /** Inodes from 16 to 2^30 - 1, and the root, all get numbers of their own. */
  lemma DistinctNumbers(root: nat, k: bool, p: nat, l: bool, q: nat)
    requires p < INODES && q < INODES && p != q
    requires (p == root || 16 <= p < NOTDIR) && (q == root || 16 <= q < NOTDIR)
    ensures Qid2Cnid(root, k, p) != Qid2Cnid(root, l, q)
  {
    SameNumber(root, k, p, l, q);
    if p != root && q != root {
      FoldSmall(p);
      FoldSmall(q);
    }
  }

  /** Beyond that two files can share a number. */
  lemma Collision(root: nat, dir: bool)
    requires root == 2
    ensures Qid2Cnid(root, dir, 16) == Qid2Cnid(root, dir, 16 * NOTDIR)
  {
    FoldSmall(16);
    FoldParts(16 * NOTDIR);
    assert Xor(0, 16) == 16;
    XorZero(16);
    SameNumber(root, dir, 16, dir, 16 * NOTDIR);
  }

  // ------------------------------------------------------------------ as browse numbers files

  /** Nodes are inodes, and `cnid` gives each node the number made from its inode. */
  ghost predicate FromInodes(t: Tree, isDir: Node -> bool) {
    && (forall n: nat :: Exists(t, n) ==> n < INODES && n in t.cnid && t.cnid[n] == Qid2Cnid(t.root, isDir(n), n))
    && (forall n: nat :: Exists(t, n) ==> t.cnid[n] in t.node)
    && (forall c: nat :: c in t.node ==> Exists(t, t.node[c]) && t.cnid[t.node[c]] == c)
  }

  /** No two of the tree's inodes get the same number. */
  ghost predicate NoneMeet(t: Tree, isDir: Node -> bool) {
    forall m: nat, n: nat :: m in t.up && n in t.up && m < INODES && n < INODES && isDir(m) == isDir(n) && Meet(Fold(m), Fold(n)) ==> m == n
  }

  /** What browse assumes of the numbering then holds; and the inodes from 16 to 2^30 - 1 never meet. */
  lemma InodesAreNumbered(t: Tree, isDir: Node -> bool, n: Node)
    requires t.root !in t.up && FromInodes(t, isDir) && NoneMeet(t, isDir) && Exists(t, n)
    ensures Numbered(t, n)
  {
    var m := t.node[t.cnid[n]];
    SameNumber(t.root, isDir(m), m, isDir(n), n);
  }

  lemma SmallInodesNeverMeet(t: Tree, isDir: Node -> bool)
    requires forall n: nat :: n in t.up ==> 16 <= n < NOTDIR
    ensures NoneMeet(t, isDir)
  {
    forall m: nat, n: nat | m in t.up && n in t.up && Meet(Fold(m), Fold(n)) ensures m == n {
      FoldSmall(m);
      FoldSmall(n);
    }
  }
}
