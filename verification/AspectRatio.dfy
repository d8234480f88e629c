/** The loop of getBestSize that cancels an aspect ratio (virtio/device-gpu.c), and exactly which sizes
    it brings to lowest terms. */
module AspectRatio {
  import opened Words
  import opened Primes

  /** No number from 2 up to n divides both. */
  ghost predicate NoCommon(a: nat, b: nat, n: nat) {
    forall j :: 2 <= j < n ==> !(a % j == 0 && b % j == 0)
  }

  ghost predicate Ratio(w: nat, h: nat, wr: nat, hr: nat, g: nat) {
    wr > 0 && hr > 0 && g > 0 && w == g * wr && h == g * hr
  }

  /** In lowest terms: no number above 1 divides both. */
  ghost predicate Simplest(wr: nat, hr: nat) {
    forall j :: j >= 2 ==> !(wr % j == 0 && hr % j == 0)
  }

  // ------------------------------------------------------------------ what the loop computes

  /** The inner loop: divides both by i as often as it divides both. */
  function CancelBy(a: nat, b: nat, i: nat): (r: (nat, nat))
    requires a > 0 && b > 0 && i >= 2
    ensures 0 < r.0 <= a && 0 < r.1 <= b
    decreases a
  {
    if a % i == 0 && b % i == 0 then
      Smaller(a, i);
      Smaller(b, i);
      CancelBy(a / i, b / i, i)
    else (a, b)
  }

  /** The outer loop, from divisor i on. */
  function CancelFrom(a: nat, b: nat, i: nat): (r: (nat, nat))
    requires a > 0 && b > 0 && i >= 2
    ensures 0 < r.0 <= a && 0 < r.1 <= b
    decreases if a > i then a - i else 0
  {
    if i < a && i < b then
      var (x, y) := CancelBy(a, b, i);
      CancelFrom(x, y, i + 1)
    else (a, b)
  }

  function Cancelled(w: nat, h: nat): (r: (nat, nat))
    requires w > 0 && h > 0
    ensures 0 < r.0 <= w && 0 < r.1 <= h
  {
    CancelFrom(w, h, 2)
  }

  method Cancel(w: nat, h: nat) returns (wr: nat, hr: nat)
    requires w > 0 && h > 0
    ensures (wr, hr) == Cancelled(w, h)
  {
    wr, hr := w, h;
    var i := 2;
    while i < wr && i < hr
      invariant wr > 0 && hr > 0 && i >= 2 && wr <= w && CancelFrom(wr, hr, i) == Cancelled(w, h)
      decreases w - i
    {
      wr, hr := CancelInner(wr, hr, i);
      i := i + 1;
    }
  }

  method CancelInner(a: nat, b: nat, i: nat) returns (wr: nat, hr: nat)
    requires a > 0 && b > 0 && i >= 2
    ensures (wr, hr) == CancelBy(a, b, i) && 0 < wr <= a && 0 < hr <= b
  {
    wr, hr := a, b;
    while wr % i == 0 && hr % i == 0
      invariant 0 < wr <= a && 0 < hr <= b && CancelBy(wr, hr, i) == CancelBy(a, b, i)
      decreases wr
    {
      Smaller(wr, i);
      Smaller(hr, i);
      wr, hr := wr / i, hr / i;
    }
  }

  // ------------------------------------------------------------------ it is the same ratio

  lemma MulLess(a: nat, b: nat, c: nat, d: nat)
    requires a <= c && b <= d
    ensures a * b <= c * d
  {
    assert c * d - a * b == c * (d - b) + (c - a) * b;
  }

  lemma RatioThrough(a: nat, b: nat, p: nat, q: nat, e: nat, x: nat, y: nat, f: nat)
    requires Ratio(a, b, p, q, e) && Ratio(p, q, x, y, f)
    ensures Ratio(a, b, x, y, e * f)
  {
    assert e * (f * x) == (e * f) * x && e * (f * y) == (e * f) * y;
    MulAtLeast(e, f);
  }

  lemma QuotientsApart(a: nat, b: nat, i: nat)
    requires i >= 2 && a % i == 0 && b % i == 0 && NoCommon(a, b, i)
    ensures NoCommon(a / i, b / i, i)
  {
    forall j | 2 <= j < i && (a / i) % j == 0 && (b / i) % j == 0 ensures false {
      QuotientDivides(a, i, j);
      QuotientDivides(b, i, j);
    }
  }

  lemma {:induction false} CancelByRatio(a: nat, b: nat, i: nat) returns (g: nat)
    requires a > 0 && b > 0 && i >= 2 && NoCommon(a, b, i)
    ensures Ratio(a, b, CancelBy(a, b, i).0, CancelBy(a, b, i).1, g)
    ensures NoCommon(CancelBy(a, b, i).0, CancelBy(a, b, i).1, i + 1)
    decreases a
  {
    if a % i == 0 && b % i == 0 {
      Smaller(a, i);
      Smaller(b, i);
      QuotientsApart(a, b, i);
      var f := CancelByRatio(a / i, b / i, i);
      g := i * f;
      RatioThrough(a, b, a / i, b / i, i, CancelBy(a, b, i).0, CancelBy(a, b, i).1, f);
    } else {
      g := 1;
    }
  }

  lemma QuotientDivides(a: nat, i: nat, j: nat)
    requires i > 0 && j > 0 && a % i == 0 && (a / i) % j == 0
    ensures a % j == 0
  {
    Quotient(a, i);
    TimesKeeps(a / i, i, j);
    assert (a / i) * i == i * (a / i);
  }

  lemma {:induction false} CancelFromRatio(a: nat, b: nat, i: nat) returns (g: nat)
    requires a > 0 && b > 0 && i >= 2 && NoCommon(a, b, i)
    ensures var (x, y) := CancelFrom(a, b, i); Ratio(a, b, x, y, g) && NoCommon(x, y, if x < y then x else y)
    decreases if a > i then a - i else 0
  {
    if i < a && i < b {
      var (p, q) := CancelBy(a, b, i);
      var e := CancelByRatio(a, b, i);
      var f := CancelFromRatio(p, q, i + 1);
      g := e * f;
      RatioThrough(a, b, p, q, e, CancelFrom(a, b, i).0, CancelFrom(a, b, i).1, f);
    } else {
      g := 1;
    }
  }

  /** The result is the same ratio, and no number below its smaller side divides both. */
  lemma CancelledRatio(w: nat, h: nat) returns (g: nat)
    requires w > 0 && h > 0
    ensures var (x, y) := Cancelled(w, h); Ratio(w, h, x, y, g) && NoCommon(x, y, if x < y then x else y)
  {
    g := CancelFromRatio(w, h, 2);
  }

  lemma {:induction false} CancelMirror(a: nat, b: nat, i: nat)
    requires a > 0 && b > 0 && i >= 2
    ensures CancelFrom(b, a, i) == (CancelFrom(a, b, i).1, CancelFrom(a, b, i).0)
    decreases if a > i then a - i else 0
  {
    if i < a && i < b {
      CancelByMirror(a, b, i);
      CancelMirror(CancelBy(a, b, i).0, CancelBy(a, b, i).1, i + 1);
    }
  }

  lemma {:induction false} CancelByMirror(a: nat, b: nat, i: nat)
    requires a > 0 && b > 0 && i >= 2
    ensures CancelBy(b, a, i) == (CancelBy(a, b, i).1, CancelBy(a, b, i).0)
    decreases a
  {
    if a % i == 0 && b % i == 0 {
      Smaller(a, i);
      Smaller(b, i);
      CancelByMirror(a / i, b / i, i);
    }
  }

  // ------------------------------------------------------------------ when one side divides the other

  lemma {:induction false} CancelByStrips(x: nat, c: nat, i: nat)
    requires x > 0 && c > 0 && i >= 2
    ensures c * x > 0 && CancelBy(x, c * x, i) == (Strip(x, i), c * Strip(x, i))
    decreases x
  {
    assert c * x > 0;
    if x % i == 0 {
      Smaller(x, i);
      TimesKeeps(x, c, i);
      assert c * x == x * c;
      assert c * x == i * (c * (x / i)) by { assert c * (i * (x / i)) == i * (c * (x / i)); }
      Multiple(i, c * (x / i));
      CancelByStrips(x / i, c, i);
    }
  }

  /** No number from 2 up to i divides x. */
  ghost predicate NoSmall(x: nat, i: nat) {
    forall j :: 2 <= j < i ==> x % j != 0
  }

  lemma FirstDivisorIsPrime(x: nat, i: nat)
    requires i >= 2 && x % i == 0 && NoSmall(x, i)
    ensures Prime(i)
  {
    forall d | 2 <= d < i ensures i % d != 0 {
      if i % d == 0 { DividesThrough(x, i, d); }
    }
  }

  /** Taking out the smallest prime factor does not change whether the largest divides twice. */
  lemma LargestSurvives(x: nat, i: nat)
    requires x > 0 && Prime(i) && x % i == 0 && NoSmall(x, i) && Strip(x, i) > 1
    ensures LargestPrimeTwice(x) <==> LargestPrimeTwice(Strip(x, i))
  {
    if p: nat :| TwiceAt(Strip(x, i), p) {
      LargestOfWhole(x, i, p);
      StripKeeps(x, i, p);
      assert TwiceAt(x, p);
    }
    if p: nat :| TwiceAt(x, p) {
      LargestOfStripped(x, i, p);
      StripKeeps(x, i, p);
      assert TwiceAt(Strip(x, i), p);
    }
  }

  lemma LargestOfWhole(x: nat, i: nat, p: nat)
    requires x > 0 && Prime(i) && NoSmall(x, i) && LargestPrime(Strip(x, i), p)
    ensures p != i && LargestPrime(x, p)
  {
    StripKeeps(x, i, p);
    assert p != i;
    forall q: nat | Prime(q) && x % q == 0 ensures q <= p {
      if q != i { StripKeeps(x, i, q); }
    }
  }

  lemma LargestOfStripped(x: nat, i: nat, p: nat)
    requires x > 0 && Prime(i) && NoSmall(x, i) && Strip(x, i) > 1 && LargestPrime(x, p)
    ensures p != i && LargestPrime(Strip(x, i), p)
  {
    var y := Strip(x, i);
    var r := PrimeFactor(y);
    StripDivides(x, i);
    DividesThrough(x, y, r);
    assert r >= i && r != i;
    StripKeeps(x, i, p);
    forall q: nat | Prime(q) && y % q == 0 ensures q <= p { DividesThrough(x, y, q); }
  }

  lemma StripNoSmall(x: nat, i: nat)
    requires x > 0 && i >= 2 && NoSmall(x, i)
    ensures NoSmall(Strip(x, i), i + 1)
  {
    StripDivides(x, i);
    forall j | 2 <= j < i + 1 ensures Strip(x, i) % j != 0 {
      if j < i && Strip(x, i) % j == 0 { DividesThrough(x, Strip(x, i), j); }
    }
  }

  /** What stays undivided by all numbers below it is prime, and divides itself once. */
  lemma PrimeOnce(x: nat)
    requires x >= 2 && NoSmall(x, x)
    ensures !LargestPrimeTwice(x)
  {
    forall p: nat ensures !TwiceAt(x, p) { NotTwice(x, p); }
  }

  lemma NotTwice(x: nat, p: nat)
    requires x >= 2 && NoSmall(x, x)
    ensures !TwiceAt(x, p)
  {
    if p == x {
      SquareLarger(x);
      DivModUnique(x, Square(x), 0, x);
    } else if p > x {
      DivModUnique(x, p, 0, x);
    }
  }

  lemma SquareLarger(x: nat)
    requires x >= 2
    ensures x < Square(x)
  {
    MulAtLeast(x, x - 1);
    assert x * x == x * (x - 1) + x;
  }

  /** When one side divides the other, cancelling ends at 1 if and only if the largest prime factor of
      the smaller side divides it at least twice. */
  lemma {:induction false} DividingSide(x: nat, c: nat, i: nat)
    requires x > 1 && c > 0 && i >= 2 && NoSmall(x, i)
    ensures c * x > 0 && CancelFrom(x, c * x, i).1 == c * CancelFrom(x, c * x, i).0
    ensures CancelFrom(x, c * x, i).0 == 1 <==> LargestPrimeTwice(x)
    decreases if x > i then x - i else 0
  {
    assert c * x >= x by { MulAtLeast(x, c); assert x * c == c * x; }
    if i < x {
      var y := Strip(x, i);
      CancelByStrips(x, c, i);
      StripNoSmall(x, i);
      if y > 1 {
        DividingSide(y, c, i + 1);
        if x % i == 0 {
          FirstDivisorIsPrime(x, i);
          LargestSurvives(x, i);
        }
      } else {
        FirstDivisorIsPrime(x, i);
        AllOnePrime(x, i);
      }
    } else {
      PrimeOnce(x);
    }
  }

  lemma AllOnePrime(x: nat, i: nat)
    requires x > i && Prime(i) && Strip(x, i) == 1
    ensures LargestPrimeTwice(x)
  {
    StripDivides(x, i);
    StripPower(x, i);
    forall q: nat | Prime(q) && x % q == 0 ensures q <= i {
      if q != i {
        StripKeeps(x, i, q);
        DivModUnique(1, q, 0, 1);
      }
    }
    assert TwiceAt(x, i);
  }

  // ------------------------------------------------------------------ the condition on the size

  function Lo(w: nat, h: nat): nat { if w < h then w else h }
  function Hi(w: nat, h: nat): nat { if w < h then h else w }

  /** What a caller can see of the size beforehand. */
  ghost predicate ReducesFully(w: nat, h: nat)
    requires w > 0 && h > 0
  {
    Lo(w, h) == 1 || Hi(w, h) % Lo(w, h) != 0 || LargestPrimeTwice(Lo(w, h))
  }

  lemma LoneSide(x: nat, y: nat)
    requires x > 0 && y > 0 && NoCommon(x, y, Lo(x, y))
    ensures Simplest(x, y) <==> Lo(x, y) == 1 || Hi(x, y) % Lo(x, y) != 0
  {
    var lo, hi := Lo(x, y), Hi(x, y);
    if lo > 1 && hi % lo == 0 {
      Multiple(lo, 1);
      assert x % lo == 0 && y % lo == 0;
    }
    forall j | j >= 2 && x % j == 0 && y % j == 0 ensures lo > 1 && hi % lo == 0 {
      if j > lo { DivModUnique(lo, j, 0, lo); }
    }
  }

  /** If the result's smaller side divides its larger one, so did the size's. */
  lemma SidesDivide(w: nat, h: nat, x: nat, y: nat, g: nat)
    requires Ratio(w, h, x, y, g) && x <= y && y % x == 0
    ensures w <= h && w > 0 && h % w == 0
  {
    Quotient(y, x);
    var c := y / x;
    assert w > 0 && h == w * c by { assert g * (x * c) == (g * x) * c; }
    Multiple(w, c);
    assert c >= 1;
    MulAtLeast(w, c);
  }

  /** The comment says that the ratio is cancelled to its simplest form. That holds if and only if the
      smaller side is 1, or does not divide the larger, or its largest prime factor divides it at least
      twice. */
  lemma SimplestExactlyWhen(w: nat, h: nat)
    requires w > 0 && h > 0
    ensures Simplest(Cancelled(w, h).0, Cancelled(w, h).1) <==> ReducesFully(w, h)
  {
    if w <= h {
      SimplestTall(w, h);
    } else {
      SimplestTall(h, w);
      CancelMirror(h, w, 2);
    }
  }

  lemma SimplestTall(w: nat, h: nat)
    requires 0 < w <= h
    ensures Simplest(Cancelled(w, h).0, Cancelled(w, h).1) <==> ReducesFully(w, h)
  {
    var (x, y) := Cancelled(w, h);
    var g := CancelledRatio(w, h);
    LoneSide(x, y);
    StillTall(w, h, x, y, g);
    if w > 1 && h % w == 0 {
      WhenDivided(w, h);
    } else if y % x == 0 {
      SidesDivide(w, h, x, y, g);
    }
  }

  lemma StillTall(w: nat, h: nat, x: nat, y: nat, g: nat)
    requires w <= h && Ratio(w, h, x, y, g)
    ensures x <= y
  {
    if y < x { MulAtLeast(g, x - y); MulAdd(g, x - y, y); }
  }

  lemma WhenDivided(w: nat, h: nat)
    requires 1 < w <= h && h % w == 0
    ensures var (x, y) := Cancelled(w, h); y % x == 0 && (x == 1 <==> LargestPrimeTwice(w))
  {
    var c := QuotientLeft(h, w);
    DividingSide(w, c, 2);
    MultipleLeft(Cancelled(w, h).0, c);
  }

  lemma QuotientLeft(h: nat, w: nat) returns (c: nat)
    requires 0 < w <= h && h % w == 0
    ensures c > 0 && h == c * w
  {
    Quotient(h, w);
    c := h / w;
  }

  lemma MultipleLeft(x: nat, c: nat)
    requires x > 0
    ensures (c * x) % x == 0
  {
    Multiple(x, c);
    assert c * x == x * c;
  }

  // ------------------------------------------------------------------ a size that is not reduced

  /** The loop leaves a size alone that has no common divisor below its smaller side. */
  lemma {:induction false} CancelKeeps(a: nat, b: nat, i: nat)
    requires a > 0 && b > 0 && i >= 2 && NoCommon(a, b, Lo(a, b))
    ensures CancelFrom(a, b, i) == (a, b)
    decreases if a > i then a - i else 0
  {
    if i < a && i < b {
      assert CancelBy(a, b, i) == (a, b);
      CancelKeeps(a, b, i + 1);
    }
  }

  /** 47 by 11750 stays as it is, although it is 1 to 250. */
  lemma NotSimplest()
    ensures Cancelled(47, 11750) == (47, 11750) && !Simplest(47, 11750) && !ReducesFully(47, 11750)
  {
    forall j | 2 <= j < 47 ensures 47 % j != 0 { PrimeBelow47(j); }
    CancelKeeps(47, 11750, 2);
    assert 47 % 47 == 0 && 11750 % 47 == 0;
    SimplestExactlyWhen(47, 11750);
  }

  lemma PrimeBelow47(j: nat)
    requires 2 <= j < 47
    ensures 47 % j != 0
  {}
}
