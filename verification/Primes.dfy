/** Divisibility and prime factors, as far as reducing an aspect ratio needs them. */
module Primes {
  import opened Words

  ghost predicate Prime(p: nat) {
    p >= 2 && forall d :: 2 <= d < p ==> p % d != 0
  }

  /** The largest prime factor of n divides it at least twice. */
  ghost predicate LargestPrimeTwice(n: nat) {
    exists p: nat :: TwiceAt(n, p)
  }

  ghost predicate TwiceAt(n: nat, p: nat) {
    LargestPrime(n, p) && n % Square(p) == 0
  }

  function Square(p: nat): (s: nat)
    ensures p > 0 ==> s > 0
  {
    p * p
  }

  ghost predicate LargestPrime(n: nat, p: nat) {
    Prime(p) && n % p == 0 && forall q: nat :: Prime(q) && n % q == 0 ==> q <= p
  }

  lemma Multiple(d: nat, k: nat)
    requires d > 0
    ensures (d * k) % d == 0 && (d * k) / d == k
  {
    DivModUnique(d * k, d, k, 0);
  }

  lemma Quotient(x: nat, d: nat)
    requires d > 0 && x % d == 0
    ensures x == d * (x / d)
  {}

  /** A divisor of a divisor is a divisor. */
  lemma DividesThrough(a: nat, i: nat, j: nat)
    requires i > 0 && j > 0 && a % i == 0 && i % j == 0
    ensures a % j == 0
  {
    Quotient(a, i);
    Quotient(i, j);
    assert a == j * ((i / j) * (a / i)) by { assert (j * (i / j)) * (a / i) == j * ((i / j) * (a / i)); }
    Multiple(j, (i / j) * (a / i));
  }

  lemma TimesKeeps(a: nat, b: nat, p: nat)
    requires p > 0 && a % p == 0
    ensures (a * b) % p == 0
  {
    Quotient(a, p);
    assert a * b == p * ((a / p) * b);
    Multiple(p, (a / p) * b);
  }

  lemma MinusMultiple(x: nat, p: nat, k: nat)
    requires p > 0 && x % p == 0 && p * k >= x
    ensures (p * k - x) % p == 0
  {
    Quotient(x, p);
    assert p * k - x == p * (k - x / p) by { MulAdd(p, k - x / p, x / p); }
    assert k - x / p >= 0 by { if k - x / p <= -1 { MulAtLeast(p, -(k - x / p)); } }
    Multiple(p, k - x / p);
  }

  /** Euclid's lemma. */
  lemma {:induction false} Euclid(a: nat, b: nat, p: nat)
    requires Prime(p) && (a * b) % p == 0
    ensures a % p == 0 || b % p == 0
    decreases a
  {
    if a >= p {
      DivMod(a, p);
      Reduce(a, b, p, a / p, a % p);
      Euclid(a % p, b, p);
      DivModUnique(a % p, p, 0, a % p);
    } else if a >= 2 {
      DivMod(p, a);
      Complement(a, b, p, p / a, p % a);
      Euclid(p % a, b, p);
      DivModUnique(p % a, p, 0, p % a);
    }
  }

  lemma DivMod(x: nat, d: nat)
    requires d > 0
    ensures x == d * (x / d) + x % d && x % d < d
  {}

  lemma Reduce(a: nat, b: nat, p: nat, q: nat, r: nat)
    requires p > 0 && a == p * q + r && (a * b) % p == 0
    ensures (r * b) % p == 0
  {
    assert a * b == p * (q * b) + r * b by { assert (p * q) * b == p * (q * b); }
    Quotient(a * b, p);
    var k := (a * b) / p - q * b;
    assert r * b == p * k by { MulAdd(p, k, q * b); }
    assert k >= 0 by { if k <= -1 { MulAtLeast(p, -k); } }
    Multiple(p, k);
  }

  lemma Complement(a: nat, b: nat, p: nat, q: nat, r: nat)
    requires p > 0 && p == a * q + r && (a * b) % p == 0
    ensures (r * b) % p == 0
  {
    assert p * b == (a * b) * q + r * b by { assert (a * q) * b == (a * b) * q; }
    TimesKeeps(a * b, q, p);
    MinusMultiple((a * b) * q, p, b);
  }

  lemma {:induction false} PrimeFactor(x: nat) returns (p: nat)
    requires x >= 2
    ensures Prime(p) && x % p == 0
  {
    if Prime(x) {
      p := x;
    } else {
      var d :| 2 <= d < x && x % d == 0;
      p := PrimeFactor(d);
      DividesThrough(x, d, p);
    }
  }

  // ------------------------------------------------------------------ taking out one prime

  /** x with every factor i taken out. */
  function Strip(x: nat, i: nat): (y: nat)
    requires x > 0 && i >= 2
    ensures 0 < y <= x && y % i != 0
  {
    if x % i == 0 then (Smaller(x, i); Strip(x / i, i)) else x
  }

  lemma Smaller(x: nat, i: nat)
    requires x > 0 && i >= 2 && x % i == 0
    ensures 0 < x / i < x && x == i * (x / i)
  {
    Quotient(x, i);
    if x / i > 0 { MulAtLeast(x / i, i - 1); assert i * (x / i) == (x / i) * (i - 1) + x / i; }
  }

  /** Another prime divides i * y as often as it divides y, up to twice. */
  lemma OtherPrime(i: nat, y: nat, q: nat)
    requires Prime(i) && Prime(q) && q != i
    ensures (i * y) % q == 0 <==> y % q == 0
    ensures (i * y) % Square(q) == 0 <==> y % Square(q) == 0
  {
    NotDivided(i, q);
    if (i * y) % q == 0 { Euclid(i, y, q); }
    if y % q == 0 { TimesKeeps(y, i, q); assert y * i == i * y; }
    if y % Square(q) == 0 { TimesKeeps(y, i, Square(q)); assert y * i == i * y; }
    if (i * y) % Square(q) == 0 { Twice(i, y, q); }
  }

  lemma NotDivided(i: nat, q: nat)
    requires Prime(i) && Prime(q) && q != i
    ensures i % q != 0
  {
    if q > i { DivModUnique(i, q, 0, i); }
  }

  lemma Twice(i: nat, y: nat, q: nat)
    requires Prime(i) && Prime(q) && q != i && q * q > 0 && (i * y) % (q * q) == 0
    ensures y % (q * q) == 0
  {
    NotDivided(i, q);
    Multiple(q, q);
    DividesThrough(i * y, q * q, q);
    Euclid(i, y, q);
    Quotient(y, q);
    var z, k := y / q, (i * y) / (q * q);
    Quotient(i * y, q * q);
    assert q * (i * z) == q * (q * k) by { assert i * (q * z) == q * (i * z) && (q * q) * k == q * (q * k); }
    Cancel(q, i * z, q * k);
    Multiple(q, k);
    Euclid(i, z, q);
    Quotient(z, q);
    assert y == (q * q) * (z / q) by { assert q * (q * (z / q)) == (q * q) * (z / q); }
    Multiple(q * q, z / q);
  }

  lemma Cancel(q: nat, a: nat, b: nat)
    requires q > 0 && q * a == q * b
    ensures a == b
  {
    Multiple(q, a);
    Multiple(q, b);
  }

  lemma {:induction false} StripKeeps(x: nat, i: nat, q: nat)
    requires x > 0 && Prime(i) && Prime(q) && q != i
    ensures x % q == 0 <==> Strip(x, i) % q == 0
    ensures x % Square(q) == 0 <==> Strip(x, i) % Square(q) == 0
  {
    if x % i == 0 {
      Smaller(x, i);
      OtherPrime(i, x / i, q);
      StripKeeps(x / i, i, q);
    }
  }

  lemma {:induction false} StripDivides(x: nat, i: nat)
    requires x > 0 && i >= 2
    ensures x % Strip(x, i) == 0
    ensures Strip(x, i) == 1 && x > i ==> x % Square(i) == 0
  {
    if x % i == 0 {
      Smaller(x, i);
      StripDivides(x / i, i);
      var y := Strip(x / i, i);
      Multiple(x / i, i);
      assert i * (x / i) == (x / i) * i;
      DividesThrough(x, x / i, y);
      if y == 1 { StripPower(x / i, i); }
    } else {
      Multiple(x, 1);
    }
  }

  /** What strips down to 1 is 1 or a multiple of i. */
  lemma StripPower(z: nat, i: nat)
    requires z > 0 && i >= 2 && Strip(z, i) == 1
    ensures z == 1 || z % i == 0
    ensures z > 1 ==> (i * z) % Square(i) == 0
  {
    if z > 1 {
      Quotient(z, i);
      assert i * z == (i * i) * (z / i) by { assert i * (i * (z / i)) == (i * i) * (z / i); }
      Multiple(i * i, z / i);
    }
  }
}
