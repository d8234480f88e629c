/** Machine-word arithmetic shared by the other modules: powers of two and the bitwise AND of C,
    written on natural numbers. */
module Words {

  const U16: nat := 0x1_0000
  const U32: nat := 0x1_0000_0000

  /** One byte of memory. */
  type byte = b: int | 0 <= b < 256

  /** An invariant `P` stated as `forall s: Seal {:trigger Unfold(s)} :: Unfold(s) ==> P` is kept folded:
      its clauses come into play only in proofs that mention `Unfold`. */
  datatype Seal = Seal

  ghost predicate Unfold(s: Seal) { s == Seal }

  function Pow2(k: nat): (p: nat)
    ensures p >= 1
  {
    if k == 0 then 1 else 2 * Pow2(k - 1)
  }

  /** The C operator `&` on non-negative operands. */
  function And(x: nat, y: nat): nat {
    if x == 0 || y == 0 then 0 else 2 * And(x / 2, y / 2) + (if x % 2 == 1 && y % 2 == 1 then 1 else 0)
  }

  /** `x & -2^k`: rounds down to a multiple of 2^k. */
  function ClearLow(x: nat, k: nat): int {
    x - And(x, Pow2(k) - 1)
  }

  /** Masking with `2^k - 1` is reduction modulo 2^k. */
  lemma {:induction false} AndMask(x: nat, k: nat)
    ensures And(x, Pow2(k) - 1) == x % Pow2(k)
  {
    if k == 0 {
      assert x % 1 == 0;
    } else if x == 0 {
      DivModUnique(0, Pow2(k), 0, 0);
    } else {
      var p := Pow2(k - 1);
      AndOdd(x, p - 1);
      AndMask(x / 2, k - 1);
      HalfMod(x, p);
    }
  }

  lemma AndOdd(x: nat, y: nat)
    requires x > 0
    ensures And(x, 2 * y + 1) == 2 * And(x / 2, y) + x % 2
  {
    assert (2 * y + 1) / 2 == y && (2 * y + 1) % 2 == 1;
  }

  lemma HalfMod(x: nat, p: nat)
    requires p > 0
    ensures x % (2 * p) == 2 * ((x / 2) % p) + x % 2
  {
    var q, r := (x / 2) / p, (x / 2) % p;
    assert x == (2 * p) * q + (2 * r + x % 2) by {
      assert (2 * p) * q == 2 * (p * q);
    }
    DivModUnique(x, 2 * p, q, 2 * r + x % 2);
  }

  lemma DivModUnique(x: int, d: int, q: int, r: int)
    requires d > 0 && 0 <= r < d && x == d * q + r
    ensures x / d == q && x % d == r
  {
    var e := x / d - q;
    assert d * (x / d) == d * e + d * q by { assert x / d == e + q; MulAdd(d, e, q); }
    assert d * e == r - x % d;
    if e >= 1 { MulAtLeast(d, e); } else if e <= -1 { MulAtLeast(d, -e); }
  }

  lemma MulAdd(d: int, a: int, b: int)
    ensures d * (a + b) == d * a + d * b
  {}

  lemma MulAtLeast(d: int, e: int)
    requires d > 0 && e >= 1
    ensures d * e >= d && d * -e <= -d
  {
    MulAdd(d, e - 1, 1);
    assert d * (e - 1) >= 0;
  }

  lemma Pow2Add(a: nat, b: nat)
    ensures Pow2(a + b) == Pow2(a) * Pow2(b)
  {
    if a != 0 {
      Pow2Add(a - 1, b);
      assert 2 * (Pow2(a - 1) * Pow2(b)) == (2 * Pow2(a - 1)) * Pow2(b);
    }
  }

  /** Reducing first modulo a multiple of `d` does not change the residue modulo `d`. */
  lemma ModMod(x: nat, d: nat, m: nat)
    requires d > 0 && m > 0
    ensures (x % (d * m)) % d == x % d
  {
    var q, r := x / (d * m), x % (d * m);
    assert x == d * (m * q) + r by { assert (d * m) * q == d * (m * q); }
    assert r == d * (r / d) + r % d;
    MulAdd(d, m * q, r / d);
    DivModUnique(x, d, m * q + r / d, r % d);
  }

  lemma DivDiv(x: nat, a: nat, b: nat)
    requires a > 0 && b > 0
    ensures a * b > 0 && x / (a * b) == x / a / b
  {
    var q, r := x / a, x % a;
    var q', r' := q / b, q % b;
    assert x == (a * b) * q' + (a * r' + r) by {
      assert a * q == a * (b * q') + a * r' by { MulAdd(a, b * q', r'); }
      assert (a * b) * q' == a * (b * q');
    }
    assert a * r' + r < a * b by {
      MulAdd(a, r', 1);
      MulMono(a, r' + 1, b);
    }
    DivModUnique(x, a * b, q', a * r' + r);
  }

  lemma MulMono(a: nat, x: nat, y: nat)
    requires x <= y
    ensures a * x <= a * y
  {
    MulAdd(a, x, y - x);
  }

  /** `m << e`. */
  function Raised(m: nat, e: nat): nat {
    if e == 0 then m else 2 * Raised(m, e - 1)
  }

  function Halved(s: nat, e: nat): nat {
    if e == 0 then s else Halved(s / 2, e - 1)
  }

  lemma {:induction false} AndRaised(s: nat, m: nat, e: nat)
    ensures And(s, Raised(m, e)) == Raised(And(Halved(s, e), m), e)
  {
    if e > 0 {
      AndDouble(s, Raised(m, e - 1));
      AndRaised(s / 2, m, e - 1);
    }
  }

  lemma {:induction false} RaisedIs(m: nat, e: nat)
    ensures Raised(m, e) == Pow2(e) * m
  {
    if e > 0 {
      RaisedIs(m, e - 1);
      assert 2 * (Pow2(e - 1) * m) == (2 * Pow2(e - 1)) * m;
    }
  }

  lemma {:induction false} HalvedIs(x: nat, e: nat)
    ensures Halved(x, e) == x / Pow2(e)
  {
    if e > 0 {
      HalvedIs(x / 2, e - 1);
      DivDiv(x, 2, Pow2(e - 1));
    }
  }

  lemma AndDouble(x: nat, y: nat)
    ensures And(x, 2 * y) == 2 * And(x / 2, y)
  {}

  lemma NextMod32(x: nat)
    ensures (x % U32 + 1) % U32 == (x + 1) % U32
  {}

  /** Two naturals less than `d` apart with the same residue modulo `d` are equal. */
  lemma ModApart(a: nat, b: nat, d: nat)
    requires d > 0 && a <= b < a + d && a % d == b % d
    ensures a == b
  {
    assert d * (b / d) - d * (a / d) == b - a;
    MulAdd(d, b / d - a / d, a / d);
    var e := b / d - a / d;
    assert d * e == b - a;
    if e >= 1 { MulAtLeast(d, e); } else if e <= -1 { MulAtLeast(d, -e); }
  }

  /** Some shift below `d` takes the residue of `h` to any `j` below `d`. */
  lemma ShiftTo(h: nat, j: nat, d: nat) returns (i: nat)
    requires j < d
    ensures i < d && (h + i) % d == j
  {
    var q, r := h / d, h % d;
    if j >= r {
      i := j - r;
      DivModUnique(h + i, d, q, j);
    } else {
      i := j + d - r;
      MulAdd(d, q, 1);
      DivModUnique(h + i, d, q + 1, j);
    }
  }

  /** The pigeonhole principle: distinct naturals below `n` number at most `n`. */
  lemma Pigeonhole(s: seq<nat>, n: nat)
    requires forall i :: 0 <= i < |s| ==> s[i] < n
    requires forall i, j :: 0 <= i < j < |s| ==> s[i] != s[j]
    ensures |s| <= n
  {
    if |s| > 0 {
      assert s[0] < n;
      if exists k :: 0 <= k < |s| && s[k] == n - 1 {
        var k :| 0 <= k < |s| && s[k] == n - 1;
        Pigeonhole(s[..k] + s[k + 1..], n - 1);
      } else {
        Pigeonhole(s, n - 1);
      }
    }
  }

  /** The naturals from `lo` up to but not including `hi`. */
  function Span(lo: nat, hi: nat): (s: set<nat>)
    ensures forall k: nat :: k in s <==> lo <= k < hi
    decreases hi - lo
  {
    if lo >= hi then {} else {lo} + Span(lo + 1, hi)
  }
}
