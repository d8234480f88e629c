/** The choice of a screen size that fits the frame buffers (virtio/device-gpu.c, getBestSize). */
module BestSize {
  import opened Blitter
  import opened AspectRatio

  const MINBUF: nat := 0x200000
  const MAXSIDE: nat := 32767
  const k32bit: Depth := 5

  datatype Mode = Mode(enabled: bool, width: nat, height: nat)

  /** Rows at 32 bits need no padding. */
  lemma Rowbytes32(w: nat)
    ensures RowbytesForBack(k32bit, w) == 4 * w
  {}

  // ------------------------------------------------------------------ shrinking

  /** Twice the cross-multiplied error of w:h against wr:hr. */
  function Error2(w: int, h: int, wr: int, hr: int): int {
    var e := w * hr - h * wr;
    2 * (if e < 0 then -e else e)
  }

  /** The error of the last approximate step is at most half the divisor it rounded by; a size that
      was not approximated has none. */
  ghost predicate Close(w: int, h: int, wr: nat, hr: nat) {
    Error2(w, h, wr, hr) <= wr || Error2(w, h, wr, hr) <= hr
  }

  predicate Fits(w: int, h: int, bufsize: nat) {
    h * (4 * w) <= bufsize
  }

  /** `a / b` to the nearest whole number. */
  function Nearest(a: nat, b: nat): nat
    requires b > 0
  {
    (a + b / 2) / b
  }

  lemma NearestIs(a: nat, b: nat)
    requires b > 0
    ensures -(b as int) <= 2 * (Nearest(a, b) * b - a) <= b
  {
    var x := a + b / 2;
    assert x == b * (x / b) + x % b;
  }

  /** n is the whole number nearest to a * b / c, the larger one if two are equally near. */
  predicate Near(n: int, a: int, b: int, c: int) {
    -c < 2 * (n * c - a * b) <= c
  }

  lemma NearestNear(a: nat, b: nat, c: nat)
    requires c > 0
    ensures Near(Nearest(a * b, c), a, b, c)
  {
    var x := a * b + c / 2;
    assert x == c * (x / c) + x % c;
  }

  lemma NearUnique(n: int, m: int, a: int, b: int, c: int)
    requires Near(n, a, b, c) && Near(m, a, b, c)
    ensures n == m
  {
    assert n * c - m * c == (n - m) * c && m * c - n * c == (m - n) * c;
    if n > m { Times(n - m, c); }
    if m > n { Times(m - n, c); }
  }

  lemma Times(d: int, c: int)
    requires d >= 1 && c > 0
    ensures d * c >= c
  {}

  /** It does not matter whether the ratio b : c is cancelled. */
  lemma NearScaled(n: int, a: int, b: int, c: int, g: nat)
    requires g > 0
    ensures Near(n, a, g * b, g * c) <==> Near(n, a, b, c)
  {
    var x := 2 * (n * c - a * b);
    assert 2 * (n * (g * c) - a * (g * b)) == g * x by {
      assert n * (g * c) == g * (n * c) && a * (g * b) == g * (a * b);
      assert g * x == 2 * (g * (n * c)) - 2 * (g * (a * b));
    }
    ScaledOrder(g, x, c);
    ScaledOrder(g, -c, x);
    assert g * -c == -(g * c);
    ScaledStrict(g, x, -c);
  }

  lemma ScaledOrder(g: nat, x: int, y: int)
    requires g > 0
    ensures g * x <= g * y <==> x <= y
  {
    if x <= y { assert g * (y - x) >= 0; } else { Times(x - y, g); assert g * x - g * y == (x - y) * g; }
  }

  lemma ScaledStrict(g: nat, x: int, y: int)
    requires g > 0
    ensures g * x > g * y <==> x > y
  {
    ScaledOrder(g, x, y);
  }

  /** Both sides are well above 2 while the size does not fit. */
  lemma SidesLarge(w: nat, h: nat, bufsize: nat)
    requires 1 <= w <= MAXSIDE && 1 <= h <= MAXSIDE && bufsize >= MINBUF && !Fits(w, h, bufsize)
    ensures w >= 17 && h >= 17
  {
    if w <= 16 { MulLess(h, 4 * w, MAXSIDE, 64); }
    if h <= 16 { MulLess(h, 4 * w, 16, 4 * MAXSIDE); }
  }

  /** One approximate step that takes 1 off the side `a`, with ratio ar, and rounds the side `b`. The
      new b is at least 1 and no larger than before. */
  lemma StepBounds(a: nat, b: nat, ar: nat, br: nat)
    requires a >= 17 && b >= 17 && ar > 0 && br > 0 && Close(b, a, br, ar) && b >= a
    ensures 1 <= Nearest((a - 1) * br, ar) <= b
  {
    var n, p, q, r := StepProducts(a, b, ar, br);
    StepLinear(p, q, ar, br, r, n, b);
  }

  /** The products that the step compares, with what is known of them. */
  lemma StepProducts(a: nat, b: nat, ar: nat, br: nat) returns (n: nat, p: int, q: int, r: int)
    requires a >= 17 && b >= 17 && ar > 0 && br > 0 && Close(b, a, br, ar)
    ensures n == Nearest((a - 1) * br, ar) && q >= 17 * ar && p >= 17 * br
    ensures -(ar as int) <= 2 * (r - (p - br)) <= ar
    ensures -(ar as int) <= 2 * (q - p) <= ar || -(br as int) <= 2 * (q - p) <= br
    ensures (n == 0 ==> r == 0) && (n > b ==> r >= q + ar)
  {
    p, q := a * br, b * ar;
    n, r := RoundProducts(a, b, ar, br, p, q);
    CloseIs(b, a, br, ar, q, p);
    MulLess(17, ar, b, ar);
    MulLess(17, br, a, br);
  }

  lemma RoundProducts(a: nat, b: nat, ar: nat, br: nat, p: int, q: nat) returns (n: nat, r: int)
    requires a > 0 && ar > 0 && p == a * br && q == b * ar
    ensures n == Nearest((a - 1) * br, ar) && -(ar as int) <= 2 * (r - (p - br)) <= ar
    ensures (n == 0 ==> r == 0) && (n > b ==> r >= q + ar)
  {
    n := Nearest((a - 1) * br, ar);
    r := n * ar;
    Rounded(a, ar, br, n, r);
    Above(n, b, ar, q, r);
  }

  lemma Rounded(a: nat, ar: nat, br: nat, n: nat, r: int)
    requires a > 0 && ar > 0 && n == Nearest((a - 1) * br, ar) && r == n * ar
    ensures -(ar as int) <= 2 * (r - (a * br - br)) <= ar
  {
    NearestIs((a - 1) * br, ar);
    Expand(a, br);
  }

  lemma CloseIs(w: int, h: int, wr: nat, hr: nat, x: int, y: int)
    requires x == w * hr && y == h * wr
    ensures Close(w, h, wr, hr) <==> -(hr as int) <= 2 * (x - y) <= hr || -(wr as int) <= 2 * (x - y) <= wr
  {}

  lemma Above(n: nat, b: nat, ar: nat, q: nat, r: nat)
    requires q == b * ar && r == n * ar
    ensures n > b ==> r >= q + ar
    ensures n == 0 ==> r == 0
  {
    if n > b {
      MulLess(b + 1, ar, n, ar);
    }
  }

  lemma StepError(a: nat, ar: nat, br: nat)
    requires a > 0 && ar > 0
    ensures Error2(Nearest((a - 1) * br, ar), a - 1, br, ar) <= ar
  {
    NearestIs((a - 1) * br, ar);
  }

  lemma Expand(x: int, y: int)
    ensures (x - 1) * y == x * y - y
  {}

  lemma StepLinear(p: int, q: int, ar: int, br: int, r: int, n: nat, b: int)
    requires ar > 0 && br > 0 && q >= 17 * ar && p >= 17 * br
    requires -ar <= 2 * (r - (p - br)) <= ar
    requires -ar <= 2 * (q - p) <= ar || -br <= 2 * (q - p) <= br
    requires n == 0 ==> r == 0
    requires n > b ==> r >= q + ar
    ensures 1 <= n <= b
  {}

  // ------------------------------------------------------------------ the loop

  predicate Small(wr: nat, hr: nat) {
    wr <= 256 && hr <= 256
  }

  ghost predicate Shape(w: nat, h: nat, wr: nat, hr: nat, k: nat) {
    && 1 <= w <= MAXSIDE && 1 <= h <= MAXSIDE && wr > 0 && hr > 0
    && Close(w, h, wr, hr)
    && (Small(wr, hr) ==> w == k * wr && h == k * hr)
  }

  /** The ratio of the original size, itself exact. */
  lemma StartShape(w: nat, h: nat, wr: nat, hr: nat, g: nat)
    requires Ratio(w, h, wr, hr, g) && 1 <= w <= MAXSIDE && 1 <= h <= MAXSIDE
    ensures Shape(w, h, wr, hr, g)
  {
    Exact(wr, hr, g);
  }

  lemma Exact(wr: nat, hr: nat, k: nat)
    ensures (k * wr) * hr == (k * hr) * wr && Error2(k * wr, k * hr, wr, hr) == 0
  {
    assert (k * wr) * hr == k * (wr * hr) && (k * hr) * wr == k * (wr * hr);
  }

  /** A small ratio leaves room for one more exact step while the size does not fit. */
  lemma SmallStep(w: nat, h: nat, wr: nat, hr: nat, k: nat, bufsize: nat)
    requires Shape(w, h, wr, hr, k) && Small(wr, hr) && !Fits(w, h, bufsize) && bufsize >= MINBUF
    ensures k >= 2 && w > wr && h > hr && Shape(w - wr, h - hr, wr, hr, k - 1)
  {
    if k <= 1 {
      MulLess(k * hr, 4 * (k * wr), 256, 1024);
    } else {
      MulLess(2, wr, k, wr);
      MulLess(2, hr, k, hr);
      assert (k - 1) * wr == k * wr - wr && (k - 1) * hr == k * hr - hr;
      Exact(wr, hr, k - 1);
    }
  }

  /** Of a size that is wider than high, the width is the one nearest for the height; else the height is
      the one nearest for the width. */
  predicate OnTrack(w: int, h: int, wr: int, hr: int) {
    if wr > hr then Near(w, h, wr, hr) else Near(h, w, hr, wr)
  }

  /** A wide ratio gives a square at most. */
  lemma SquareAtMost(w: nat, h: nat, wr: nat, hr: nat)
    requires h > 0 && wr > hr > 0 && Near(w, h, wr, hr) && w <= h
    ensures w == h && 2 * (w * (wr - hr)) < hr
  {
    var d := wr - hr;
    assert w * hr - h * wr == -((h - w) * hr) - h * d;
    Times(d, h);
    assert d * h == h * d;
    if w < h { Times(h - w, hr); }
  }

  /** Once it does, the next size is a square too. */
  lemma SquareStep(w: nat, h: nat, wr: nat, hr: nat)
    requires w >= 2 && wr > hr > 0 && Near(w, h, wr, hr) && w <= h
    ensures w == h && Nearest((w - 1) * hr, wr) == w - 1 && Near(w - 1, w - 1, wr, hr)
  {
    SquareAtMost(w, h, wr, hr);
    var v, d := w - 1, wr - hr;
    var x, y, z := v * d, v * wr, v * hr;
    assert y - z == x;
    assert w * d == x + d;
    assert x >= 0;
    NearestNear(v, hr, wr);
    NearUnique(v, Nearest(v * hr, wr), v, hr, wr);
  }

  /** A tall ratio never gives a size wider than high. */
  lemma NeverWide(w: nat, h: nat, wr: nat, hr: nat)
    requires 0 < wr <= hr && Near(h, w, hr, wr)
    ensures w <= h
  {
    assert h * wr - w * hr == -((w - h) * wr) - w * (hr - wr) && w * (hr - wr) >= 0;
    if w > h { Times(w - h, wr); }
  }

  /** One pass of the loop body. */
  method Step(w: nat, h: nat, wr: nat, hr: nat, ghost k: nat, bufsize: nat) returns (w': nat, h': nat, ghost k': nat)
    requires Shape(w, h, wr, hr, k) && !Fits(w, h, bufsize) && bufsize >= MINBUF
    requires !Small(wr, hr) ==> OnTrack(w, h, wr, hr)
    ensures Shape(w', h', wr, hr, k') && w' <= w && h' <= h && w' + h' < w + h
    ensures Small(wr, hr) ==> w' + wr == w && h' + hr == h
    ensures !Small(wr, hr) ==> OnTrack(w', h', wr, hr) && if wr > hr then h' == h - 1 else w' == w - 1
  {
    k' := 0;
    SidesLarge(w, h, bufsize);
    if wr <= 256 && hr <= 256 {
      SmallStep(w, h, wr, hr, k, bufsize);
      w', h', k' := w - wr, h - hr, k - 1;
    } else if w > h {
      StepBounds(h, w, hr, wr);
      StepError(h, hr, wr);
      if wr <= hr { NeverWide(w, h, wr, hr); }
      NearestNear(h - 1, wr, hr);
      h' := h - 1;
      w' := (h' * wr + hr / 2) / hr;
    } else {
      Mirror(w, h, wr, hr);
      StepBounds(w, h, wr, hr);
      StepError(w, wr, hr);
      if wr > hr { SquareStep(w, h, wr, hr); }
      NearestNear(w - 1, hr, wr);
      w' := w - 1;
      h' := (w' * hr + wr / 2) / wr;
      Mirror(w', h', wr, hr);
    }
  }

  lemma Mirror(w: int, h: int, wr: nat, hr: nat)
    ensures Error2(w, h, wr, hr) == Error2(h, w, hr, wr)
    ensures Close(w, h, wr, hr) <==> Close(h, w, hr, wr)
  {}

  /** No larger size fits whose width is the nearest for its height. */
  ghost predicate WidestFit(w0: nat, h0: nat, h: nat, bufsize: nat) {
    forall x: nat, y: nat :: h < y <= h0 && Near(x, y, w0, h0) ==> !Fits(x, y, bufsize)
  }

  ghost predicate TallestFit(w0: nat, h0: nat, w: nat, bufsize: nat) {
    forall x: nat, y: nat :: w < x <= w0 && Near(y, x, h0, w0) ==> !Fits(x, y, bufsize)
  }

  /** What getBestSize promises for a device size that is too large: a positive size that fits. With a
      small cancelled ratio it is the largest that has exactly the device's aspect. Otherwise, of the sizes
      whose longer side is the nearest for the shorter by the device's aspect, it is the largest that
      fits. */
  ghost predicate Shrunk(w0: nat, h0: nat, w: nat, h: nat, bufsize: nat)
    requires w0 > 0 && h0 > 0
  {
    var (wr, hr) := Cancelled(w0, h0);
    && 1 <= w <= w0 && 1 <= h <= h0 && Fits(w, h, bufsize)
    && (Small(wr, hr) ==> w * hr == h * wr && w * h0 == h * w0 && !Fits(w + wr, h + hr, bufsize))
    && (!Small(wr, hr) && w0 > h0 ==> h < h0 && Near(w, h, w0, h0) && WidestFit(w0, h0, h, bufsize))
    && (!Small(wr, hr) && w0 <= h0 ==> w < w0 && Near(h, w, h0, w0) && TallestFit(w0, h0, w, bufsize))
  }

  /** The same for the cancelled ratio, while the loop runs. */
  ghost predicate Passed(w0: nat, h0: nat, w: nat, h: nat, wr: nat, hr: nat, bufsize: nat) {
    forall x: nat, y: nat :: OnTrack(x, y, wr, hr) && (if wr > hr then h < y <= h0 else w < x <= w0) ==> !Fits(x, y, bufsize)
  }

  lemma PassedNext(w0: nat, h0: nat, w: nat, h: nat, w': nat, h': nat, wr: nat, hr: nat, bufsize: nat)
    requires Passed(w0, h0, w, h, wr, hr, bufsize) && OnTrack(w, h, wr, hr) && !Fits(w, h, bufsize)
    requires if wr > hr then h' == h - 1 else w' == w - 1
    ensures Passed(w0, h0, w', h', wr, hr, bufsize)
  {
    forall x: nat, y: nat | OnTrack(x, y, wr, hr) && (if wr > hr then h' < y <= h0 else w' < x <= w0)
      ensures !Fits(x, y, bufsize)
    {
      if wr > hr && y == h { NearUnique(x, w, h, wr, hr); }
      if wr <= hr && x == w { NearUnique(y, h, w, hr, wr); }
    }
  }

  lemma RatioOrder(w0: nat, h0: nat, wr: nat, hr: nat, g: nat)
    requires Ratio(w0, h0, wr, hr, g)
    ensures w0 > h0 <==> wr > hr
  {
    ScaledStrict(g, wr, hr);
  }

  lemma LargestOnTrack(w0: nat, h0: nat, w: nat, h: nat, wr: nat, hr: nat, g: nat, bufsize: nat)
    requires Ratio(w0, h0, wr, hr, g) && OnTrack(w, h, wr, hr) && Passed(w0, h0, w, h, wr, hr, bufsize)
    ensures if w0 > h0 then Near(w, h, w0, h0) && WidestFit(w0, h0, h, bufsize)
            else Near(h, w, h0, w0) && TallestFit(w0, h0, w, bufsize)
  {
    RatioOrder(w0, h0, wr, hr, g);
    if wr > hr {
      NearScaled(w, h, wr, hr, g);
      forall x: nat, y: nat | h < y <= h0 && Near(x, y, w0, h0) ensures !Fits(x, y, bufsize) {
        NearScaled(x, y, wr, hr, g);
        assert OnTrack(x, y, wr, hr);
      }
    } else {
      NearScaled(h, w, hr, wr, g);
      forall x: nat, y: nat | w < x <= w0 && Near(y, x, h0, w0) ensures !Fits(x, y, bufsize) {
        NearScaled(y, x, hr, wr, g);
        assert OnTrack(x, y, wr, hr);
      }
    }
  }

  lemma StartOnTrack(wr: nat, hr: nat, g: nat)
    requires wr > 0 && hr > 0
    ensures OnTrack(g * wr, g * hr, wr, hr)
  {
    Exact(wr, hr, g);
  }

  method Shrink(w0: nat, h0: nat, bufsize: nat) returns (w: nat, h: nat)
    requires 1 <= w0 <= MAXSIDE && 1 <= h0 <= MAXSIDE && bufsize >= MINBUF && !Fits(w0, h0, bufsize)
    ensures Shrunk(w0, h0, w, h, bufsize)
  {
    w, h := w0, h0;
    var wr, hr := Cancel(w, h);
    ghost var g := CancelledRatio(w, h);
    StartShape(w, h, wr, hr, g);
    StartOnTrack(wr, hr, g);
    ghost var k := g;
    var again := true;
    while again
      invariant Going(w0, h0, w, h, wr, hr, k, bufsize) && (again <==> !Fits(w, h, bufsize))
      invariant again || Stepped(w0, h0, w, h, wr, hr, bufsize)
      decreases w + h
    {
      w, h, k := NextSize(w0, h0, w, h, wr, hr, k, bufsize);
      again := TooLarge(w, h, bufsize);
    }
    if Small(wr, hr) {
      SameAspect(wr, hr, g, k);
    } else {
      RatioOrder(w0, h0, wr, hr, g);
      LargestOnTrack(w0, h0, w, h, wr, hr, g, bufsize);
    }
  }

  /** What holds of each size tried. */
  ghost predicate Going(w0: nat, h0: nat, w: nat, h: nat, wr: nat, hr: nat, k: nat, bufsize: nat) {
    && Shape(w, h, wr, hr, k) && w <= w0 && h <= h0
    && (!Small(wr, hr) ==> OnTrack(w, h, wr, hr) && Passed(w0, h0, w, h, wr, hr, bufsize))
  }

  /** At least one step has been taken, and the size before the last did not fit. */
  ghost predicate Stepped(w0: nat, h0: nat, w: nat, h: nat, wr: nat, hr: nat, bufsize: nat) {
    if Small(wr, hr) then !Fits(w + wr, h + hr, bufsize) else if wr > hr then h < h0 else w < w0
  }

  method NextSize(ghost w0: nat, ghost h0: nat, w: nat, h: nat, wr: nat, hr: nat, ghost k: nat, bufsize: nat)
    returns (w': nat, h': nat, ghost k': nat)
    requires Going(w0, h0, w, h, wr, hr, k, bufsize) && !Fits(w, h, bufsize) && bufsize >= MINBUF
    ensures Going(w0, h0, w', h', wr, hr, k', bufsize) && Stepped(w0, h0, w', h', wr, hr, bufsize) && w' + h' < w + h
  {
    w', h', k' := Step(w, h, wr, hr, k, bufsize);
    if !Small(wr, hr) { PassedNext(w0, h0, w, h, w', h', wr, hr, bufsize); }
  }

  method TooLarge(w: nat, h: nat, bufsize: nat) returns (large: bool)
    ensures large <==> !Fits(w, h, bufsize)
  {
    Rowbytes32(w);
    large := h * RowbytesForBack(k32bit, w) > bufsize;
  }

  lemma SameAspect(wr: nat, hr: nat, g: nat, k: nat)
    ensures (k * wr) * hr == (k * hr) * wr && (k * wr) * (g * hr) == (k * hr) * (g * wr)
  {
    Exact(wr, hr, k);
    Swap(k, wr, g, hr);
    Swap(k, hr, g, wr);
    assert wr * hr == hr * wr;
  }

  lemma Swap(a: int, b: int, c: int, d: int)
    ensures (a * b) * (c * d) == (a * c) * (b * d)
  {
    assert (a * b) * (c * d) == a * (b * (c * d));
    assert b * (c * d) == c * (b * d);
    assert (a * c) * (b * d) == a * (c * (b * d));
  }

  predicate Enabled(pmodes: seq<Mode>, i: nat) {
    i < |pmodes| && pmodes[i].enabled && forall j :: 0 <= j < i ==> !pmodes[j].enabled
  }

  method GetBestSize(pmodes: seq<Mode>, bufsize: nat) returns (width: nat, height: nat)
    requires |pmodes| == 16 && bufsize >= MINBUF
    requires forall i :: 0 <= i < 16 && pmodes[i].enabled ==> 1 <= pmodes[i].width <= MAXSIDE && 1 <= pmodes[i].height <= MAXSIDE
    ensures 1 <= width <= MAXSIDE && 1 <= height <= MAXSIDE && Fits(width, height, bufsize)
    ensures (forall i :: 0 <= i < 16 ==> !pmodes[i].enabled) ==> width == 800 && height == 600
    ensures forall i: nat :: Enabled(pmodes, i) ==>
              && pmodes[i].width > 0 && pmodes[i].height > 0 &&
              if Fits(pmodes[i].width, pmodes[i].height, bufsize) then width == pmodes[i].width && height == pmodes[i].height
              else Shrunk(pmodes[i].width, pmodes[i].height, width, height, bufsize)
  {
    var i := 0;
    while i < 16 && !pmodes[i].enabled
      invariant 0 <= i <= 16 && forall j :: 0 <= j < i ==> !pmodes[j].enabled
    {
      i := i + 1;
    }
    if i == 16 {
      width, height := 800, 600;
      return;
    }
    assert forall j: nat :: Enabled(pmodes, j) ==> j == i;
    width, height := pmodes[i].width, pmodes[i].height;
    var large := TooLarge(width, height, bufsize);
    if large {
      width, height := Shrink(width, height, bufsize);
    }
  }
}
