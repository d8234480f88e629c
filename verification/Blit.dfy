/** Blit itself (virtio/blit.c): for each row, a loop over 32-bit source words at 1, 2 and 4 bits per
    pixel, or over pixels at 8, 16 and 32, storing through a moving destination pointer. */
module Blit {
  import opened Words
  import opened Blitter
  import opened Pixels

  /** A row has room for pixels below x. */
  predicate RowHolds(row: seq<byte>, d: Depth, x: nat) {
    Shl(x, d) <= 8 * |row|
  }

  lemma HoldsLess(row: seq<byte>, d: Depth, x: nat, y: nat)
    requires RowHolds(row, d, y) && x < y
    ensures Shl(x + 1, d) <= 8 * |row|
  {}

  /** `now` is `was` with pixels [l, x) of the row that starts at word `at` painted. */
  ghost predicate Painted(now: seq<nat>, was: seq<nat>, tb: Tables, d: Depth, row: seq<byte>, at: nat, l: nat, x: nat)
    requires Full(tb) && RowHolds(row, d, x)
  {
    && |now| == |was|
    && (forall p :: 0 <= p < |now| && !(at + l <= p < at + x) ==> now[p] == was[p])
    && (forall p :: at + l <= p < at + x && p < |now| ==>
          (HoldsLess(row, d, p - at, x); now[p] == Wanted(tb, d, row, p - at)))
  }

  /** The words from `at` on show pixels [l, x) of the row. */
  ghost predicate RowShown(now: seq<nat>, tb: Tables, d: Depth, row: seq<byte>, at: nat, l: nat, x: nat)
    requires Full(tb)
  {
    forall p :: at + l <= p < at + x && p < |now| ==> Shows(now[p], tb, d, row, p - at)
  }

  lemma PaintedShown(now: seq<nat>, was: seq<nat>, tb: Tables, d: Depth, row: seq<byte>, at: nat, l: nat, x: nat)
    requires Full(tb) && RowHolds(row, d, x) && Painted(now, was, tb, d, row, at, l, x)
    ensures RowShown(now, tb, d, row, at, l, x)
  {
    forall p | at + l <= p < at + x && p < |now| ensures Shows(now[p], tb, d, row, p - at) {
      HoldsLess(row, d, p - at, x);
      WantedShows(tb, d, row, p - at);
    }
  }

  lemma PaintMore(now: seq<nat>, later: seq<nat>, was: seq<nat>, tb: Tables, d: Depth, row: seq<byte>,
                  at: nat, l: nat, x: nat, y: nat)
    requires Full(tb) && RowHolds(row, d, y) && l <= x <= y && RowHolds(row, d, x)
    requires Painted(now, was, tb, d, row, at, l, x) && Painted(later, now, tb, d, row, at, x, y)
    ensures Painted(later, was, tb, d, row, at, l, y)
  {}

  /** The 1-bit inner loop: tests the top bit, then shifts left. */
  method ExpandBits(word: nat, tb: Tables, dest: array<nat>, at: nat)
    requires word < U32 && Full(tb) && at + 32 <= dest.Length
    modifies dest
    ensures forall p :: 0 <= p < dest.Length ==>
              dest[p] == if at <= p < at + 32 then tb.clut[Field(word, 0, p - at)] else old(dest[p])
  {
    var c0, c1 := tb.clut[0], tb.clut[1];
    var s := word;
    for i := 0 to 32
      invariant s == word * Pow2(i) % U32
      invariant forall p :: 0 <= p < dest.Length ==>
                  dest[p] == if at <= p < at + i then tb.clut[Field(word, 0, p - at)] else old(dest[p])
    {
      TopBit(word, i);
      dest[at + i] := if s / 0x80000000 % 2 == 1 then c1 else c0;
      ShiftLeft(word, i);
      s := s * 2 % U32;
    }
  }

  lemma ShiftLeft(word: nat, i: nat)
    ensures word * Pow2(i) % U32 * 2 % U32 == word * Pow2(i + 1) % U32
  {
    var x := word * Pow2(i);
    assert word * Pow2(i + 1) == 2 * x;
    assert 2 * x == U32 * (2 * (x / U32)) + 2 * (x % U32);
  }

  /** The 2-bit and 4-bit unrolled stores. */
  method ExpandFields(s: nat, d: Depth, tb: Tables, dest: array<nat>, at: nat)
    requires s < U32 && Full(tb) && 1 <= d <= 2 && at + PerWord(d) <= dest.Length
    modifies dest
    ensures forall p :: 0 <= p < dest.Length ==>
              dest[p] == if at <= p < at + PerWord(d) then tb.clut[Field(s, d, p - at)] else old(dest[p])
  {
    if d == 1 {
      forall i | 0 <= i < 16 {
        dest[at + i] := tb.clut[s / Pow2(30 - 2 * i) % 4];
      }
    } else {
      forall i | 0 <= i < 8 {
        dest[at + i] := tb.clut[s / Pow2(28 - 4 * i) % 16];
      }
    }
  }

  /** One source word, at byte `i` of the row; its first pixel is pixel x. */
  method ExpandWord(tb: Tables, d: Depth, row: seq<byte>, i: nat, ghost x: nat, dest: array<nat>, destctr: nat, ghost at: nat)
    requires Full(tb) && d <= 2 && Shl(x, d) == 8 * i && i + 4 <= |row|
    requires destctr == at + x && destctr + PerWord(d) <= dest.Length
    modifies dest
    ensures RowHolds(row, d, x + PerWord(d))
    ensures Painted(dest[..], old(dest[..]), tb, d, row, at, x, x + PerWord(d))
  {
    var s := Word32(row, i);
    if d == 0 {
      ExpandBits(s, tb, dest, destctr);
    } else {
      ExpandFields(s, d, tb, dest, destctr);
    }
    WordPainted(dest[..], old(dest[..]), tb, d, row, i, x, at);
  }

  lemma WordPainted(now: seq<nat>, was: seq<nat>, tb: Tables, d: Depth, row: seq<byte>, i: nat, x: nat, at: nat)
    requires Full(tb) && d <= 2 && Shl(x, d) == 8 * i && i + 4 <= |row| && |now| == |was|
    requires forall p :: 0 <= p < |now| ==>
               now[p] == if at + x <= p < at + x + PerWord(d) then tb.clut[Field(Word32(row, i), d, p - at - x)] else was[p]
    ensures RowHolds(row, d, x + PerWord(d))
    ensures Painted(now, was, tb, d, row, at, x, x + PerWord(d))
  {
    forall p | at + x <= p < at + x + PerWord(d) && p < |now|
      ensures Shl(p - at + 1, d) <= 8 * |row| && now[p] == Wanted(tb, d, row, p - at)
    {
      FieldIsPixel(row, d, i, x, p - at - x);
    }
  }

  /** A row at 1, 2 or 4 bits per pixel, between two aligned columns. */
  method WordRow(tb: Tables, d: Depth, row: seq<byte>, dest: array<nat>, at: nat, l: nat, r: nat)
    requires Full(tb) && d <= 2 && l <= r && Low(l, 5 - d) == 0 && Low(r, 5 - d) == 0
    requires RowHolds(row, d, r) && at + r <= dest.Length
    modifies dest
    ensures Painted(dest[..], old(dest[..]), tb, d, row, at, l, r)
    ensures RowShown(dest[..], tb, d, row, at, l, r)
  {
    var leftBytes := if d == 0 then l / 8 else if d == 1 then l / 4 else l / 2;
    var rightBytes := if d == 0 then r / 8 else if d == 1 then r / 4 else r / 2;
    WholeWords(d, l, leftBytes);
    WholeWords(d, r, rightBytes);
    var x, destctr := leftBytes, at + l;
    ghost var px := l;
    while x < rightBytes
      invariant l <= px <= r && Shl(px, d) == 8 * x && x % 4 == 0 && destctr == at + px
      invariant Painted(dest[..], old(dest[..]), tb, d, row, at, l, px)
      decreases rightBytes - x
    {
      ghost var now := dest[..];
      WordFits(d, px, x, r, rightBytes);
      ExpandWord(tb, d, row, x, px, dest, destctr, at);
      PaintMore(now, dest[..], old(dest[..]), tb, d, row, at, l, px, px + PerWord(d));
      px := px + PerWord(d);
      destctr := destctr + PerWord(d);
      x := x + 4;
    }
    WordsDone(d, px, x, r, rightBytes);
    PaintedShown(dest[..], old(dest[..]), tb, d, row, at, l, r);
  }

  lemma WholeWords(d: Depth, l: nat, bytes: nat)
    requires d <= 2 && Low(l, 5 - d) == 0
    requires bytes == if d == 0 then l / 8 else if d == 1 then l / 4 else l / 2
    ensures Shl(l, d) == 8 * bytes && bytes % 4 == 0
  {
    if d == 0 {
      Quarters(l / 32);
    }
  }

  lemma Quarters(q: nat)
    ensures 32 * q / 8 == 4 * q
  {}

  lemma WordFits(d: Depth, px: nat, x: nat, r: nat, rightBytes: nat)
    requires d <= 2 && Shl(px, d) == 8 * x && x % 4 == 0 && Shl(r, d) == 8 * rightBytes && rightBytes % 4 == 0
    requires x < rightBytes
    ensures px + PerWord(d) <= r && x + 4 <= rightBytes
    ensures Shl(px + PerWord(d), d) == 8 * (x + 4)
  {}

  lemma WordsDone(d: Depth, px: nat, x: nat, r: nat, rightBytes: nat)
    requires d <= 2 && Shl(px, d) == 8 * x && Shl(r, d) == 8 * rightBytes && px <= r && x >= rightBytes
    ensures px == r
  {}

  lemma Fives(x: nat)
    ensures Raised(x, 5) == 32 * x && Halved(x, 5) == x / 32
    ensures Raised(x, 10) == 1024 * x && Halved(x, 10) == x / 1024
  {
    RaisedFive(x);
    RaisedFive(32 * x);
    RaisedAdd(x, 5, 5);
    HalvedFive(x);
    HalvedFive(x / 32);
    HalvedAdd(x, 5, 5);
  }

  lemma RaisedFive(x: nat)
    ensures Raised(x, 5) == 32 * x
  {
    assert Raised(x, 1) == 2 * x;
    assert Raised(x, 2) == 4 * x;
    assert Raised(x, 3) == 8 * x;
    assert Raised(x, 4) == 16 * x;
  }

  lemma HalvedFive(x: nat)
    ensures Halved(x, 5) == x / 32
  {
    assert Halved(x / 16, 1) == x / 32;
    assert Halved(x / 8, 2) == x / 32;
    assert Halved(x / 4, 3) == x / 32;
    assert Halved(x / 2, 4) == x / 32;
  }

  lemma {:induction false} RaisedAdd(x: nat, a: nat, b: nat)
    ensures Raised(x, a + b) == Raised(Raised(x, a), b)
  {
    if b > 0 { RaisedAdd(x, a, b - 1); }
  }

  lemma {:induction false} HalvedAdd(x: nat, a: nat, b: nat)
    ensures Halved(x, a + b) == Halved(Halved(x, a), b)
  {
    if a > 0 { HalvedAdd(x / 2, a - 1, b); }
  }

  lemma Mask5(s: nat)
    ensures And(s, 31) == s % 32
  {
    assert Pow2(2) == 4 && Pow2(4) == 16;
    assert Pow2(5) == 32;
    AndMask(s, 5);
  }

  /** The masks of the 16-bit branch pick out its three components. */
  lemma Components(s: nat)
    ensures And(s, 0x1f) == s % 32
    ensures And(s, 0x3e0) / 32 == s / 32 % 32
    ensures And(s, 0x7c00) / 1024 == s / 1024 % 32
  {
    Mask5(s);
    Mask5(s / 32);
    Mask5(s / 1024);
    AndRaised(s, 31, 5);
    AndRaised(s, 31, 10);
    Fives(31);
    Fives(s);
    Fives(And(s / 32, 31));
    Fives(And(s / 1024, 31));
  }

  /** The masks of the 32-bit branch pick out bytes. */
  lemma Bytes(s: nat)
    ensures And(s, 0xff) == s % 256
  {
    assert Pow2(8) == 256;
    AndMask(s, 8);
  }

  /** `(c << 3) | (c << 3 >> 5)`: the two parts share no bit. */
  function Stretch(c: nat): nat {
    c * 8 + c * 8 / 32
  }

  lemma StretchIsFive(c: nat)
    requires c < 32
    ensures Stretch(c) == Five(c)
  {}

  method Pixel16(tb: Tables, s: nat) returns (c: nat)
    requires Full(tb)
    ensures c == Colour(tb, 4, s)
  {
    var blu, grn, red := And(s, 0x1f), And(s, 0x3e0) / 32, And(s, 0x7c00) / 1024;
    Components(s);
    StretchIsFive(blu);
    StretchIsFive(grn);
    StretchIsFive(red);
    c := 0x1000000 * (tb.blu[Stretch(blu)] as nat) + 0x10000 * (tb.grn[Stretch(grn)] as nat) +
    0x100 * (tb.red[Stretch(red)] as nat);
  }

  method Pixel32(tb: Tables, s: nat) returns (c: nat)
    requires Full(tb)
    ensures c == Colour(tb, 5, s)
  {
    Bytes(s);
    Bytes(s / 0x100);
    Bytes(s / 0x10000);
    c := 0x1000000 * (tb.blu[And(s, 0xff)] as nat) +
    0x10000 * (tb.grn[And(s / 0x100, 0xff)] as nat) +
    0x100 * (tb.red[And(s / 0x10000, 0xff)] as nat);
  }

  /** One pixel at 8, 16 or 32 bits. */
  method OnePixel(tb: Tables, d: Depth, row: seq<byte>, x: nat) returns (c: nat)
    requires Full(tb) && d >= 3 && Shl(x + 1, d) <= 8 * |row|
    ensures c == Wanted(tb, d, row, x)
  {
    if d == 3 {
      c := tb.clut[row[x]];
    } else if d == 4 {
      c := Pixel16(tb, 0x100 * (row[2 * x] as nat) + row[2 * x + 1]);
    } else {
      c := Pixel32(tb, Word32(row, 4 * x));
    }
  }

  /** A row at 8, 16 or 32 bits per pixel. */
  method PixelRow(tb: Tables, d: Depth, row: seq<byte>, dest: array<nat>, at: nat, l: nat, r: nat)
    requires Full(tb) && d >= 3 && l <= r && RowHolds(row, d, r) && at + r <= dest.Length
    modifies dest
    ensures Painted(dest[..], old(dest[..]), tb, d, row, at, l, r)
    ensures RowShown(dest[..], tb, d, row, at, l, r)
  {
    for x := l to r
      invariant RowHolds(row, d, x) && Painted(dest[..], old(dest[..]), tb, d, row, at, l, x)
    {
      ghost var now := dest[..];
      HoldsLess(row, d, x, r);
      var c := OnePixel(tb, d, row, x);
      dest[at + x] := c;
      PaintMore(now, dest[..], old(dest[..]), tb, d, row, at, l, x, x + 1);
    }
    PaintedShown(dest[..], old(dest[..]), tb, d, row, at, l, r);
  }

  // ------------------------------------------------------------------ the whole rectangle

  function RowOf(src: seq<byte>, rowbytes: nat, y: nat): (row: seq<byte>)
    requires (y + 1) * rowbytes <= |src|
    ensures |row| == rowbytes
  {
    assert (y + 1) * rowbytes == y * rowbytes + rowbytes;
    src[y * rowbytes..(y + 1) * rowbytes]
  }

  lemma RowInside(y: nat, b: nat, rowbytes: nat)
    requires y < b
    ensures y * rowbytes + rowbytes == (y + 1) * rowbytes <= b * rowbytes
  {
    MulMono(rowbytes, y + 1, b);
  }

  /** What a pixel of the destination should be: rows [t, y) and columns [l, r) show the source, and
      every other pixel is as it was. */
  ghost predicate Blitted(now: seq<nat>, was: seq<nat>, tb: Tables, d: Depth, src: seq<byte>, rowbytes: nat, stride: nat,
                          t: nat, y: nat, l: nat, r: nat)
    requires Full(tb) && stride > 0 && r <= stride && Shl(r, d) <= 8 * rowbytes && y * rowbytes <= |src|
  {
    && |now| == |was|
    && forall p :: 0 <= p < |now| ==>
         if t <= p / stride < y && l <= p % stride < r then
           (RowInside(p / stride, y, rowbytes);
            HoldsLess(RowOf(src, rowbytes, p / stride), d, p % stride, r);
            now[p] == Wanted(tb, d, RowOf(src, rowbytes, p / stride), p % stride))
         else now[p] == was[p]
  }

  /** The word shows the pixel (x, y) of a source whose rows take `rowbytes` bytes. */
  ghost predicate PixelShown(c: nat, tb: Tables, d: Depth, src: seq<byte>, rowbytes: nat, x: nat, y: nat)
    requires Full(tb)
  {
    y * rowbytes <= (y + 1) * rowbytes <= |src| && Shows(c, tb, d, src[y * rowbytes..(y + 1) * rowbytes], x)
  }

  /** Each pixel in rows [t, b) and columns [l, r) shows the one at that place in the source; every other
      one is as it was. */
  ghost predicate Drawn(now: seq<nat>, was: seq<nat>, tb: Tables, d: Depth, src: seq<byte>, rowbytes: nat, stride: nat,
                        t: nat, b: nat, l: nat, r: nat)
    requires Full(tb) && stride > 0
  {
    && |now| == |was|
    && forall p :: 0 <= p < |now| ==>
         if t <= p / stride < b && l <= p % stride < r
         then PixelShown(now[p], tb, d, src, rowbytes, p % stride, p / stride)
         else now[p] == was[p]
  }

  lemma WantedShown(tb: Tables, d: Depth, src: seq<byte>, rowbytes: nat, x: nat, y: nat, b: nat, r: nat)
    requires Full(tb) && y < b && x < r && Shl(r, d) <= 8 * rowbytes && b * rowbytes <= |src|
    ensures (y + 1) * rowbytes <= |src| && Shl(x + 1, d) <= 8 * rowbytes
    ensures PixelShown(Wanted(tb, d, RowOf(src, rowbytes, y), x), tb, d, src, rowbytes, x, y)
  {
    RowInside(y, b, rowbytes);
    HoldsLess(RowOf(src, rowbytes, y), d, x, r);
    WantedShows(tb, d, RowOf(src, rowbytes, y), x);
  }

  lemma BlittedDrawn(now: seq<nat>, was: seq<nat>, tb: Tables, d: Depth, src: seq<byte>, rowbytes: nat, stride: nat,
                     t: nat, b: nat, l: nat, r: nat)
    requires Full(tb) && stride > 0 && r <= stride && Shl(r, d) <= 8 * rowbytes && b * rowbytes <= |src|
    requires Blitted(now, was, tb, d, src, rowbytes, stride, t, b, l, r)
    ensures Drawn(now, was, tb, d, src, rowbytes, stride, t, b, l, r)
  {
    forall p | 0 <= p < |now| && t <= p / stride < b && l <= p % stride < r
      ensures PixelShown(now[p], tb, d, src, rowbytes, p % stride, p / stride)
    {
      WantedShown(tb, d, src, rowbytes, p % stride, p / stride, b, r);
    }
  }

  lemma InRow(p: nat, stride: nat, y: nat, l: nat, r: nat)
    requires stride > 0 && l <= r <= stride
    ensures y * stride + l <= p < y * stride + r <==> p / stride == y && l <= p % stride < r
    ensures p / stride == y ==> p == y * stride + p % stride
  {
    assert p == stride * (p / stride) + p % stride;
    if y * stride + l <= p < y * stride + r {
      DivModUnique(p, stride, y, p - y * stride);
    }
  }

  lemma NextRow(later: seq<nat>, now: seq<nat>, was: seq<nat>, tb: Tables, d: Depth, src: seq<byte>, rowbytes: nat, stride: nat,
                t: nat, y: nat, l: nat, r: nat)
    requires Full(tb) && stride > 0 && l <= r <= stride && Shl(r, d) <= 8 * rowbytes && (y + 1) * rowbytes <= |src| && t <= y
    requires y * rowbytes <= |src|
    requires Blitted(now, was, tb, d, src, rowbytes, stride, t, y, l, r)
    requires Painted(later, now, tb, d, RowOf(src, rowbytes, y), y * stride, l, r)
    ensures Blitted(later, was, tb, d, src, rowbytes, stride, t, y + 1, l, r)
  {
    forall p | 0 <= p < |now|
      ensures y * stride + l <= p < y * stride + r <==> p / stride == y && l <= p % stride < r
      ensures p / stride == y ==> p == y * stride + p % stride
    {
      InRow(p, stride, y, l, r);
    }
  }

  /** Blit on a back buffer whose rows are laid out by rowbytesForBack for `width` pixels. The bottom and
      right edges may lie before the top and left ones, or be negative; then no pixel is drawn. */
  method Blit(d: Depth, t: nat, l: nat, b: int, r: int, src: seq<byte>, dest: array<nat>, rowbytes: nat,
              tb: Tables, ghost width: nat)
    returns (l': nat, r': int)
    requires Full(tb) && r <= width && 0 < width && rowbytes == RowbytesForBack(d, width)
    requires b >= 0 ==> b * rowbytes <= |src| && b * Stride(d, rowbytes) <= dest.Length
    modifies dest
    ensures l' == WidenLeft(d, l) <= l && r <= r' == WidenEnd(d, r) <= Stride(d, rowbytes)
    ensures Stride(d, rowbytes) > 0 && (r' >= 0 ==> Shl(r', d) <= 8 * rowbytes)
    ensures if t < b && l' < r' then
              Drawn(dest[..], old(dest[..]), tb, d, src, rowbytes, Stride(d, rowbytes), t, b, l', r')
            else dest[..] == old(dest[..]) && (t >= b || l >= r)
  {
    EdgesFit(d, width, l, r);
    l', r' := WidenLeft(d, l), WidenEnd(d, r);
    var stride := Stride(d, rowbytes);
    if t < b && l' < r' {
      BlitRows(d, tb, src, rowbytes, stride, dest, t, b, l', r');
      BlittedDrawn(dest[..], old(dest[..]), tb, d, src, rowbytes, stride, t, b, l', r');
    }
  }

  lemma EdgesFit(d: Depth, width: nat, l: nat, r: int)
    requires r <= width && 0 < width
    ensures var rb, k := RowbytesForBack(d, width), PixAlignBits(d);
            && WidenLeft(d, l) <= l && Low(WidenLeft(d, l), k) == 0 && Stride(d, rb) > 0
            && r <= WidenEnd(d, r) <= Stride(d, rb)
            && (WidenEnd(d, r) > 0 ==> r > 0 && WidenEnd(d, r) == WidenRight(d, r) && Low(WidenRight(d, r), k) == 0)
            && (WidenEnd(d, r) >= 0 ==> Shl(WidenEnd(d, r), d) <= 8 * rb)
  {
    var end: nat := if r >= 0 then r else 0;
    Widened(d, l, end);
    StrideFits(d, width, end);
    StridePositive(d, width, WidenRight(d, end));
    WidenedEnd(d, r);
  }

  /** The loop over rows t to b. */
  method BlitRows(d: Depth, tb: Tables, src: seq<byte>, rowbytes: nat, stride: nat, dest: array<nat>,
                  t: nat, b: nat, l: nat, r: nat)
    requires Full(tb) && stride > 0 && l <= r <= stride && Shl(r, d) <= 8 * rowbytes && t < b
    requires Low(l, PixAlignBits(d)) == 0 && Low(r, PixAlignBits(d)) == 0
    requires b * rowbytes <= |src| && b * stride <= dest.Length
    modifies dest
    ensures Blitted(dest[..], old(dest[..]), tb, d, src, rowbytes, stride, t, b, l, r)
  {
    RowInside(t, b, rowbytes);
    var y := t;
    while y < b
      invariant t <= y <= b && y * rowbytes <= |src|
      invariant Blitted(dest[..], old(dest[..]), tb, d, src, rowbytes, stride, t, y, l, r)
    {
      BlitNext(d, tb, src, rowbytes, stride, dest, t, y, b, l, r, old(dest[..]));
      y := y + 1;
    }
  }

  /** Row y, after the rows from t. */
  method BlitNext(d: Depth, tb: Tables, src: seq<byte>, rowbytes: nat, stride: nat, dest: array<nat>,
                  ghost t: nat, y: nat, ghost b: nat, l: nat, r: nat, ghost was: seq<nat>)
    requires Full(tb) && stride > 0 && l <= r <= stride && Shl(r, d) <= 8 * rowbytes && t <= y < b
    requires Low(l, PixAlignBits(d)) == 0 && Low(r, PixAlignBits(d)) == 0
    requires b * rowbytes <= |src| && b * stride <= dest.Length && y * rowbytes <= |src|
    requires Blitted(dest[..], was, tb, d, src, rowbytes, stride, t, y, l, r)
    modifies dest
    ensures (y + 1) * rowbytes <= |src|
    ensures Blitted(dest[..], was, tb, d, src, rowbytes, stride, t, y + 1, l, r)
  {
    ghost var now := dest[..];
    RowInside(y, b, rowbytes);
    RowInside(y, b, stride);
    BlitRow(d, tb, RowOf(src, rowbytes, y), dest, y * stride, l, r);
    NextRow(dest[..], now, was, tb, d, src, rowbytes, stride, t, y, l, r);
  }

  method BlitRow(d: Depth, tb: Tables, row: seq<byte>, dest: array<nat>, at: nat, l: nat, r: nat)
    requires Full(tb) && l <= r && Low(l, PixAlignBits(d)) == 0 && Low(r, PixAlignBits(d)) == 0
    requires RowHolds(row, d, r) && at + r <= dest.Length
    modifies dest
    ensures Painted(dest[..], old(dest[..]), tb, d, row, at, l, r)
  {
    if d <= 2 {
      WordRow(tb, d, row, dest, at, l, r);
    } else {
      PixelRow(tb, d, row, dest, at, l, r);
    }
  }

  lemma StridePositive(d: Depth, width: nat, r: nat)
    requires 0 < width && Fitting(d, RowbytesForBack(d, width), RowbytesForFront(d, width), r)
    ensures Stride(d, RowbytesForBack(d, width)) > 0 && Shl(r, d) <= 8 * RowbytesForBack(d, width)
  {
    BackFits(d, width);
  }
}
