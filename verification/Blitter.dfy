/** The blitter (virtio/blit.c) and the row strides it relies on (virtio/device-gpu.c, rowbytesForBack
    and rowbytesForFront). Source rows are bytes, most significant pixel first; the destination is
    one 32-bit word for each pixel. */
module Blitter {
  import opened Words

  /** Colour tables: 256 entries each. */
  datatype Tables = Tables(clut: seq<nat>, red: seq<byte>, grn: seq<byte>, blu: seq<byte>)

  predicate Full(tb: Tables) {
    |tb.clut| == |tb.red| == |tb.grn| == |tb.blu| == 256
  }

  /** log2 of bits per pixel. */
  type Depth = d: nat | d <= 5

  /** `x << d`; the powers are written out to keep the arithmetic linear. */
  function Shl(x: nat, d: Depth): nat {
    if d == 0 then x else if d == 1 then 2 * x else if d == 2 then 4 * x else if d == 3 then 8 * x
    else if d == 4 then 16 * x else 32 * x
  }

  /** `x >> d`. */
  function Shr(x: nat, d: Depth): nat {
    if d == 0 then x else if d == 1 then x / 2 else if d == 2 then x / 4 else if d == 3 then x / 8
    else if d == 4 then x / 16 else x / 32
  }

  /** The low d bits of x. */
  function Low(x: nat, d: Depth): nat {
    if d == 0 then 0 else if d == 1 then x % 2 else if d == 2 then x % 4 else if d == 3 then x % 8
    else if d == 4 then x % 16 else x % 32
  }

  /** The table in blit.c. */
  function BlitterAlign(d: Depth): nat {
    if d == 3 then 1 else if d == 4 then 2 else 4
  }

  /** log2 of that table, and of the pixels that share one aligned unit. */
  function AlignBits(d: Depth): (k: Depth)
    ensures Shl(1, k) == BlitterAlign(d)
  {
    if d == 3 then 0 else if d == 4 then 1 else 2
  }

  function PixAlignBits(d: Depth): (k: Depth)
    ensures Shl(1, k) == Shr(Shl(BlitterAlign(d), 3), d)
  {
    if d <= 2 then 5 - d else 0
  }

  // ------------------------------------------------------------------ strides

  /** `x & -(1 << k)`. */
  function AndNeg(x: nat, k: Depth): nat {
    x - Low(x, k)
  }

  /** In two's complement that clears the bits of `(1 << k) - 1`. */
  lemma AndNegIs(x: nat, k: Depth)
    ensures AndNeg(x, k) == x - And(x, Shl(1, k) - 1)
  {
    assert Pow2(0) == 1 && Pow2(1) == 2 && Pow2(2) == 4;
    assert Pow2(3) == 8 && Pow2(4) == 16;
    assert Pow2(5) == 32;
    AndMask(x, k);
  }

  function RowbytesForBack(d: Depth, width: nat): nat {
    var size := (Shl(width, d) + 7) / 8;
    AndNeg(size + BlitterAlign(d) - 1, AlignBits(d))
  }

  function RowbytesForFront(d: Depth, width: nat): nat {
    Shl(RowbytesForBack(d, width), 5 - d)
  }

  function WidenLeft(d: Depth, l: nat): nat {
    AndNeg(l, PixAlignBits(d))
  }

  function WidenRight(d: Depth, r: nat): nat {
    AndNeg(r + Shl(1, PixAlignBits(d)) - 1, PixAlignBits(d))
  }

  /** The same for an end that may be negative, as that of an off-screen cursor is: the next multiple up. */
  function WidenEnd(d: Depth, r: int): int {
    if r >= 0 then WidenRight(d, r) else 0 - AndNeg(-r, PixAlignBits(d))
  }

  /** Pixels from one destination row to the next; the code's `rowbytes << (5 - d)` counts bytes. */
  function Stride(d: Depth, rowbytes: nat): nat {
    Shl(rowbytes, 5 - d) / 4
  }

  lemma Down(x: nat, k: Depth)
    ensures AndNeg(x, k) <= x < AndNeg(x, k) + Shl(1, k) && Low(AndNeg(x, k), k) == 0
  {
    LowOut(x, k, AndNeg(x, k));
  }

  lemma LowOut(x: nat, k: Depth, m: nat)
    requires m == x - Low(x, k)
    ensures m <= x < m + Shl(1, k) && Low(m, k) == 0
  {
    if k == 1 {
      LowOf(x, 2);
    } else if k == 2 {
      LowOf(x, 4);
    } else if k == 3 {
      LowOf(x, 8);
    } else if k == 4 {
      LowOf(x, 16);
    } else if k == 5 {
      LowOf(x, 32);
    }
  }

  lemma LowOf(x: nat, a: nat)
    requires a > 0
    ensures (x - x % a) % a == 0 && x - x % a >= 0
  {
    DivModUnique(x - x % a, a, x / a, 0);
  }

  /** Widening covers the requested span, stays aligned, and is the least span that does. */
  lemma Widened(d: Depth, l: nat, r: nat)
    ensures var k := PixAlignBits(d);
            && WidenLeft(d, l) <= l < WidenLeft(d, l) + Shl(1, k) && Low(WidenLeft(d, l), k) == 0
            && r <= WidenRight(d, r) < r + Shl(1, k) && Low(WidenRight(d, r), k) == 0
  {
    Down(l, PixAlignBits(d));
    Down(r + Shl(1, PixAlignBits(d)) - 1, PixAlignBits(d));
  }

  /** A negative end too goes to the next multiple, which is not positive. */
  lemma WidenedEnd(d: Depth, r: int)
    ensures var k, w := PixAlignBits(d), WidenEnd(d, r);
            && r <= w < r + Shl(1, k) && Low(if w >= 0 then w else -w, k) == 0 && (w > 0 <==> r > 0)
  {
    if r >= 0 {
      WidenedRight(d, r);
    } else {
      Down(-r, PixAlignBits(d));
    }
  }

  lemma WidenedRight(d: Depth, r: nat)
    ensures var k, w := PixAlignBits(d), WidenRight(d, r);
            r <= w < r + Shl(1, k) && Low(w, k) == 0 && (w > 0 <==> r > 0)
  {
    Widened(d, 0, r);
    var k, w := PixAlignBits(d), WidenRight(d, r);
    if r == 0 { LowSmall(w, k); }
  }

  lemma LowSmall(w: nat, k: Depth)
    requires w < Shl(1, k) && Low(w, k) == 0
    ensures w == 0
  {}

  predicate Fitting(d: Depth, rb: nat, front: nat, wr: nat) {
    && Low(rb, AlignBits(d)) == 0
    && wr <= Stride(d, rb)
    && 4 * Stride(d, rb) == front
    && Shl(Stride(d, rb), d) == 8 * rb
  }

  /** The strides fit the widened span: a row of the back buffer holds every source pixel of it, a row
      of the front buffer is exactly `Stride` whole pixels, and the two keep the same ratio. */
  lemma StrideFits(d: Depth, width: nat, r: nat)
    requires r <= width
    ensures Fitting(d, RowbytesForBack(d, width), RowbytesForFront(d, width), WidenRight(d, r))
  {
    Widened(d, 0, r);
    BackFits(d, width);
    StrideArithmetic(d, width, r, RowbytesForBack(d, width), WidenRight(d, r));
  }

  lemma BackFits(d: Depth, width: nat)
    ensures (Shl(width, d) + 7) / 8 <= RowbytesForBack(d, width) && Low(RowbytesForBack(d, width), AlignBits(d)) == 0
  {
    UpTo((Shl(width, d) + 7) / 8, AlignBits(d));
  }

  /** A row of the back buffer takes the least number of whole units that hold its pixels, a unit being the
      bytes that Blit reads at once; a row of the front buffer takes as many times that as four bytes are
      more than a pixel. */
  lemma RowbytesLeast(d: Depth, width: nat, rb: nat)
    requires rb == RowbytesForBack(d, width)
    ensures var unit := if d == 3 then 1 else if d == 4 then 2 else 4;
            && rb % unit == 0 && Shl(width, d) <= 8 * rb < Shl(width, d) + 8 * unit
            && RowbytesForFront(d, width) == Shl(rb, 5 - d)
  {
    var size := (Shl(width, d) + 7) / 8;
    var k := AlignBits(d);
    UnitLeast(size, k, rb);
  }

  lemma UnitLeast(size: nat, k: Depth, rb: nat)
    requires k <= 2 && rb == AndNeg(size + Shl(1, k) - 1, k)
    ensures size <= rb < size + Shl(1, k) && rb % Shl(1, k) == 0
  {
    Down(size + Shl(1, k) - 1, k);
    UpTo(size, k);
  }

  lemma UpTo(size: nat, k: Depth)
    ensures size <= AndNeg(size + Shl(1, k) - 1, k) && Low(AndNeg(size + Shl(1, k) - 1, k), k) == 0
  {
    Down(size + Shl(1, k) - 1, k);
  }

  lemma StrideArithmetic(d: Depth, width: nat, r: nat, rb: nat, wr: nat)
    requires r <= width
    requires (Shl(width, d) + 7) / 8 <= rb && Low(rb, AlignBits(d)) == 0
    requires wr < r + Shl(1, PixAlignBits(d)) && Low(wr, PixAlignBits(d)) == 0
    ensures Fitting(d, rb, Shl(rb, 5 - d), wr)
  {
    if d == 0 {
      Arithmetic1(width, r, rb, wr);
    } else if d == 1 {
      Arithmetic2(width, r, rb, wr);
    } else if d == 2 {
      Arithmetic4(width, r, rb, wr);
    }
  }

  lemma Arithmetic1(width: nat, r: nat, rb: nat, wr: nat)
    requires r <= width && (width + 7) / 8 <= rb && rb % 4 == 0 && wr < r + 32 && wr % 32 == 0
    ensures wr <= 32 * rb / 4 && 4 * (32 * rb / 4) == 32 * rb
  {}

  lemma Arithmetic2(width: nat, r: nat, rb: nat, wr: nat)
    requires r <= width && (2 * width + 7) / 8 <= rb && rb % 4 == 0 && wr < r + 16 && wr % 16 == 0
    ensures wr <= 16 * rb / 4 && 4 * (16 * rb / 4) == 16 * rb
  {}

  lemma Arithmetic4(width: nat, r: nat, rb: nat, wr: nat)
    requires r <= width && (4 * width + 7) / 8 <= rb && rb % 4 == 0 && wr < r + 8 && wr % 8 == 0
    ensures wr <= 8 * rb / 4 && 4 * (8 * rb / 4) == 8 * rb
  {}

  // ------------------------------------------------------------------ the reference

  /** The value of source pixel x of a row, whose bits start at bit `x * 2^d` counted from the most
      significant bit of the row's first byte. */
  function Pixel(row: seq<byte>, d: Depth, x: nat): (v: nat)
    requires Shl(x + 1, d) <= 8 * |row|
  {
    if d == 0 then row[x / 8] / Pow2(7 - x % 8) % 2
    else if d == 1 then row[x / 4] / Pow2(6 - 2 * (x % 4)) % 4
    else if d == 2 then row[x / 2] / Pow2(4 - 4 * (x % 2)) % 16
    else if d == 3 then row[x]
    else if d == 4 then 0x100 * (row[2 * x] as nat) + row[2 * x + 1]
    else 0x1000000 * (row[4 * x] as nat) + 0x10000 * (row[4 * x + 1] as nat) + 0x100 * (row[4 * x + 2] as nat) + row[4 * x + 3]
  }

  /** A 5-bit component stretched to 8 bits. */
  function Five(c: nat): (r: nat)
    requires c < 32
    ensures r < 256 && (c == 31 ==> r == 255) && r / 8 == c
  {
    c * 8 + c / 4
  }

  function Join(b: byte, g: byte, r: byte): nat {
    0x1000000 * (b as nat) + 0x10000 * (g as nat) + 0x100 * (r as nat)
  }

  /** The colour that a pixel value stands for. */
  function Colour(tb: Tables, d: Depth, v: nat): nat
    requires Full(tb) && (d <= 3 ==> v < 256)
  {
    if d <= 3 then tb.clut[v]
    else if d == 4 then Join(tb.blu[Five(v % 32)], tb.grn[Five(v / 32 % 32)], tb.red[Five(v / 1024 % 32)])
    else Join(tb.blu[v % 256], tb.grn[v / 0x100 % 256], tb.red[v / 0x10000 % 256])
  }

  lemma PixelSmall(row: seq<byte>, d: Depth, x: nat)
    requires Shl(x + 1, d) <= 8 * |row|
    ensures d <= 3 ==> Pixel(row, d, x) < 256
  {}

  /** What Blit should write for pixel x of a row. */
  function Wanted(tb: Tables, d: Depth, row: seq<byte>, x: nat): nat
    requires Full(tb) && Shl(x + 1, d) <= 8 * |row|
  {
    PixelSmall(row, d, x);
    Colour(tb, d, Pixel(row, d, x))
  }

  // ------------------------------------------------------------------ words and their fields

  /** The 32-bit word at byte `i`, on a big-endian machine. */
  function Word32(row: seq<byte>, i: nat): (w: nat)
    requires i + 4 <= |row|
    ensures w < U32
  {
    0x1000000 * (row[i] as nat) + 0x10000 * (row[i + 1] as nat) + 0x100 * (row[i + 2] as nat) + row[i + 3]
  }

  /** A field that lies within one byte is the same in any number that ends in that byte. */
  lemma FieldOfLowByte(hi: nat, b: byte, e: nat, w: nat)
    requires e + w <= 8
    ensures (hi * 256 + b) / Pow2(e) % Pow2(w) == b / Pow2(e) % Pow2(w)
  {
    Pow2Add(e, w);
    Pow2Add(e + w, 8 - e - w);
    assert Pow2(8) == 256;
    LowByteArithmetic(hi, b, Pow2(e), Pow2(w), Pow2(8 - e - w));
  }

  lemma LowByteArithmetic(hi: nat, b: nat, p: nat, m: nat, rest: nat)
    requires p > 0 && m > 0 && p * m * rest == 256
    ensures (hi * 256 + b) / p % m == b / p % m
  {
    var v, z := b / p, rest * hi;
    assert hi * 256 == p * (m * z) by { Regroup(p, m, rest, hi); }
    MulAdd(p, m * z, v);
    DivModUnique(hi * 256 + b, p, m * z + v, b % p);
    MulAdd(m, z, v / m);
    DivModUnique(m * z + v, m, z + v / m, v % m);
  }

  lemma Regroup(p: nat, m: nat, rest: nat, hi: nat)
    ensures (p * m * rest) * hi == p * (m * (rest * hi))
  {
    assert (p * m * rest) * hi == (p * m) * (rest * hi);
    assert (p * m) * (rest * hi) == p * (m * (rest * hi));
  }

  /** The field of w bits whose lowest is bit e of byte j, read out of the word. */
  lemma FieldOfWord(row: seq<byte>, i: nat, j: nat, e: nat, w: nat)
    requires i + 4 <= |row| && j < 4 && e + w <= 8
    ensures Word32(row, i) / Pow2(8 * (3 - j) + e) % Pow2(w) == row[i + j] / Pow2(e) % Pow2(w)
  {
    var s := Word32(row, i);
    Pow2Add(8 * (3 - j), e);
    DivDiv(s, Pow2(8 * (3 - j)), Pow2(e));
    var hi := UpTo8(row, i, j);
    FieldOfLowByte(hi, row[i + j], e, w);
  }

  lemma UpTo8(row: seq<byte>, i: nat, j: nat) returns (hi: nat)
    requires i + 4 <= |row| && j < 4
    ensures Word32(row, i) / Pow2(8 * (3 - j)) == hi * 256 + row[i + j]
  {
    assert Pow2(8) == 256;
    Pow2Add(8, 8);
    Pow2Add(16, 8);
    if j == 0 {
      hi := 0;
    } else if j == 1 {
      hi := row[i];
    } else if j == 2 {
      hi := 0x100 * (row[i] as nat) + row[i + 1];
    } else {
      hi := 0x10000 * (row[i] as nat) + 0x100 * (row[i + 1] as nat) + row[i + 2];
    }
  }

  /** Pixels in one 32-bit word, at depths below 8 bits. */
  function PerWord(d: Depth): nat
    requires d <= 2
  {
    if d == 0 then 32 else if d == 1 then 16 else 8
  }

  /** Pixel k of a word, by the shifts and masks of blit.c. */
  function Field(s: nat, d: Depth, k: nat): nat
    requires d <= 2 && k < PerWord(d)
  {
    if d == 0 then s / Pow2(31 - k) % 2 else if d == 1 then s / Pow2(30 - 2 * k) % 4 else s / Pow2(28 - 4 * k) % 16
  }

  /** They find the pixels of the word in order, the first being pixel x. */
  lemma FieldIsPixel(row: seq<byte>, d: Depth, i: nat, x: nat, k: nat)
    requires d <= 2 && k < PerWord(d) && Shl(x, d) == 8 * i && i + 4 <= |row|
    ensures Shl(x + k + 1, d) <= 8 * |row| && Field(Word32(row, i), d, k) == Pixel(row, d, x + k)
  {
    if d == 0 {
      FieldIsPixel1(row, i, x, k);
    } else if d == 1 {
      FieldIsPixel2(row, i, x, k);
    } else {
      FieldIsPixel4(row, i, x, k);
    }
  }

  lemma FieldIsPixel1(row: seq<byte>, i: nat, x: nat, k: nat)
    requires k < 32 && x == 8 * i && i + 4 <= |row|
    ensures Field(Word32(row, i), 0, k) == Pixel(row, 0, x + k)
  {
    assert Pow2(1) == 2;
    FieldOfWord(row, i, k / 8, 7 - k % 8, 1);
    assert 8 * (3 - k / 8) + (7 - k % 8) == 31 - k;
    assert (x + k) / 8 == i + k / 8 && (x + k) % 8 == k % 8;
  }

  lemma FieldIsPixel2(row: seq<byte>, i: nat, x: nat, k: nat)
    requires k < 16 && x == 4 * i && i + 4 <= |row|
    ensures Field(Word32(row, i), 1, k) == Pixel(row, 1, x + k)
  {
    assert Pow2(2) == 4;
    FieldOfWord(row, i, k / 4, 6 - 2 * (k % 4), 2);
    assert 8 * (3 - k / 4) + (6 - 2 * (k % 4)) == 30 - 2 * k;
    assert (x + k) / 4 == i + k / 4 && (x + k) % 4 == k % 4;
  }

  lemma FieldIsPixel4(row: seq<byte>, i: nat, x: nat, k: nat)
    requires k < 8 && x == 2 * i && i + 4 <= |row|
    ensures Field(Word32(row, i), 2, k) == Pixel(row, 2, x + k)
  {
    assert Pow2(2) == 4;
    assert Pow2(4) == 16;
    FieldOfWord(row, i, k / 2, 4 - 4 * (k % 2), 4);
    assert 8 * (3 - k / 2) + (4 - 4 * (k % 2)) == 28 - 4 * k;
    assert (x + k) / 2 == i + k / 2 && (x + k) % 2 == k % 2;
  }

  /** After i left shifts of a 32-bit word its top bit is bit 31 - i of the original. */
  lemma TopBit(s: nat, i: nat)
    requires i < 32
    ensures s * Pow2(i) % U32 / 0x80000000 == s / Pow2(31 - i) % 2
  {
    assert Pow2(8) == 256;
    Pow2Add(8, 8);
    assert Pow2(15) == 32768;
    Pow2Add(16, 15);
    Pow2Add(31 - i, i);
    TopArithmetic(s, Pow2(31 - i), Pow2(i));
  }

  lemma TopArithmetic(s: nat, a: nat, b: nat)
    requires a > 0 && b > 0 && a * b == 0x80000000
    ensures s * b % U32 / 0x80000000 == s / a % 2
  {
    var v, t := s / a, s % a;
    var q, r := v / 2, v % 2;
    assert s * b == (a * b) * v + t * b by { Distribute(a, v, t, b); }
    assert t * b < a * b by { MulMono(b, t + 1, a); MulAdd(b, t, 1); }
    DivModUnique(s * b, U32, q, 0x80000000 * r + t * b);
    DivModUnique(0x80000000 * r + t * b, 0x80000000, r, t * b);
  }

  lemma Distribute(a: nat, v: nat, t: nat, b: nat)
    ensures (a * v + t) * b == (a * b) * v + t * b
  {
    assert (a * v + t) * b == (a * v) * b + t * b;
    assert (a * v) * b == (a * b) * v;
  }
}
