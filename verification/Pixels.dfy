/** What the pixels of a row look like, bit by bit, and what a word of the front buffer has to show for
    them (virtio/blit.c). */
module Pixels {
  import opened Words
  import opened Blitter

  /** Bit n of a row, counted from the most significant bit of its first byte. */
  function BitAt(row: seq<byte>, n: nat): (b: nat)
    requires n < 8 * |row|
    ensures b < 2
  {
    row[n / 8] / Pow2(7 - n % 8) % 2
  }

  /** The number written by `count` bits of the row, the most significant first. */
  function Bits(row: seq<byte>, from: nat, count: nat): (v: nat)
    requires from + count <= 8 * |row|
    ensures v < Pow2(count)
  {
    if count == 0 then 0 else 2 * Bits(row, from, count - 1) + BitAt(row, from + count - 1)
  }

  /** Five bits as eight: the bits themselves, and then their upper three again. */
  ghost predicate Stretched(c: nat, s: nat) {
    s < 256 && s / 8 == c && s % 8 == c / 4
  }

  /** A word whose bytes in memory, on a big-endian machine, are blue, green, red and zero. */
  ghost predicate Word(c: nat, blu: byte, grn: byte, red: byte) {
    c == 0x100_0000 * (blu as nat) + 0x1_0000 * (grn as nat) + 0x100 * (red as nat)
  }

  /** Word `c` shows pixel x of a row: an index of 1, 2, 4 or 8 bits looked up in the colour table; or
      x-red-green-blue in one and three times five bits, or in four bytes, each through its gamma table. */
  ghost predicate Shows(c: nat, tb: Tables, d: Depth, row: seq<byte>, x: nat)
    requires Full(tb)
  {
    match d
    case 0 => 1 * (x + 1) <= 8 * |row| && c == tb.clut[Index(row, x, 1)]
    case 1 => 2 * (x + 1) <= 8 * |row| && c == tb.clut[Index(row, 2 * x, 2)]
    case 2 => 4 * (x + 1) <= 8 * |row| && c == tb.clut[Index(row, 4 * x, 4)]
    case 3 => x + 1 <= |row| && c == tb.clut[row[x]]
    case 4 =>
      && 16 * (x + 1) <= 8 * |row|
      && exists r: nat, g: nat, b: nat ::
           && Stretched(Bits(row, 16 * x + 1, 5), r) && Stretched(Bits(row, 16 * x + 6, 5), g)
           && Stretched(Bits(row, 16 * x + 11, 5), b) && Word(c, tb.blu[b], tb.grn[g], tb.red[r])
    case _ =>
      4 * (x + 1) <= |row| && Word(c, tb.blu[row[4 * x + 3]], tb.grn[row[4 * x + 2]], tb.red[row[4 * x + 1]])
  }

  function Index(row: seq<byte>, from: nat, count: nat): (v: nat)
    requires from + count <= 8 * |row| && count <= 8
    ensures v < 256 && v == Bits(row, from, count)
  {
    Pow2Add(count, 8 - count);
    assert Pow2(8) == 256;
    Bits(row, from, count)
  }

  // ------------------------------------------------------------------ fields of a byte

  lemma HalfStep(z: nat, n: nat)
    ensures z % Pow2(n + 1) == 2 * (z / 2 % Pow2(n)) + z % 2
  {
    var p, h := Pow2(n), z / 2;
    assert z == 2 * h + z % 2;
    var q, r := h / p, h % p;
    assert h == p * q + r;
    assert z == (2 * p) * q + (2 * r + z % 2) by { assert 2 * (p * q) == (2 * p) * q; }
    DivModUnique(z, 2 * p, q, 2 * r + z % 2);
  }

  lemma {:induction false} HalvedNext(x: nat, k: nat)
    ensures Halved(x, k + 1) == Halved(x, k) / 2
  {
    if k > 0 { HalvedNext(x / 2, k - 1); }
  }

  lemma BitIs(row: seq<byte>, j: nat, i: nat)
    requires j < |row| && i < 8
    ensures BitAt(row, 8 * j + i) == Halved(row[j] as nat, 7 - i) % 2
  {
    HalvedIs(row[j] as nat, 7 - i);
    assert (8 * j + i) / 8 == j && (8 * j + i) % 8 == i;
  }

  /** `n` bits from bit e of byte j, which is bit `from` of the row. */
  lemma {:induction false} BitsInByte(row: seq<byte>, from: nat, j: nat, e: nat, n: nat) returns (v: nat)
    requires j < |row| && e + n <= 8 && from == 8 * j + e
    ensures v == Bits(row, from, n) && v == Halved(row[j] as nat, 8 - e - n) % Pow2(n)
  {
    v := Bits(row, from, n);
    if n > 0 {
      var u := BitsInByte(row, from, j, e, n - 1);
      HalvedNext(row[j] as nat, 8 - e - n);
      HalfStep(Halved(row[j] as nat, 8 - e - n), n - 1);
      BitIs(row, j, e + n - 1);
    }
  }

  lemma {:induction false} BitsJoin(row: seq<byte>, from: nat, n: nat, m: nat)
    requires from + n + m <= 8 * |row|
    ensures Bits(row, from, n + m) == Raised(Bits(row, from, n), m) + Bits(row, from + n, m)
  {
    if m > 0 {
      BitsJoin(row, from, n, m - 1);
    }
  }

  // ------------------------------------------------------------------ the colours wanted

  /** At 1, 2 and 4 bits a pixel lies in one byte. */
  lemma IndexIs(row: seq<byte>, d: Depth, x: nat)
    requires d <= 2 && Shl(x + 1, d) <= 8 * |row|
    ensures Shl(x, d) + Shl(1, d) <= 8 * |row| && Pixel(row, d, x) == Bits(row, Shl(x, d), Shl(1, d))
  {
    if d == 0 { Index1(row, x); } else if d == 1 { Index2(row, x); } else { Index4(row, x); }
  }

  lemma Index1(row: seq<byte>, x: nat)
    requires x + 1 <= 8 * |row|
    ensures Pixel(row, 0, x) == Bits(row, x, 1)
  {
    assert Bits(row, x, 0) == 0;
  }

  lemma Index2(row: seq<byte>, x: nat)
    requires 2 * x + 2 <= 8 * |row|
    ensures Pixel(row, 1, x) == Bits(row, 2 * x, 2)
  {
    var j, e := x / 4, 2 * (x % 4);
    var v := BitsInByte(row, 2 * x, j, e, 2);
    HalvedIs(row[j] as nat, 6 - e);
    assert Pow2(1) == 2 && Pow2(2) == 4;
  }

  lemma Index4(row: seq<byte>, x: nat)
    requires 4 * x + 4 <= 8 * |row|
    ensures Pixel(row, 2, x) == Bits(row, 4 * x, 4)
  {
    var j, e := x / 2, 4 * (x % 2);
    var v := BitsInByte(row, 4 * x, j, e, 4);
    HalvedIs(row[j] as nat, 4 - e);
    assert Pow2(2) == 4;
    assert Pow2(4) == 16;
  }

  /** The fields of a 16-bit pixel; the green one crosses its two bytes. */
  lemma FieldsOf16(row: seq<byte>, x: nat, v: nat, n: nat)
    requires 2 * (x + 1) <= |row| && v == Pixel(row, 4, x) && n == 5
    ensures Bits(row, 16 * x + 1, n) == v / 1024 % 32
    ensures Bits(row, 16 * x + 6, n) == v / 32 % 32
    ensures Bits(row, 16 * x + 11, n) == v % 32
  {
    var hi, lo := row[2 * x] as nat, row[2 * x + 1] as nat;
    UpperField(row, 2 * x);
    MiddleField(row, 2 * x);
    LowerField(row, 2 * x);
    RedOf(hi, lo);
    GreenOf(hi, lo);
    BlueOf(hi, lo);
  }

  lemma UpperField(row: seq<byte>, j: nat)
    requires j + 1 < |row|
    ensures Bits(row, 8 * j + 1, 5) == row[j] as nat / 4 % 32
  {
    var v := BitsInByte(row, 8 * j + 1, j, 1, 5);
    assert Pow2(2) == 4;
    HalvedIs(row[j] as nat, 2);
    assert Pow2(5) == 32;
  }

  lemma MiddleField(row: seq<byte>, j: nat)
    requires j + 1 < |row|
    ensures Bits(row, 8 * j + 6, 5) == row[j] as nat % 4 * 8 + row[j + 1] as nat / 32
  {
    TwoBits(row, j);
    ThreeBits(row, j + 1, 3);
    BitsJoin(row, 8 * j + 6, 2, 3);
    EightTimes(Bits(row, 8 * j + 6, 2));
  }

  lemma TwoBits(row: seq<byte>, j: nat)
    requires j < |row|
    ensures Bits(row, 8 * j + 6, 2) == row[j] as nat % 4
  {
    var v := BitsInByte(row, 8 * j + 6, j, 6, 2);
    assert Halved(row[j] as nat, 0) == row[j] as nat && Pow2(2) == 4;
  }

  lemma ThreeBits(row: seq<byte>, j: nat, n: nat)
    requires j < |row| && n == 3
    ensures Bits(row, 8 * j, n) == row[j] as nat / 32
  {
    UpperThree(row[j] as nat);
    var v := BitsInByte(row, 8 * j, j, 0, n);
    assert 8 - 0 - n == 5 && Pow2(n) == 8;
  }

  lemma UpperThree(b: nat)
    requires b < 256
    ensures Halved(b, 5) == b / 32 < 8
  {
    HalvedIs(b, 5);
    assert Pow2(2) == 4 && Pow2(3) == 8;
    assert Pow2(5) == 32;
  }

  lemma EightTimes(a: nat)
    ensures Raised(a, 3) == 8 * a
  {
    assert Raised(a, 3) == 2 * Raised(a, 2);
    assert Raised(a, 2) == 2 * Raised(a, 1);
  }

  lemma LowerField(row: seq<byte>, j: nat)
    requires j + 1 < |row|
    ensures Bits(row, 8 * j + 11, 5) == row[j + 1] as nat % 32
  {
    var v := BitsInByte(row, 8 * j + 11, j + 1, 3, 5);
    assert Halved(row[j + 1] as nat, 0) == row[j + 1] as nat;
    assert Pow2(5) == 32;
  }

  lemma RedOf(hi: nat, lo: nat)
    requires hi < 256 && lo < 256
    ensures (0x100 * hi + lo) / 1024 == hi / 4
  {
    DivModUnique(0x100 * hi + lo, 1024, hi / 4, 0x100 * (hi % 4) + lo);
  }

  lemma GreenOf(hi: nat, lo: nat)
    requires hi < 256 && lo < 256
    ensures (0x100 * hi + lo) / 32 % 32 == hi % 4 * 8 + lo / 32
  {
    DivModUnique(0x100 * hi + lo, 32, 8 * hi + lo / 32, lo % 32);
    DivModUnique(8 * hi + lo / 32, 32, hi / 4, hi % 4 * 8 + lo / 32);
  }

  lemma BlueOf(hi: nat, lo: nat)
    requires hi < 256 && lo < 256
    ensures (0x100 * hi + lo) % 32 == lo % 32
  {
    DivModUnique(0x100 * hi + lo, 32, 8 * hi + lo / 32, lo % 32);
  }

  lemma StretchedFive(c: nat)
    requires c < 32
    ensures Stretched(c, Five(c))
  {}

  /** What Blit should write is a word that shows the pixel. */
  lemma WantedShows(tb: Tables, d: Depth, row: seq<byte>, x: nat)
    requires Full(tb) && Shl(x + 1, d) <= 8 * |row|
    ensures Shows(Wanted(tb, d, row, x), tb, d, row, x)
  {
    if d <= 2 {
      IndexIs(row, d, x);
    } else if d == 4 {
      Shows16(tb, row, x);
    } else if d == 5 {
      Shows32(tb, row, x);
    }
  }

  lemma Shows16(tb: Tables, row: seq<byte>, x: nat)
    requires Full(tb) && 2 * (x + 1) <= |row|
    ensures Shows(Wanted(tb, 4, row, x), tb, 4, row, x)
  {
    var v := Pixel(row, 4, x);
    FieldsOf16(row, x, v, 5);
    var r, g, b := Five(v / 1024 % 32), Five(v / 32 % 32), Five(v % 32);
    StretchedFive(v / 1024 % 32);
    StretchedFive(v / 32 % 32);
    StretchedFive(v % 32);
    assert Word(Wanted(tb, 4, row, x), tb.blu[b], tb.grn[g], tb.red[r]);
  }

  lemma BytesOf(a: nat, b: nat, c: nat, d: nat)
    requires a < 256 && b < 256 && c < 256 && d < 256
    ensures var v := 0x1000000 * a + 0x10000 * b + 0x100 * c + d;
            v % 256 == d && v / 0x100 % 256 == c && v / 0x10000 % 256 == b
  {
    var v := 0x1000000 * a + 0x10000 * b + 0x100 * c + d;
    DivModUnique(v, 256, 0x10000 * a + 0x100 * b + c, d);
    DivModUnique(0x10000 * a + 0x100 * b + c, 256, 0x100 * a + b, c);
    DivModUnique(v, 0x10000, 0x100 * a + b, 0x100 * c + d);
    DivModUnique(0x100 * a + b, 256, a, b);
  }

  lemma Shows32(tb: Tables, row: seq<byte>, x: nat)
    requires Full(tb) && 4 * (x + 1) <= |row|
    ensures Shows(Wanted(tb, 5, row, x), tb, 5, row, x)
  {
    BytesOf(row[4 * x] as nat, row[4 * x + 1] as nat, row[4 * x + 2] as nat, row[4 * x + 3] as nat);
  }
}
