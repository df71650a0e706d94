/** Address translation between the row-major pixel order of a frame and the
    tiled, swizzled order in which the console GPU stores it (main.cpp:11,
    main.cpp:17-18, main.cpp:232-245).

    The GPU keeps a frame of w x h pixels (both multiples of 32) as
    consecutive 32x32 macro tiles, tile rows top to bottom and tiles left to
    right, 1024 pixels per tile. Inside a tile the pixel's (x % 32, y % 32)
    is bit-interleaved into a 10-bit index, and bit 5 of that index is
    flipped on rows whose bit 3 is set. Every pixel is four bytes. */
module Tiling {
  import opened Arithmetic
  import opened Bits

  /** Largest value of the source's 32-bit `int`. */
  const IntMax: int := 0x7FFF_FFFF

  /** TILE(n) = ((n + 31) >> 5) << 5 (main.cpp:11): rounds a dimension up to
      the next multiple of 32. On a non-negative int, `>> 5` is division by
      32 and `<< 5` multiplication by 32. */
  function Tile(n: nat): (r: nat)
    ensures r % 32 == 0 && n <= r < n + 32
  {
    (n + 31) / 32 * 32
  }

  /** The frame's resolution (main.cpp:17-18). */
  const ResWidth: nat := Tile(1280)
  const ResHeight: nat := Tile(720)

  /** TILE picks the least multiple of 32 that is at least n. */
  lemma TileIsLeast(n: nat, m: nat)
    requires m % 32 == 0 && n <= m
    ensures Tile(n) <= m
  {
    var q := m / 32;
    assert m == q * 32;
  }

  /** TILE is idempotent: padding a padded dimension leaves it alone. */
  lemma TileIdempotent(n: nat)
    ensures Tile(Tile(n)) == Tile(n)
  {
    TileIsLeast(Tile(n), Tile(n));
  }

  /** The padded resolution is 1280 x 736. */
  lemma ResolutionValues()
    ensures ResWidth == 1280 && ResHeight == 736
  {
  }

  /** A resolution the detiler can work on: both sides padded to whole
      tiles, and every byte offset of the w*h*4 dump fits the source's int. */
  predicate ValidResolution(w: nat, h: nat)
  {
    w % 32 == 0 && h % 32 == 0 && w * h * 4 <= IntMax + 1
  }

  /** `n & ~31` on a non-negative int: n with its low five bits cleared. */
  function AlignDown(n: nat): (r: nat)
    ensures r % 32 == 0 && r <= n < r + 32
  {
    n / 32 * 32
  }

  /** AlignDown is `n & ~31`: n less its low five bits `n & 31`. */
  lemma AlignDownClearsLowBits(n: nat)
    ensures AlignDown(n) == n - BitAnd(n, 31)
  {
    BitAndLowMask(n, 5);
  }

  /** The within-tile index of xeFbConvert (main.cpp:237-238), operator for
      operator; `<< k` on these small non-negative values is `* 2^k`. */
  function Swizzle(x: nat, y: nat): nat
  {
    BitXor(BitAnd(x, 3) + BitAnd(y, 1) * 4 + BitAnd(x, 28) * 2 + BitAnd(y, 30) * 32,
           BitAnd(y, 8) * 4)
  }

  /** A 10-bit within-tile index assembled from its fields:
        bits 0-1 <- a (x bits 0-1)     bit 2    <- b (y bit 0)
        bits 3-5 <- c (x bits 2-4)     bits 6-9 <- d (y bits 1-4) */
  function Fields(a: nat, b: nat, c: nat, d: nat): nat
  {
    a + 4 * b + 8 * c + 64 * d
  }

  /** c with its bit 2 flipped when f is 1: index bit 5 is bit 2 of field c. */
  function FlipIf(c: nat, f: nat): nat
  {
    if f == 1 then (c + 4) % 8 else c
  }

  /** The swizzle in field form: x's bits fill fields a and c, y's bits
      fields b and d, and field c has its bit 2 flipped when y's bit 3 is
      set. */
  function WithinTile(x: nat, y: nat): nat
  {
    Fields(x % 4, y % 2, FlipIf(x / 4 % 8, y / 8 % 2), y / 2 % 16)
  }

  /** The fields can be read back from the index they make up. */
  lemma FieldsDecode(a: nat, b: nat, c: nat, d: nat)
    requires a < 4 && b < 2 && c < 8 && d < 16
    ensures Fields(a, b, c, d) < 1024
    ensures Fields(a, b, c, d) % 4 == a && Fields(a, b, c, d) / 4 % 2 == b
    ensures Fields(a, b, c, d) / 8 % 8 == c && Fields(a, b, c, d) / 64 == d
    ensures Fields(a, b, c, d) / 32 % 2 == c / 4 && Fields(a, b, c, d) / 256 % 2 == d / 4 % 2
  {
    var n := Fields(a, b, c, d);
    DivModUnique(n, 4, b + 2 * c + 16 * d, a);
    DivModUnique(b + 2 * c + 16 * d, 2, c + 8 * d, b);
    DivModUnique(n, 8, c + 8 * d, a + 4 * b);
    DivModUnique(c + 8 * d, 8, d, c);
    DivModUnique(n, 64, d, a + 4 * b + 8 * c);
    DivModUnique(n, 32, c / 4 + 2 * d, a + 4 * b + 8 * (c % 4));
    DivModUnique(c / 4 + 2 * d, 2, d, c / 4);
    DivModUnique(n, 256, d / 4, a + 4 * b + 8 * c + 64 * (d % 4));
  }
  /** Every index below 1024 is made up of its fields. */
  lemma FieldsEncode(s: nat)
    requires s < 1024
    ensures s == Fields(s % 4, s / 4 % 2, s / 8 % 8, s / 64) && s / 64 < 16
  {
    DivModUnique(s, 8, s / 8, s % 8);
    DivModUnique(s % 8, 4, s / 4 % 2, s % 4);
    DivModUnique(s / 8, 8, s / 64, s / 8 % 8);
  }

  /** The low five bits of n, split as the swizzle splits them. */
  lemma LowBitsFields(n: nat)
    ensures n % 32 == n % 4 + 4 * (n / 4 % 8)
    ensures n % 32 == n % 2 + 2 * (n / 2 % 16)
    ensures n / 8 % 2 == n / 2 % 16 / 4 % 2
  {
    SplitMod(n, 4, 8);
    SplitMod(n, 2, 16);
    ModDiv(n / 2, 4, 4);
    DivDiv(n, 2, 4);
    ModMod(n / 8, 2, 2);
  }

  /** The masks of the swizzle on x: `x & 3` and `x & 28`. */
  lemma ColumnMasks(x: nat)
    ensures BitAnd(x, 3) == x % 4
    ensures BitAnd(x, 28) == 4 * (x / 4 % 8)
  {
    Pow2Values();
    BitAndLowMask(x, 2);
    BitAndEvenMask(x, 28);
    BitAndEvenMask(x / 2, 14);
    DivDiv(x, 2, 2);
    BitAndLowMask(x / 4, 3);
  }

  /** The masks of the swizzle on y: `y & 1`, `y & 30` and `y & 8`. */
  lemma RowMasks(y: nat)
    ensures BitAnd(y, 1) == y % 2
    ensures BitAnd(y, 30) == 2 * (y / 2 % 16)
    ensures BitAnd(y, 8) == 8 * (y / 8 % 2)
  {
    Pow2Values();
    BitAndLowMask(y, 1);
    BitAndEvenMask(y, 30);
    BitAndLowMask(y / 2, 4);
    BitAndEvenMask(y, 8);
    BitAndEvenMask(y / 2, 4);
    BitAndEvenMask(y / 4, 2);
    DivDiv(y, 2, 2);
    DivDiv(y, 4, 2);
    BitAndLowMask(y / 8, 1);
  }

  /** XOR with 32 flips bit 5. */
  lemma XorBit5(n: nat)
    ensures BitXor(n, 32) == if n / 32 % 2 == 0 then n + 32 else n - 32
  {
    Pow2Values();
    BitXorPow2(n, 5);
  }

  /** XOR with 32 (or with 0) flips (or keeps) bit 2 of field c. */
  lemma XorField(a: nat, b: nat, c: nat, d: nat, f: nat)
    requires a < 4 && b < 2 && c < 8 && d < 16 && f < 2
    ensures BitXor(Fields(a, b, c, d), 32 * f) == Fields(a, b, FlipIf(c, f), d)
  {
    var n := Fields(a, b, c, d);
    if f == 0 {
      BitXorZero(n);
    } else {
      XorBit5(n);
      FieldsDecode(a, b, c, d);
      FlipField(n, a, b, c, d);
    }
  }

  /** Flipping bit 5 of an index flips bit 2 of its field c. */
  lemma FlipField(n: nat, a: nat, b: nat, c: nat, d: nat)
    requires c < 8 && n == Fields(a, b, c, d) && n / 32 % 2 == c / 4
    ensures (if n / 32 % 2 == 0 then n + 32 else n - 32) == Fields(a, b, FlipIf(c, 1), d)
  {
  }
  /** Flipping bit 2 of a 3-bit field twice restores it. */
  lemma FlipIfInvolutive(c: nat, f: nat)
    requires c < 8
    ensures FlipIf(c, f) < 8 && FlipIf(FlipIf(c, f), f) == c
  {
  }

  /** The source's swizzle expression computes WithinTile. */
  lemma SwizzleFields(x: nat, y: nat)
    ensures Swizzle(x, y) == WithinTile(x, y)
  {
    var a, b, c, d, f := x % 4, y % 2, x / 4 % 8, y / 2 % 16, y / 8 % 2;
    ColumnMasks(x);
    RowMasks(y);
    SwizzleOfMasks(x, y, a, b, c, d, f);
    XorField(a, b, c, d, f);
  }

  /** The swizzle expression in terms of what its masks extract. */
  lemma SwizzleOfMasks(x: nat, y: nat, a: nat, b: nat, c: nat, d: nat, f: nat)
    requires BitAnd(x, 3) == a && BitAnd(x, 28) == 4 * c
    requires BitAnd(y, 1) == b && BitAnd(y, 30) == 2 * d && BitAnd(y, 8) == 8 * f
    ensures Swizzle(x, y) == BitXor(Fields(a, b, c, d), 32 * f)
  {
  }

  /** The swizzle reads only the low five bits of x and y. */
  lemma WithinTileLowBits(x: nat, y: nat)
    ensures WithinTile(x, y) == WithinTile(x % 32, y % 32)
  {
    var xl, yl := x % 32, y % 32;
    assert xl % 4 == x % 4 && xl / 4 % 8 == x / 4 % 8 by {
      ModMod(x, 4, 8);
      ModDiv(x, 4, 8);
    }
    assert yl % 2 == y % 2 && yl / 2 % 16 == y / 2 % 16 by {
      ModMod(y, 2, 16);
      ModDiv(y, 2, 16);
    }
    assert yl / 8 % 2 == y / 8 % 2 by {
      ModDiv(y, 8, 4);
      ModMod(y / 8, 2, 2);
    }
  }

  /** Column inside the tile of within-tile index s: field a, then field c
      with the swizzle's flip undone (y's bit 3 is bit 8 of s). */
  function TileColumn(s: nat): nat
  {
    s % 4 + 4 * FlipIf(s / 8 % 8, s / 256 % 2)
  }

  /** Row inside the tile of within-tile index s: field b, then field d. */
  function TileRow(s: nat): nat
  {
    s / 4 % 2 + 2 * (s / 64 % 16)
  }

  /** TileColumn and TileRow read the coordinates out of the fields. */
  lemma TileCoordinatesOfFields(a: nat, b: nat, c: nat, d: nat)
    requires a < 4 && b < 2 && c < 8 && d < 16
    ensures TileColumn(Fields(a, b, c, d)) == a + 4 * FlipIf(c, d / 4 % 2)
    ensures TileRow(Fields(a, b, c, d)) == b + 2 * d
  {
    FieldsDecode(a, b, c, d);
    TileCoordinatesOfIndex(Fields(a, b, c, d), a, b, c, d);
  }

  /** TileColumn and TileRow of an index whose fields are known. */
  lemma TileCoordinatesOfIndex(s: nat, a: nat, b: nat, c: nat, d: nat)
    requires d < 16 && s % 4 == a && s / 4 % 2 == b && s / 8 % 8 == c && s / 64 == d
    requires s / 256 % 2 == d / 4 % 2
    ensures TileColumn(s) == a + 4 * FlipIf(c, d / 4 % 2)
    ensures TileRow(s) == b + 2 * d
  {
  }

  /** The within-tile index of the pixel whose tile coordinates are made of
      the given fields. */
  lemma WithinTileOfFields(a: nat, b: nat, c: nat, d: nat)
    requires a < 4 && b < 2 && c < 8 && d < 16
    ensures a + 4 * c < 32 && b + 2 * d < 32
    ensures WithinTile(a + 4 * c, b + 2 * d) == Fields(a, b, FlipIf(c, d / 4 % 2), d)
  {
    var xl, yl := a + 4 * c, b + 2 * d;
    DivModUnique(xl, 4, c, a);
    DivModUnique(yl, 2, d, b);
    DivModUnique(yl, 8, d / 4, b + 2 * (d % 4));
    assert xl % 4 == a && xl / 4 % 8 == c;
    assert yl % 2 == b && yl / 2 % 16 == d && yl / 8 % 2 == d / 4 % 2;
  }

  /** The swizzle sends pixel (x, y) into [0, 1024), and TileColumn and
      TileRow give back its coordinates inside the tile. */
  lemma WithinTileRoundTrip(x: nat, y: nat)
    ensures WithinTile(x, y) < 1024
    ensures TileColumn(WithinTile(x, y)) == x % 32 && TileRow(WithinTile(x, y)) == y % 32
  {
    var a, b, c, d, f := x % 4, y % 2, x / 4 % 8, y / 2 % 16, y / 8 % 2;
    FlipIfInvolutive(c, f);
    TileCoordinatesOfFields(a, b, FlipIf(c, f), d);
    LowBitsFields(x);
    LowBitsFields(y);
  }

  /** Every within-tile index is the swizzle of the tile coordinates that
      TileColumn and TileRow give for it. */
  lemma WithinTileOnto(s: nat)
    requires s < 1024
    ensures TileColumn(s) < 32 && TileRow(s) < 32
    ensures WithinTile(TileColumn(s), TileRow(s)) == s
  {
    var a, b, c, d := s % 4, s / 4 % 2, s / 8 % 8, s / 64;
    FieldsEncode(s);
    var g := d / 4 % 2;
    FlipIfInvolutive(c, g);
    TileCoordinatesOfFields(a, b, c, d);
    WithinTileOfFields(a, b, FlipIf(c, g), d);
  }

  /** xeFbConvert (main.cpp:232-241): the byte offset in the tiled dump of
      the pixel whose byte offset in a row-major frame of width resWidth is
      addr. The macro-tile base is added to the within-tile index and the
      sum, a pixel index, is scaled to bytes. */
  function XeFbConvert(resWidth: nat, addr: nat): int
    requires resWidth > 0
  {
    var y: nat := addr / (resWidth * 4);
    var x: nat := addr % (resWidth * 4) / 4;
    (AlignDown(y) * resWidth + AlignDown(x) * 32 + Swizzle(x, y)) * 4
  }

  /** XE_PIXEL_TO_STD_ADDR (main.cpp:243): byte offset of pixel (x, y) in a
      row-major frame of width resWidth. */
  function StdAddr(resWidth: nat, x: nat, y: nat): nat
  {
    (y * resWidth + x) * 4
  }

  /** XE_PIXEL_TO_XE_ADDR (main.cpp:244-245): byte offset of pixel (x, y) in
      the tiled dump. */
  function XeAddr(resWidth: nat, x: nat, y: nat): int
    requires resWidth > 0
  {
    XeFbConvert(resWidth, StdAddr(resWidth, x, y))
  }

  /** Index, in pixels, of pixel (x, y) in the tiled dump. */
  function TiledIndex(w: nat, x: nat, y: nat): int
    requires w > 0
  {
    XeAddr(w, x, y) / 4
  }

  /** The inverse of the detiling map: the pixel (x, y) stored at tiled
      pixel index t of a frame of width w. */
  function PixelOfTiled(w: nat, t: nat): (p: (nat, nat))
    requires w % 32 == 0 && w > 0
  {
    var tilesPerRow: nat := w / 32;
    var tile: nat := t / 1024;
    var col: nat := tile % tilesPerRow;
    var row: nat := tile / tilesPerRow;
    (col * 32 + TileColumn(t % 1024), row * 32 + TileRow(t % 1024))
  }

  /** xeFbConvert yields a byte offset of a whole pixel: a multiple of 4. */
  lemma XeFbConvertAligned(w: nat, addr: nat)
    requires w > 0
    ensures XeFbConvert(w, addr) % 4 == 0
  {
    var y, x := addr / (w * 4), addr % (w * 4) / 4;
    XeFbConvertParts(w, addr, x, y);
    MultipleOfFour(XeFbConvert(w, addr), AlignDown(y) * w + AlignDown(x) * 32 + Swizzle(x, y));
  }

  /** Four times anything is a multiple of 4. */
  lemma MultipleOfFour(v: int, s: int)
    requires v == s * 4
    ensures v % 4 == 0
  {
  }

  /** xeFbConvert looks only at the pixel an address falls in: the four
      byte addresses 4p .. 4p+3 of pixel p translate alike. */
  lemma XeFbConvertPixelOnly(w: nat, p: nat, j: nat)
    requires w > 0 && j < 4
    ensures XeFbConvert(w, 4 * p + j) == XeFbConvert(w, 4 * p)
  {
    ByteInPixel(w, p, j, p / w, p % w);
  }

  /** Byte j of pixel p = y*w + x splits into row y and column x. */
  lemma ByteInPixel(w: nat, p: nat, j: nat, y: nat, x: nat)
    requires w > 0 && j < 4 && x < w && p == y * w + x
    ensures XeFbConvert(w, 4 * p + j) == XeFbConvert(w, 4 * p)
  {
    DivModUnique(4 * p + j, w * 4, y, 4 * x + j);
    DivModUnique(4 * p, w * 4, y, 4 * x);
    DivModUnique(4 * x + j, 4, x, j);
    XeFbConvertParts(w, 4 * p + j, x, y);
    XeFbConvertParts(w, 4 * p, x, y);
  }

  /** The tiled layout itself: pixel (x, y) of a frame of width w lies in
      tile (y / 32, x / 32), tiles numbered row by row with w / 32 to a row,
      1024 pixels each, at the tile's within-tile index. */
  function TiledPixel(w: nat, x: nat, y: nat): nat
  {
    TileNumber(w, x, y) * 1024 + WithinTile(x, y)
  }

  /** The tile pixel (x, y) lies in: tile row y / 32, tile column x / 32. */
  function TileNumber(w: nat, x: nat, y: nat): nat
  {
    (y / 32) * (w / 32) + x / 32
  }

  /** xeFbConvert implements the tiled layout: on the row-major byte address
      of an in-row pixel it recovers the pixel's x and y and yields four
      times the pixel's tiled index. */
  lemma TiledIndexFormula(w: nat, x: nat, y: nat)
    requires w % 32 == 0 && x < w
    ensures w > 0
    ensures XeAddr(w, x, y) == 4 * TiledPixel(w, x, y)
    ensures TiledIndex(w, x, y) == TiledPixel(w, x, y)
  {
    XeFbConvertOfPixel(w, x, y, StdAddr(w, x, y));
  }

  /** xeFbConvert on the row-major byte address of pixel (x, y). */
  lemma XeFbConvertOfPixel(w: nat, x: nat, y: nat, addr: nat)
    requires w % 32 == 0 && x < w && addr == (y * w + x) * 4
    ensures w > 0 && XeFbConvert(w, addr) == 4 * TiledPixel(w, x, y)
  {
    CoordinatesOfAddress(w, x, y, addr);
    XeFbConvertParts(w, addr, x, y);
    SwizzleFields(x, y);
    MacroTileBase(w, x, y);
  }

  /** The row and column xeFbConvert recovers from the row-major byte
      address of an in-row pixel are the pixel's own. */
  lemma CoordinatesOfAddress(w: nat, x: nat, y: nat, addr: nat)
    requires x < w && addr == (y * w + x) * 4
    ensures addr / (w * 4) == y && addr % (w * 4) / 4 == x
  {
    assert addr == y * (w * 4) + 4 * x;
    DivModUnique(addr, w * 4, y, 4 * x);
  }

  /** xeFbConvert is macro-tile base plus swizzle, scaled to bytes, at the
      row y and column x it splits addr into. */
  lemma XeFbConvertParts(w: nat, addr: nat, x: nat, y: nat)
    requires w > 0 && y == addr / (w * 4) && x == addr % (w * 4) / 4
    ensures XeFbConvert(w, addr) == (AlignDown(y) * w + AlignDown(x) * 32 + Swizzle(x, y)) * 4
  {
  }

  /** The macro-tile base `(y & ~31) * w + (x & ~31) * 32` is the pixel's
      tile number times 1024. */
  lemma MacroTileBase(w: nat, x: nat, y: nat)
    requires w % 32 == 0
    ensures AlignDown(y) * w + AlignDown(x) * 32 == TileNumber(w, x, y) * 1024
  {
    var tilesPerRow := w / 32;
    calc {
      AlignDown(y) * w;
      (y / 32) * 32 * (tilesPerRow * 32);
      ((y / 32) * tilesPerRow) * 1024;
    }
  }

  /** A column below a width that is a multiple of 32 lies in one of its
      w / 32 tile columns. */
  lemma TileColumnBound(w: nat, x: nat)
    requires w % 32 == 0 && x < w
    ensures x / 32 < w / 32
  {
    MulMonotone(w / 32, x / 32, 32);
  }

  /** A frame whose sides are multiples of 32 holds whole tiles of 1024
      pixels. */
  lemma TileCount(w: nat, h: nat)
    requires w % 32 == 0 && h % 32 == 0
    ensures w * h == (h / 32 * (w / 32)) * 1024
  {
    var tilesPerRow, tileRows := w / 32, h / 32;
    assert w == tilesPerRow * 32 && h == tileRows * 32;
    calc {
      w * h;
      (tilesPerRow * 32) * (tileRows * 32);
      (tileRows * tilesPerRow) * 1024;
    }
  }

  /** The tiled index of an in-frame pixel is inside the frame. */
  lemma TiledPixelInFrame(w: nat, h: nat, x: nat, y: nat)
    requires w % 32 == 0 && h % 32 == 0 && x < w && y < h
    ensures TiledPixel(w, x, y) < w * h
  {
    var tilesPerRow, tileRows := w / 32, h / 32;
    TileColumnBound(w, x);
    TileColumnBound(h, y);
    var tile := (y / 32) * tilesPerRow + x / 32;
    WithinTileRoundTrip(x, y);
    RowMajorBound(y / 32, x / 32, tileRows, tilesPerRow);
    MulMonotone(tile + 1, tileRows * tilesPerRow, 1024);
    TileCount(w, h);
  }

  /** Detiling then retiling: PixelOfTiled gives back the pixel. */
  lemma PixelOfTiledPixel(w: nat, x: nat, y: nat)
    requires w % 32 == 0 && x < w
    ensures PixelOfTiled(w, TiledPixel(w, x, y)) == (x, y)
  {
    TileNumberSplit(w, x, y);
    PixelOfTiledInTile(w, x, y, TileNumber(w, x, y));
  }

  /** Within a tile whose number gives back the pixel's tile column and
      tile row, PixelOfTiled finds the pixel at its within-tile index. */
  lemma PixelOfTiledInTile(w: nat, x: nat, y: nat, tile: nat)
    requires w % 32 == 0 && x < w
    requires tile % (w / 32) == x / 32 && tile / (w / 32) == y / 32
    ensures PixelOfTiled(w, tile * 1024 + WithinTile(x, y)) == (x, y)
  {
    WithinTileRoundTrip(x, y);
    PixelOfTiledSplit(w, x, y, tile, WithinTile(x, y));
  }

  /** The tile number of an in-row pixel gives back its tile column and
      tile row. */
  lemma TileNumberSplit(w: nat, x: nat, y: nat)
    requires w % 32 == 0 && x < w
    ensures w / 32 > 0
    ensures TileNumber(w, x, y) % (w / 32) == x / 32
    ensures TileNumber(w, x, y) / (w / 32) == y / 32
  {
    TileColumnBound(w, x);
    DivModUnique(TileNumber(w, x, y), w / 32, y / 32, x / 32);
  }

  /** PixelOfTiled reads the pixel back out of a tiled index made of the
      pixel's tile number and within-tile index. */
  lemma PixelOfTiledSplit(w: nat, x: nat, y: nat, tile: nat, s: nat)
    requires w % 32 == 0 && w > 0 && s < 1024
    requires tile % (w / 32) == x / 32 && tile / (w / 32) == y / 32
    requires TileColumn(s) == x % 32 && TileRow(s) == y % 32
    ensures PixelOfTiled(w, tile * 1024 + s) == (x, y)
  {
    DivModUnique(tile * 1024 + s, 1024, tile, s);
  }

  /** Retiling then detiling: every tiled index of the frame is the tiled
      index of the in-frame pixel that PixelOfTiled names. */
  lemma TiledPixelOfPixel(w: nat, h: nat, t: nat)
    requires w % 32 == 0 && h % 32 == 0 && w > 0 && t < w * h
    ensures PixelOfTiled(w, t).0 < w && PixelOfTiled(w, t).1 < h
    ensures TiledPixel(w, PixelOfTiled(w, t).0, PixelOfTiled(w, t).1) == t
  {
    var tilesPerRow, tileRows := w / 32, h / 32;
    var tile, s := t / 1024, t % 1024;
    TileCount(w, h);
    MulMonotone(tileRows * tilesPerRow, tile, 1024);
    RowMajorSplit(tile, tileRows, tilesPerRow);
    TiledPixelAt(w, h, tile % tilesPerRow, tile / tilesPerRow, s, PixelOfTiled(w, t).0, PixelOfTiled(w, t).1);
  }

  /** The pixel (x, y) at within-tile index s of the tile in tile column
      col and tile row row is in the frame, and its tiled index is that
      tile's number times 1024 plus s. */
  lemma TiledPixelAt(w: nat, h: nat, col: nat, row: nat, s: nat, x: nat, y: nat)
    requires w % 32 == 0 && h % 32 == 0 && col < w / 32 && row < h / 32 && s < 1024
    requires x == col * 32 + TileColumn(s) && y == row * 32 + TileRow(s)
    ensures x < w && y < h
    ensures TiledPixel(w, x, y) == (row * (w / 32) + col) * 1024 + s
  {
    WithinTileOnto(s);
    RowMajorBound(col, TileColumn(s), w / 32, 32);
    RowMajorBound(row, TileRow(s), h / 32, 32);
    TileNumberAt(w, col, row, TileColumn(s), TileRow(s), x, y);
    WithinTileAt(col, row, s, x, y);
  }

  /** The pixel at within-tile index s of any tile, at (xl, yl) inside the
      tile, has within-tile index s. */
  lemma WithinTileAt(col: nat, row: nat, s: nat, x: nat, y: nat)
    requires s < 1024 && x == col * 32 + TileColumn(s) && y == row * 32 + TileRow(s)
    ensures WithinTile(x, y) == s
  {
    WithinTileOnto(s);
    WithinTileShift(col, row, TileColumn(s), TileRow(s), x, y);
  }

  /** Moving a pixel by whole tiles keeps its within-tile index. */
  lemma WithinTileShift(col: nat, row: nat, xl: nat, yl: nat, x: nat, y: nat)
    requires xl < 32 && yl < 32 && x == col * 32 + xl && y == row * 32 + yl
    ensures WithinTile(x, y) == WithinTile(xl, yl)
  {
    WithinTileLowBits(x, y);
    DivModUnique(x, 32, col, xl);
    DivModUnique(y, 32, row, yl);
  }

  /** A pixel at (xl, yl) inside the tile in tile column col and tile row
      row has that tile's number. */
  lemma TileNumberAt(w: nat, col: nat, row: nat, xl: nat, yl: nat, x: nat, y: nat)
    requires xl < 32 && yl < 32 && x == col * 32 + xl && y == row * 32 + yl
    ensures TileNumber(w, x, y) == row * (w / 32) + col
  {
    DivModUnique(x, 32, col, xl);
    DivModUnique(y, 32, row, yl);
  }

  /** Bounds: the tiled byte offset of an in-frame pixel is four times its
      tiled index, so all four bytes read for it lie in the w*h*4 dump. */
  lemma TiledIndexInFrame(w: nat, h: nat, x: nat, y: nat)
    requires w % 32 == 0 && h % 32 == 0 && x < w && y < h
    ensures w > 0 && 0 <= TiledIndex(w, x, y) < w * h
    ensures XeAddr(w, x, y) == 4 * TiledIndex(w, x, y)
    ensures XeAddr(w, x, y) + 3 < w * h * 4
  {
    TiledIndexFormula(w, x, y);
    TiledPixelInFrame(w, h, x, y);
  }

  /** Detiling then retiling, on the source's address translation. */
  lemma PixelOfTiledIndex(w: nat, h: nat, x: nat, y: nat)
    requires w % 32 == 0 && h % 32 == 0 && x < w && y < h
    ensures w > 0 && 0 <= TiledIndex(w, x, y) && PixelOfTiled(w, TiledIndex(w, x, y)) == (x, y)
  {
    TiledIndexFormula(w, x, y);
    PixelOfTiledPixel(w, x, y);
  }

  /** Retiling then detiling, on the source's address translation. */
  lemma TiledIndexOfPixel(w: nat, h: nat, t: nat)
    requires w % 32 == 0 && h % 32 == 0 && w > 0 && t < w * h
    ensures PixelOfTiled(w, t).0 < w && PixelOfTiled(w, t).1 < h
    ensures TiledIndex(w, PixelOfTiled(w, t).0, PixelOfTiled(w, t).1) == t
  {
    TiledPixelOfPixel(w, h, t);
    TiledIndexFormula(w, PixelOfTiled(w, t).0, PixelOfTiled(w, t).1);
  }

  /** Detiling is a permutation of the padded pixel space: for w and h
      multiples of 32, (x, y) |-> xeFbConvert(w, (y*w+x)*4)/4 sends
      [0,w) x [0,h) into [0,w*h), distinct pixels to distinct indices, and
      every index in [0,w*h) is reached. */
  lemma DetilingIsBijection(w: nat, h: nat)
    requires w % 32 == 0 && h % 32 == 0 && w > 0
    ensures forall x: nat, y: nat :: x < w && y < h ==>
      0 <= TiledIndex(w, x, y) < w * h && PixelOfTiled(w, TiledIndex(w, x, y)) == (x, y)
    ensures forall t: nat :: t < w * h ==>
      PixelOfTiled(w, t).0 < w && PixelOfTiled(w, t).1 < h &&
      TiledIndex(w, PixelOfTiled(w, t).0, PixelOfTiled(w, t).1) == t
  {
    forall x: nat, y: nat | x < w && y < h
      ensures 0 <= TiledIndex(w, x, y) < w * h && PixelOfTiled(w, TiledIndex(w, x, y)) == (x, y)
    {
      TiledIndexInFrame(w, h, x, y);
      PixelOfTiledIndex(w, h, x, y);
    }
    forall t: nat | t < w * h
      ensures PixelOfTiled(w, t).0 < w && PixelOfTiled(w, t).1 < h &&
              TiledIndex(w, PixelOfTiled(w, t).0, PixelOfTiled(w, t).1) == t
    {
      TiledIndexOfPixel(w, h, t);
    }
  }

  /** Distinct in-frame pixels are stored at distinct tiled offsets. */
  lemma DetilingInjective(w: nat, h: nat, x1: nat, y1: nat, x2: nat, y2: nat)
    requires w % 32 == 0 && h % 32 == 0
    requires x1 < w && y1 < h && x2 < w && y2 < h
    requires (x1, y1) != (x2, y2)
    ensures XeAddr(w, x1, y1) != XeAddr(w, x2, y2)
  {
    PixelOfTiledIndex(w, h, x1, y1);
    PixelOfTiledIndex(w, h, x2, y2);
  }

  /** Where the first two tiles start, at any width of two tiles or more:
      pixel (0, 0) is the first of the dump and pixel (32, 0) starts the
      second tile, 1024 pixels in. */
  lemma FirstTileStart(w: nat)
    requires w % 32 == 0
    ensures TiledPixel(w, 0, 0) == 0
  {
  }

  lemma SecondTileStart(w: nat)
    requires w % 32 == 0 && w >= 64
    ensures TiledPixel(w, 32, 0) == 1024
  {
  }

  /** xeFbConvert at any width of two tiles or more, the frame's 1280
      among them: byte 0 stays at byte 0, and byte 128, pixel (32, 0), lands
      at byte 4096, the start of the second tile. */
  lemma XeFbConvertExamples(w: nat)
    requires w % 32 == 0 && w >= 64
    ensures XeFbConvert(w, 0) == 0
    ensures XeFbConvert(w, 128) == 4096
  {
    FirstTileStart(w);
    SecondTileStart(w);
    XeFbConvertOfPixel(w, 0, 0, 0);
    XeFbConvertOfPixel(w, 32, 0, 128);
  }

  /** The padding matters: with a height that is not a multiple of 32 a
      tiled offset can fall outside a w*h*4-byte dump. At 32 x 1, pixel
      (31, 0) is read from byte 236 of a 128-byte dump. */
  lemma UnpaddedHeightOverruns()
    ensures XeAddr(32, 31, 0) == 236 && XeAddr(32, 31, 0) + 3 >= 32 * 1 * 4
  {
    SwizzleFields(31, 0);
  }

  /** The frame's width is one the examples apply to. */
  lemma XeFbConvertFrameExamples()
    ensures XeFbConvert(ResWidth, 0) == 0 && XeFbConvert(ResWidth, 128) == 4096
  {
    ResolutionValues();
    XeFbConvertExamples(ResWidth);
  }
}
