/** Pixel coordinates of the global raster and the 256-pixel tiles that cut it,
    and the integer halves of the two end-to-end conversions: pixel to
    quadkey (the tail of `encode`) and quadkey to pixel (the head of `decode`). */
module Pixels {
  import opened Bits
  import opened Quadkey

  /** Edge length of a tile, in pixels. */
  const TileSize: nat := 256

  /** Rust's `/` on integers: the quotient truncated toward zero. */
  function TruncDiv(a: int, d: int): (r: int)
    requires d > 0
    ensures a >= 0 ==> r >= 0 && d * r <= a < d * r + d
    ensures a < 0 ==> r <= 0 && d * r - d < a <= d * r
  {
    if a >= 0 then a / d else -((-a) / d)
  }

  /** The tile holding pixel (`px`, `py`). Pixels are `i32` in the source and
      its division truncates, so a negative pixel in (-256, 0) maps to tile 0. */
  function PixelToTile(px: int, py: int): (t: (int, int))
    ensures px >= 0 ==> 0 <= t.0 && TileSize * t.0 <= px < TileSize * t.0 + TileSize
    ensures py >= 0 ==> 0 <= t.1 && TileSize * t.1 <= py < TileSize * t.1 + TileSize
    ensures px < 0 ==> t.0 <= 0 && TileSize * t.0 - TileSize < px <= TileSize * t.0
    ensures py < 0 ==> t.1 <= 0 && TileSize * t.1 - TileSize < py <= TileSize * t.1
  {
    (TruncDiv(px, TileSize), TruncDiv(py, TileSize))
  }

  /** The top-left pixel of tile (`tx`, `ty`). The `i32` product overflows
      (a panic in the source) once an index is at least `2^23` or below
      `-2^23`. */
  function TileToPixel(tx: int, ty: int): (r: Result<(int, int)>)
    ensures r.Success? <==> IsI32(tx * TileSize) && IsI32(ty * TileSize)
    ensures r.Failure? ==> r.error == ArithmeticOverflow
    ensures r.Success? ==> PixelToTile(r.value.0, r.value.1) == (tx, ty)
    ensures r.Success? ==> r.value.0 % TileSize == 0 && r.value.1 % TileSize == 0
  {
    if IsI32(tx * TileSize) && IsI32(ty * TileSize) then
      var px, py := tx * TileSize, ty * TileSize;
      assert PixelToTile(px, py) == (tx, ty) by {
        CornerToTile(tx);
        CornerToTile(ty);
      }
      Success((px, py))
    else
      Failure(ArithmeticOverflow)
  }

  lemma CornerToTile(t: int)
    ensures TruncDiv(t * TileSize, TileSize) == t
    ensures (t * TileSize) % TileSize == 0
  {
    DivAddMultiple(0, TileSize, t);
    if t < 0 {
      DivAddMultiple(0, TileSize, -t);
    }
  }

  /** A non-negative pixel lies in the 256 by 256 block whose corner is the
      corner of its tile. */
  lemma PixelInItsTile(px: int, py: int)
    requires 0 <= px <= I32Max && 0 <= py <= I32Max
    ensures var t := PixelToTile(px, py);
      TileToPixel(t.0, t.1).Success? &&
      var c := TileToPixel(t.0, t.1).value;
      c.0 <= px < c.0 + TileSize && c.1 <= py < c.1 + TileSize
  {
  }

  /** The corner of the tile holding a non-negative pixel is the pixel
      rounded down to a multiple of 256. */
  lemma TileCorner(px: int, py: int)
    requires 0 <= px <= I32Max && 0 <= py <= I32Max
    ensures var t := PixelToTile(px, py);
      TileToPixel(t.0, t.1) == Success((px - px % TileSize, py - py % TileSize))
  {
  }

  /** The tail of `encode`: the quadkey of the tile holding a pixel. */
  function PixelToQuadkey(px: int, py: int, p: nat): (q: seq<char>)
    requires p <= MaxPrecision
    ensures |q| == p && IsQuadkey(q)
  {
    var t := PixelToTile(px, py);
    TileToQuadkey(t.0, t.1, p)
  }

  /** The head of `decode`: the top-left pixel of the tile a quadkey names. */
  function QuadkeyToPixel(q: seq<char>): (r: Result<(int, int)>)
    ensures QuadkeyToTile(q).Failure? ==> r == Failure(QuadkeyToTile(q).error)
    ensures QuadkeyToTile(q).Success? ==> var t := QuadkeyToTile(q).value;
      (r.Success? <==> IsI32(t.x * TileSize) && IsI32(t.y * TileSize)) &&
      (r.Failure? ==> r.error == ArithmeticOverflow) &&
      (r.Success? ==> r.value == (t.x * TileSize, t.y * TileSize) && PixelToTile(r.value.0, r.value.1) == (t.x, t.y))
  {
    match QuadkeyToTile(q)
    case Failure(e) => Failure(e)
    case Success(t) => TileToPixel(t.x, t.y)
  }

  /** Every valid quadkey of at most 23 levels has a pixel corner in `i32`. */
  lemma ShallowQuadkeyHasPixel(q: seq<char>)
    requires |q| <= 23 && IsQuadkey(q)
    ensures QuadkeyToPixel(q).Success?
  {
    var t := QuadkeyToTile(q).value;
    Pow2Monotone(|q|, 23);
    assert Pow2(23) == 0x80_0000 by {
      assert Pow2(8) == 256;
      Pow2Add(8, 8);
      Pow2Add(16, 7);
    }
  }

  /** From level 24 on, a quadkey starting in the eastern half ('1' or
      '3') names a column of at least `2^23`, whose corner `x * 256` is past
      the `i32` range: the source overflows (shallower keys never do). */
  lemma DeepEastQuadkeyOverflows(q: seq<char>)
    requires 24 <= |q| < MaxPrecision && IsQuadkey(q)
    requires q[0] == '1' || q[0] == '3'
    ensures QuadkeyToPixel(q) == Failure(ArithmeticOverflow)
  {
    var t := QuadkeyToTile(q).value;
    DecodedBit(q, 0);
    BitSetAtLeast(t.x, |q| - 1);
    Pow2Monotone(23, |q| - 1);
    assert Pow2(23) == 0x80_0000 by {
      assert Pow2(8) == 256;
      Pow2Add(8, 8);
      Pow2Add(16, 7);
    }
    MulMonotone(TileSize, 0x80_0000, t.x);
  }

  /** A pixel inside the raster of level `p` (`256 * 2^p` pixels a side) is
      encoded as the quadkey of the tile that holds it. */
  lemma PixelToQuadkeyFindsTile(px: int, py: int, p: nat)
    requires p <= MaxPrecision
    requires 0 <= px <= I32Max && 0 <= py <= I32Max
    requires px < TileSize * Pow2(p) && py < TileSize * Pow2(p)
    ensures var t := PixelToTile(px, py);
      QuadkeyToTile(PixelToQuadkey(px, py, p)) == Success(Tile(t.0, t.1, p))
  {
    var tx, ty := px / TileSize, py / TileSize;
    assert PixelToTile(px, py) == (tx, ty);
    assert tx < Pow2(p) && ty < Pow2(p) by {
      if tx >= Pow2(p) {
        MulMonotone(TileSize, Pow2(p), tx);
      }
      if ty >= Pow2(p) {
        MulMonotone(TileSize, Pow2(p), ty);
      }
    }
    ExactRoundTrip(tx, ty, p);
  }

  /** Encoding a pixel and decoding the quadkey gives the corner of the
      pixel's tile: the pixel rounded down to a multiple of 256. */
  lemma PixelQuadkeyRoundTrip(px: int, py: int, p: nat)
    requires p <= MaxPrecision
    requires 0 <= px <= I32Max && 0 <= py <= I32Max
    requires px < TileSize * Pow2(p) && py < TileSize * Pow2(p)
    ensures QuadkeyToPixel(PixelToQuadkey(px, py, p)) == Success((px - px % TileSize, py - py % TileSize))
  {
    var q := PixelToQuadkey(px, py, p);
    assert QuadkeyToPixel(q) == TileToPixel(PixelToTile(px, py).0, PixelToTile(px, py).1) by {
      PixelToQuadkeyFindsTile(px, py, p);
    }
    TileCorner(px, py);
  }
}
