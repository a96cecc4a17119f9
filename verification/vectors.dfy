/** Concrete cases from the repository's own test suite, and small worked
    examples of the operations, proved about the model. */
module Vectors {
  import opened Bits
  import opened Quadkey
  import opened Neighborhood
  import opened Pixels

  /** Tile (114, 403) at level 10 is quadkey "0221130032". */
  lemma TileToQuadkeyVector()
    ensures TileToQuadkey(114, 403, 10) == "0221130032"
  {
    EncodeTestTile(114, 403);
  }

  /** The same fact about indices equal to (114, 403), which keeps the
      evaluation of the ten levels symbolic in the tile indices. */
  lemma EncodeTestTile(x: int, y: int)
    requires x == 114 && y == 403
    ensures TileToQuadkey(x, y, 10) == "0221130032"
  {
    assert Pow2(1) == 2;
    assert Pow2(2) == 4;
    assert Pow2(3) == 8;
    assert Pow2(4) == 16;
    assert Pow2(5) == 32;
    assert Pow2(6) == 64;
    assert Pow2(7) == 128;
    assert Pow2(8) == 256;
    assert Pow2(9) == 512;
  }

  /** ... and the quadkey decodes back to that tile. */
  lemma QuadkeyToTileVector()
    ensures QuadkeyToTile("0221130032") == Success(Tile(114, 403, 10))
  {
    ExactRoundTrip(114, 403, 10);
    TileToQuadkeyVector();
  }

  /** The neighbours of "03", tile (1, 1) of the 4 by 4 grid, in row-major order. */
  lemma InteriorNeighborList(t: Tile)
    requires t == Tile(1, 1, 2)
    ensures NeighborList(t) == ["00", "01", "10", "02", "03", "12", "20", "21", "30"]
  {
    var ns, expected := NeighborList(t), ["00", "01", "10", "02", "03", "12", "20", "21", "30"];
    forall k | 0 <= k < 9
      ensures ns[k] == expected[k]
    {
      LevelTwoKey(t.x, t.y, k);
    }
  }

  /** Entry `k` of the level-2 block around (1, 1). */
  lemma LevelTwoKey(x: int, y: int, k: nat)
    requires x == 1 && y == 1 && k < 9
    ensures TileToQuadkey(x + k % 3 - 1, y + k / 3 - 1, 2) == ["00", "01", "10", "02", "03", "12", "20", "21", "30"][k]
  {
  }

  lemma InteriorNeighborsVector()
    ensures Neighbors("03") == Success(["00", "01", "10", "02", "03", "12", "20", "21", "30"])
  {
    assert TileToQuadkey(1, 1, 2) == "03";
    ExactRoundTrip(1, 1, 2);
    InteriorNeighborList(Tile(1, 1, 2));
  }

  /** The neighbours of "0", the top-left tile of the 2 by 2 grid: every
      offset off the grid wraps round to the opposite edge. */
  lemma CornerNeighborList(t: Tile)
    requires t == Tile(0, 0, 1)
    ensures NeighborList(t) == ["3", "2", "3", "1", "0", "1", "3", "2", "3"]
  {
    var ns, expected := NeighborList(t), ["3", "2", "3", "1", "0", "1", "3", "2", "3"];
    forall k | 0 <= k < 9
      ensures ns[k] == expected[k]
    {
      LevelOneKey(t.x, t.y, k);
    }
  }

  /** Entry `k` of the level-1 block around (0, 0): -1 wraps to 1. */
  lemma LevelOneKey(x: int, y: int, k: nat)
    requires x == 0 && y == 0 && k < 9
    ensures TileToQuadkey(x + k % 3 - 1, y + k / 3 - 1, 1) == ["3", "2", "3", "1", "0", "1", "3", "2", "3"][k]
  {
  }

  lemma CornerNeighborsVector()
    ensures Neighbors("0") == Success(["3", "2", "3", "1", "0", "1", "3", "2", "3"])
  {
    assert TileToQuadkey(0, 0, 1) == "0";
    ExactRoundTrip(0, 0, 1);
    CornerNeighborList(Tile(0, 0, 1));
  }

  /** The nine neighbours of "0221130032013320" (tile (7324, 25806) at level
      16) listed by the repository's neighbour test. */
  const NeighborsOfTestKey: seq<seq<char>> := [
    "0221130032013213", "0221130032013302", "0221130032013303",
    "0221130032013231", "0221130032013320", "0221130032013321",
    "0221130032013233", "0221130032013322", "0221130032013323"]

  /** The neighbour test at level 16. */
  lemma DeepNeighborsVector()
    ensures Neighbors("0221130032013320") == Success(NeighborsOfTestKey)
  {
    DeepTestKeyDecodes(7324, 25806, "0221130032013320");
    DeepNeighborList(Tile(7324, 25806, 16));
  }

  /** The decode test's key names tile (7324, 25806) at level 16. */
  lemma DecodeTestKeyVector()
    ensures QuadkeyToTile("0221130032013320") == Success(Tile(7324, 25806, 16))
  {
    DeepTestKeyDecodes(7324, 25806, "0221130032013320");
  }

  /** The same fact about a key and indices equal to those literals, which
      keeps the evaluation symbolic and cheap for the verifier. */
  lemma DeepTestKeyDecodes(x: int, y: int, q: seq<char>)
    requires x == 7324 && y == 25806 && q == NeighborsOfTestKey[4]
    ensures QuadkeyToTile(q) == Success(Tile(x, y, 16))
  {
    DeepNeighborEntry(x, y, 4);
    assert x + 4 % 3 - 1 == x && y + 4 / 3 - 1 == y;
    assert TileToQuadkey(x, y, 16) == q;
    Pow2Of16();
    ExactRoundTrip(x, y, 16);
  }

  lemma Pow2Of16()
    ensures Pow2(16) == 65536
  {
    assert Pow2(8) == 256;
    Pow2Add(8, 8);
  }

  lemma DeepNeighborList(t: Tile)
    requires t == Tile(7324, 25806, 16)
    ensures NeighborList(t) == NeighborsOfTestKey
  {
    var ns := NeighborList(t);
    forall k | 0 <= k < 9
      ensures ns[k] == NeighborsOfTestKey[k]
    {
      DeepNeighborEntry(t.x, t.y, k);
    }
  }

  /** Entry `k` of the level-16 test, assembled from three parts: the
      level-10 test key, the three levels below it ("013", shared by all
      nine neighbours), and the last three levels. */
  lemma DeepNeighborEntry(x: int, y: int, k: nat)
    requires x == 7324 && y == 25806 && k < 9
    ensures TileToQuadkey(x + k % 3 - 1, y + k / 3 - 1, 16) == NeighborsOfTestKey[k]
  {
    DeepNeighborSplit(x, y, k);
    TileToQuadkeyVector();
    SharedLevels(3, 1);
    LastLevels(4, 6, k);
    assert "0221130032" + "013" == "0221130032013";
    DeepNeighborJoin(k);
  }

  /** None of the nine neighbours leaves the level-13 ancestor (915, 3225),
      whose own ancestor at level 10 is the test tile (114, 403). */
  lemma DeepNeighborSplit(x: int, y: int, k: nat)
    requires x == 7324 && y == 25806 && k < 9
    ensures TileToQuadkey(x + k % 3 - 1, y + k / 3 - 1, 16) ==
      TileToQuadkey(114, 403, 10) + TileToQuadkey(3, 1, 3) + TileToQuadkey(4 + k % 3 - 1, 6 + k / 3 - 1, 3)
  {
    var nx, ny := x + k % 3 - 1, y + k / 3 - 1;
    assert Pow2(3) == 8;
    SplitQuadkey(nx, ny, 13, 3);
    DivModUnique(nx, 8, 915, 4 + k % 3 - 1);
    DivModUnique(ny, 8, 3225, 6 + k / 3 - 1);
    SplitQuadkey(915, 3225, 10, 3);
    DivModUnique(915, 8, 114, 3);
    DivModUnique(3225, 8, 403, 1);
  }

  lemma SharedLevels(x: int, y: int)
    requires x == 3 && y == 1
    ensures TileToQuadkey(x, y, 3) == "013"
  {
    assert Pow2(1) == 2;
    assert Pow2(2) == 4;
  }

  /** The last three levels of entry `k`: tile (4, 6) of the 8 by 8 grid
      plus offset `k`. */
  lemma LastLevels(x: int, y: int, k: nat)
    requires x == 4 && y == 6 && k < 9
    ensures TileToQuadkey(x + k % 3 - 1, y + k / 3 - 1, 3) ==
      ["213", "302", "303", "231", "320", "321", "233", "322", "323"][k]
  {
    var a, b := x + k % 3 - 1, y + k / 3 - 1;
    assert Pow2(1) == 2;
    assert Pow2(2) == 4;
    assert TileToQuadkey(a, b, 3) == [Digit(a, b, 2)] + TileToQuadkey(a, b, 2);
    assert TileToQuadkey(a, b, 2) == [Digit(a, b, 1)] + TileToQuadkey(a, b, 1);
    assert TileToQuadkey(a, b, 1) == [Digit(a, b, 0)] + TileToQuadkey(a, b, 0);
    if k == 0 { assert a == 3 && b == 5; assert [Digit(a, b, 2), Digit(a, b, 1), Digit(a, b, 0)] == "213"; }
    else if k == 1 { assert a == 4 && b == 5; assert [Digit(a, b, 2), Digit(a, b, 1), Digit(a, b, 0)] == "302"; }
    else if k == 2 { assert a == 5 && b == 5; assert [Digit(a, b, 2), Digit(a, b, 1), Digit(a, b, 0)] == "303"; }
    else if k == 3 { assert a == 3 && b == 6; assert [Digit(a, b, 2), Digit(a, b, 1), Digit(a, b, 0)] == "231"; }
    else if k == 4 { assert a == 4 && b == 6; assert [Digit(a, b, 2), Digit(a, b, 1), Digit(a, b, 0)] == "320"; }
    else if k == 5 { assert a == 5 && b == 6; assert [Digit(a, b, 2), Digit(a, b, 1), Digit(a, b, 0)] == "321"; }
    else if k == 6 { assert a == 3 && b == 7; assert [Digit(a, b, 2), Digit(a, b, 1), Digit(a, b, 0)] == "233"; }
    else if k == 7 { assert a == 4 && b == 7; assert [Digit(a, b, 2), Digit(a, b, 1), Digit(a, b, 0)] == "322"; }
    else { assert a == 5 && b == 7; assert [Digit(a, b, 2), Digit(a, b, 1), Digit(a, b, 0)] == "323"; }
  }

  lemma DeepNeighborJoin(k: nat)
    requires k < 9
    ensures "0221130032013" + ["213", "302", "303", "231", "320", "321", "233", "322", "323"][k] == NeighborsOfTestKey[k]
  {
  }

  /** Pixel (29297, 103227) lies in tile (114, 403), whose corner is (29184, 103168). */
  lemma PixelTileVector()
    ensures PixelToTile(29297, 103227) == (114, 403)
    ensures TileToPixel(114, 403) == Success((29184, 103168))
  {
  }

  /** The integer tail of the encoding test at level 10: pixel to quadkey. */
  lemma PixelToQuadkeyVector()
    ensures PixelToQuadkey(29297, 103227, 10) == "0221130032"
  {
    TileToQuadkeyVector();
  }

  /** A character outside '0'..'3' anywhere makes decoding fail. */
  lemma InvalidDigitVectors()
    ensures QuadkeyToTile("5") == Failure(InvalidDigit)
    ensures QuadkeyToTile("02x1") == Failure(InvalidDigit)
    ensures Neighbors("02x1") == Failure(InvalidDigit)
  {
    assert !IsQuadDigit("5"[0]);
    assert !IsQuadDigit("02x1"[2]);
  }
}
