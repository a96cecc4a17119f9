/** The nine quadkeys around a quadkey (itself included), at the same zoom level. */
module Neighborhood {
  import opened Bits
  import opened Quadkey

  /** Column and row offsets in row-major order, from the tile above-left to
      the tile below-right; the tile itself is entry 4. */
  const Offsets: seq<(int, int)> :=
    [(-1, -1), (0, -1), (1, -1), (-1, 0), (0, 0), (1, 0), (-1, 1), (0, 1), (1, 1)]

  /** Whether some `i32` sum `x + dx` or `y + dy` over the offsets
      overflows; both -1 and +1 are applied on each axis. */
  predicate OffsetOverflows(t: Tile) {
    !(IsI32(t.x - 1) && IsI32(t.x + 1) && IsI32(t.y - 1) && IsI32(t.y + 1))
  }

  /** Column and row of the tile at offset `k` from `t`: the source's
      `tile_x + perm_x` and `tile_y + perm_y`. */
  function NeighborX(t: Tile, k: nat): int
    requires k < |Offsets|
  {
    t.x + Offsets[k].0
  }

  function NeighborY(t: Tile, k: nat): int
    requires k < |Offsets|
  {
    t.y + Offsets[k].1
  }

  /** The nine encoded neighbours of `t`: the row above, its own row and the
      row below, each from west to east. */
  function NeighborList(t: Tile): (ns: seq<seq<char>>)
    requires t.precision <= MaxPrecision
    ensures |ns| == 9
    ensures forall k :: 0 <= k < 9 ==>
      ns[k] == TileToQuadkey(t.x + k % 3 - 1, t.y + k / 3 - 1, t.precision)
  {
    assert forall k :: 0 <= k < 9 ==> NeighborX(t, k) == t.x + k % 3 - 1 && NeighborY(t, k) == t.y + k / 3 - 1;
    seq(|Offsets|, k requires 0 <= k < |Offsets| =>
      TileToQuadkey(NeighborX(t, k), NeighborY(t, k), t.precision))
  }

  /** Decode `q`, add each offset and re-encode at the same precision.
      There is no range check: a tile just outside the grid is encoded by
      its low bits, as the source does. */
  function Neighbors(q: seq<char>): (r: Result<seq<seq<char>>>)
    ensures QuadkeyToTile(q).Failure? ==> r == Failure(QuadkeyToTile(q).error)
    ensures r.Success? <==> QuadkeyToTile(q).Success? && !OffsetOverflows(QuadkeyToTile(q).value)
    ensures r.Failure? && QuadkeyToTile(q).Success? ==> r.error == ArithmeticOverflow
    ensures r.Success? ==> |r.value| == |Offsets|
    ensures r.Success? ==> forall k :: 0 <= k < |r.value| ==> |r.value[k]| == |q| && IsQuadkey(r.value[k])
  {
    match QuadkeyToTile(q)
    case Failure(e) => Failure(e)
    case Success(t) =>
      if OffsetOverflows(t) then Failure(ArithmeticOverflow) else Success(NeighborList(t))
  }

  /** An offset overflows only at the very ends of the `i32` range, which a
      quadkey shorter than 31 characters cannot reach. */
  lemma NoOverflowBelow31(q: seq<char>)
    requires |q| <= 30 && IsQuadkey(q)
    ensures Neighbors(q).Success?
  {
    var t := QuadkeyToTile(q).value;
    Pow2Monotone(|q|, 30);
    assert Pow2(30) == 0x4000_0000 by {
      Pow2Of32();
    }
    assert !OffsetOverflows(t);
  }

  /** Entry `k` is the encoding of the tile at offset `k` from the decoded tile. */
  lemma NeighborIsOffsetTile(q: seq<char>, t: Tile, k: nat)
    requires QuadkeyToTile(q) == Success(t) && Neighbors(q).Success? && k < |Offsets|
    ensures Neighbors(q).value[k] == TileToQuadkey(NeighborX(t, k), NeighborY(t, k), t.precision)
  {
    assert Neighbors(q) == Success(NeighborList(t));
  }

  /** The centre entry is the quadkey itself. */
  lemma CentreIsSelf(q: seq<char>)
    requires Neighbors(q).Success?
    ensures Neighbors(q).value[4] == q
  {
    var t := QuadkeyToTile(q).value;
    NeighborIsOffsetTile(q, t, 4);
    ReverseRoundTrip(q);
  }

  /** Each entry decodes to the offset tile reduced to the grid (`mod 2^p`
      on both axes): a neighbour off one edge is the tile on the opposite edge. */
  lemma NeighborDecodes(q: seq<char>, t: Tile, k: nat)
    requires QuadkeyToTile(q) == Success(t) && Neighbors(q).Success? && k < |Offsets|
    ensures QuadkeyToTile(Neighbors(q).value[k]) ==
      Success(Tile(ToI32(NeighborX(t, k) % Pow2(t.precision)), ToI32(NeighborY(t, k) % Pow2(t.precision)), t.precision))
  {
    NeighborIsOffsetTile(q, t, k);
    RoundTrip(NeighborX(t, k), NeighborY(t, k), t.precision);
  }

  /** A neighbour inside the grid decodes to exactly the offset tile. */
  lemma InGridNeighborDecodes(q: seq<char>, t: Tile, k: nat)
    requires QuadkeyToTile(q) == Success(t) && Neighbors(q).Success? && k < |Offsets|
    requires 0 <= NeighborX(t, k) < Pow2(t.precision) && 0 <= NeighborY(t, k) < Pow2(t.precision)
    ensures QuadkeyToTile(Neighbors(q).value[k]) == Success(Tile(NeighborX(t, k), NeighborY(t, k), t.precision))
  {
    NeighborIsOffsetTile(q, t, k);
    OffsetStaysI32(t, k);
    ExactRoundTrip(NeighborX(t, k), NeighborY(t, k), t.precision);
  }

  /** When no offset overflows, every offset tile has `i32` indices. */
  lemma OffsetStaysI32(t: Tile, k: nat)
    requires !OffsetOverflows(t) && k < |Offsets|
    ensures IsI32(NeighborX(t, k)) && IsI32(NeighborY(t, k))
  {
    assert -1 <= Offsets[k].0 <= 1 && -1 <= Offsets[k].1 <= 1;
  }

  /** At the western edge (column 0) the entries to the left land in the
      last column, `2^p - 1`: no bounds check is made. */
  lemma WestEdgeWraps(q: seq<char>, t: Tile, k: nat)
    requires 1 <= |q| <= 30 && QuadkeyToTile(q) == Success(t) && t.x == 0
    requires k < |Offsets| && Offsets[k].0 == -1
    ensures Neighbors(q).Success?
    ensures QuadkeyToTile(Neighbors(q).value[k]).value.x == Pow2(t.precision) - 1
  {
    var p := t.precision;
    NoOverflowBelow31(q);
    NeighborDecodes(q, t, k);
    assert NeighborX(t, k) % Pow2(p) == Pow2(p) - 1 by {
      DivModUnique(-1, Pow2(p), -1, Pow2(p) - 1);
    }
    assert IsI32(Pow2(p) - 1) by {
      Pow2Monotone(p, 30);
      assert Pow2(30) == 0x4000_0000 by {
        Pow2Of32();
      }
    }
  }
}
