/** Tile coordinates and quadkeys (the Bing Maps Tile System scheme).

    A quadkey of length `p` names one tile of the `2^p` by `2^p` grid at zoom
    level `p`. Character `k` is the quadrant chosen at level `k + 1`: its
    value is the column bit (weight 1) plus twice the row bit (weight 2) of
    bit `p - 1 - k` of the tile indices, so the most significant level comes
    first and every prefix names an ancestor tile.
 */
module Quadkey {
  import opened Bits

  /** A tile column `x`, row `y` at zoom level `precision`. Columns and rows
      are `i32` in the source; neighbour arithmetic may take them outside
      the grid, so no range is imposed here. */
  datatype Tile = Tile(x: int, y: int, precision: nat)

  /** The ways a conversion can stop. Each one is a panic in the source
      (built with overflow checks, as in its tests). */
  datatype CodecError =
    | InvalidDigit        // a quadkey character outside '0'..'3'
    | ShiftOverflow       // a mask `1 << n` with `n >= 32` on an `i32`
    | ArithmeticOverflow  // an `i32` addition or multiplication that overflows

  datatype Result<T> = Success(value: T) | Failure(error: CodecError)

  /** The longest quadkey whose masks `1 << (p - 1)` fit an `i32` shift. */
  const MaxPrecision: nat := 32

  datatype Axis = Column | Row

  predicate IsQuadDigit(c: char) {
    '0' <= c <= '3'
  }

  predicate IsQuadkey(q: seq<char>) {
    forall k :: 0 <= k < |q| ==> IsQuadDigit(q[k])
  }

  /** The bit a quadkey digit carries for an axis: '1' and '3' set the
      column, '2' and '3' set the row. */
  function AxisBit(c: char, a: Axis): nat {
    match a
    case Column => if c == '1' || c == '3' then 1 else 0
    case Row => if c == '2' || c == '3' then 1 else 0
  }

  /** The digit of one zoom level: bit `level` of `x` with weight 1 and bit
      `level` of `y` with weight 2. */
  function Digit(x: int, y: int, level: nat): (c: char)
    ensures IsQuadDigit(c)
    ensures AxisBit(c, Column) == Bit(x, level)
    ensures AxisBit(c, Row) == Bit(y, level)
  {
    ('0' as int + Bit(x, level) + 2 * Bit(y, level)) as char
  }

  /** A quadkey digit is determined by the two bits it carries. */
  lemma DigitDetermined(c: char, d: char)
    requires IsQuadDigit(c) && IsQuadDigit(d)
    requires AxisBit(c, Column) == AxisBit(d, Column)
    requires AxisBit(c, Row) == AxisBit(d, Row)
    ensures c == d
  {
  }

  /** The quadkey of tile (`x`, `y`) at zoom level `p`: levels `p` down to 1. */
  function TileToQuadkey(x: int, y: int, p: nat): (q: seq<char>)
    requires p <= MaxPrecision
    ensures |q| == p
    ensures IsQuadkey(q)
  {
    if p == 0 then [] else [Digit(x, y, p - 1)] + TileToQuadkey(x, y, p - 1)
  }

  /** Character `k` of the quadkey carries bit `p - 1 - k` of the column and
      of the row: levels are emitted from `p` down to 1. */
  lemma {:induction false} TileToQuadkeyDigit(x: int, y: int, p: nat, k: nat)
    requires k < p <= MaxPrecision
    ensures AxisBit(TileToQuadkey(x, y, p)[k], Column) == Bit(x, p - 1 - k)
    ensures AxisBit(TileToQuadkey(x, y, p)[k], Row) == Bit(y, p - 1 - k)
  {
    var q := TileToQuadkey(x, y, p);
    assert q == [Digit(x, y, p - 1)] + TileToQuadkey(x, y, p - 1);
    if k > 0 {
      assert q[k] == TileToQuadkey(x, y, p - 1)[k - 1];
      TileToQuadkeyDigit(x, y, p - 1, k - 1);
    }
  }

  /** The source's loop: for `i` from `p` down to 1, start from '0', add 1
      when the mask `1 << (i - 1)` meets `x` and 2 when it meets `y`, push. */
  method TileToQuadkeyLoop(x: int, y: int, p: nat) returns (q: seq<char>)
    requires p <= MaxPrecision
    ensures q == TileToQuadkey(x, y, p)
  {
    ghost var spec := TileToQuadkey(x, y, p);
    q := [];
    var i := p;
    while i >= 1
      invariant 0 <= i <= p
      invariant q == spec[..p - i]
    {
      var digit := '0';
      if Bit(x, i - 1) == 1 {
        digit := (digit as int + 1) as char;
      }
      if Bit(y, i - 1) == 1 {
        digit := (digit as int + 2) as char;
      }
      TileToQuadkeyDigit(x, y, p, p - i);
      DigitDetermined(digit, spec[p - i]);
      q := q + [digit];
      i := i - 1;
    }
  }

  /** The unsigned value whose bits are the `a`-bits of `q`, the first
      character giving the most significant bit. */
  function AxisBits(q: seq<char>, a: Axis): (v: nat)
    ensures v < Pow2(|q|)
  {
    if q == [] then 0 else AxisBit(q[0], a) * Pow2(|q| - 1) + AxisBits(q[1..], a)
  }

  /** Character `k` of a quadkey sets bit `|q| - 1 - k` of the tile index. */
  lemma {:induction false} AxisBitsDigit(q: seq<char>, a: Axis, k: nat)
    requires k < |q|
    ensures Bit(AxisBits(q, a), |q| - 1 - k) == AxisBit(q[k], a)
  {
    var n := |q|;
    var rest := AxisBits(q[1..], a);
    var top := AxisBit(q[0], a);
    assert AxisBits(q, a) == top * Pow2(n - 1) + rest;
    if k == 0 {
      BitOfTop(top, rest, n - 1);
    } else {
      BitAddHigh(rest, top, n - 1, n - 1 - k);
      AxisBitsDigit(q[1..], a, k - 1);
    }
  }

  /** The tile a quadkey names. The source gathers the bits with `|=` into
      `i32` accumulators, so at length 32 bit 31 lands in the sign. */
  function QuadkeyToTile(q: seq<char>): (r: Result<Tile>)
    ensures |q| > MaxPrecision ==> r == Failure(ShiftOverflow)
    ensures |q| <= MaxPrecision ==> (r.Failure? <==> !IsQuadkey(q))
    ensures |q| <= MaxPrecision && r.Failure? ==> r.error == InvalidDigit
    ensures r.Success? ==> r.value.precision == |q| && IsI32(r.value.x) && IsI32(r.value.y)
    ensures r.Success? && |q| < MaxPrecision ==>
      0 <= r.value.x < Pow2(|q|) && 0 <= r.value.y < Pow2(|q|)
  {
    if |q| > MaxPrecision then
      Failure(ShiftOverflow)
    else if !IsQuadkey(q) then
      Failure(InvalidDigit)
    else
      var x := AxisBits(q, Column);
      var y := AxisBits(q, Row);
      assert |q| < MaxPrecision ==> ToI32(x) == x && ToI32(y) == y by {
        if |q| < MaxPrecision {
          AxisBitsFitI32(q, Column);
          AxisBitsFitI32(q, Row);
        }
      }
      Success(Tile(ToI32(x), ToI32(y), |q|))
  }

  /** Character `k` of a decoded quadkey sets bit `|q| - 1 - k` of the column
      when it is '1' or '3' and of the row when it is '2' or '3'. */
  lemma DecodedBit(q: seq<char>, k: nat)
    requires QuadkeyToTile(q).Success? && k < |q|
    ensures Bit(QuadkeyToTile(q).value.x, |q| - 1 - k) == AxisBit(q[k], Column)
    ensures Bit(QuadkeyToTile(q).value.y, |q| - 1 - k) == AxisBit(q[k], Row)
  {
    AxisBitsDigit(q, Column, k);
    AxisBitsDigit(q, Row, k);
    BitOfToI32(AxisBits(q, Column), |q| - 1 - k);
    BitOfToI32(AxisBits(q, Row), |q| - 1 - k);
  }

  /** At length 32 the first character lands in the sign bit: the column
      decodes negative exactly when it is '1' or '3', the row exactly when
      it is '2' or '3'. */
  lemma FullWidthSign(q: seq<char>)
    requires |q| == MaxPrecision && QuadkeyToTile(q).Success?
    ensures QuadkeyToTile(q).value.x < 0 <==> q[0] == '1' || q[0] == '3'
    ensures QuadkeyToTile(q).value.y < 0 <==> q[0] == '2' || q[0] == '3'
  {
    DecodedBit(q, 0);
    SignBit(QuadkeyToTile(q).value.x);
    SignBit(QuadkeyToTile(q).value.y);
  }

  /** Below precision 32 the collected bits never reach the sign bit. */
  lemma AxisBitsFitI32(q: seq<char>, a: Axis)
    requires |q| < MaxPrecision
    ensures ToI32(AxisBits(q, a)) == AxisBits(q, a)
  {
    Pow2Monotone(|q|, 31);
    Pow2Of32();
  }

  /** Appending a character shifts the gathered value left by one bit and
      brings the character's bit in at the bottom. */
  lemma {:induction false} AxisBitsSnoc(s: seq<char>, c: char, a: Axis)
    ensures AxisBits(s + [c], a) == 2 * AxisBits(s, a) + AxisBit(c, a)
  {
    if s != [] {
      var b := AxisBit(s[0], a);
      assert (s + [c])[1..] == s[1..] + [c];
      AxisBitsSnoc(s[1..], c, a);
      assert b * Pow2(|s|) == 2 * (b * Pow2(|s| - 1));
    }
  }

  /** The value the decoding loop has gathered for an axis after its first
      `i` characters: their bits, placed at `|q| - 1` down to `|q| - i`. */
  function Gathered(q: seq<char>, i: nat, a: Axis): nat
    requires i <= |q|
  {
    AxisBits(q[..i], a) * Pow2(|q| - i)
  }

  /** One step of the decoding loop: bit `n = |q| - i - 1` of the value
      gathered so far is clear, and character `i` adds its bit times `2^n`. */
  lemma GatherStep(q: seq<char>, i: nat, a: Axis)
    requires i < |q|
    ensures Bit(Gathered(q, i, a), |q| - i - 1) == 0
    ensures Gathered(q, i + 1, a) == Gathered(q, i, a) + AxisBit(q[i], a) * Pow2(|q| - i - 1)
  {
    var n := |q| - i - 1;
    var v, b := AxisBits(q[..i], a), AxisBit(q[i], a);
    assert q[..i + 1] == q[..i] + [q[i]];
    AxisBitsSnoc(q[..i], q[i], a);
    assert Gathered(q, i, a) == 0 + v * Pow2(n + 1);
    BitAddHigh(0, v, n + 1, n);
    ShiftInBit(v, b, Pow2(n));
  }

  lemma ShiftInBit(v: int, b: int, p: int)
    ensures (2 * v + b) * p == v * (2 * p) + b * p
  {
  }

  /** The `i32` accumulator after character `i`: ORing in the mask when the
      character carries the axis bit, keeping the value otherwise. */
  lemma OrStep(q: seq<char>, i: nat, a: Axis)
    requires i < |q| && |q| - i - 1 < 32
    ensures AxisBit(q[i], a) == 0 ==> ToI32(Gathered(q, i + 1, a)) == ToI32(Gathered(q, i, a))
    ensures AxisBit(q[i], a) == 1 ==>
      ToI32(Gathered(q, i + 1, a)) == SetBit(ToI32(Gathered(q, i, a)), |q| - i - 1)
  {
    GatherStep(q, i, a);
    if AxisBit(q[i], a) == 1 {
      SetBitOfToI32(Gathered(q, i, a), |q| - i - 1);
    }
  }

  /** The source's loop: each character in turn ORs the mask
      `1 << (|q| - i - 1)` into the column for '1' and '3' and into the row
      for '2' and '3'. A mask past bit 31 is a shift overflow; any other
      character is an invalid digit. */
  method QuadkeyToTileLoop(q: seq<char>) returns (r: Result<Tile>)
    ensures r == QuadkeyToTile(q)
  {
    var x, y := 0, 0;
    var precision := |q|;
    var i := 0;
    while i < |q|
      invariant 0 <= i <= |q|
      invariant i > 0 ==> |q| <= MaxPrecision
      invariant IsQuadkey(q[..i])
      invariant x == ToI32(Gathered(q, i, Column)) && y == ToI32(Gathered(q, i, Row))
    {
      if precision - i - 1 >= 32 {
        return Failure(ShiftOverflow);
      }
      var shift: nat := precision - i - 1;
      OrStep(q, i, Column);
      OrStep(q, i, Row);
      match q[i] {
        case '0' =>
        case '1' =>
          x := SetBit(x, shift);
        case '2' =>
          y := SetBit(y, shift);
        case '3' =>
          x := SetBit(x, shift);
          y := SetBit(y, shift);
        case _ =>
          assert !IsQuadDigit(q[i]);
          return Failure(InvalidDigit);
      }
      assert q[..i + 1] == q[..i] + [q[i]];
      i := i + 1;
    }
    assert q[..i] == q;
    return Success(Tile(x, y, precision));
  }

  /** A quadkey depends only on the low `p` bits of the tile indices. */
  lemma SameLowBitsSameQuadkey(x: int, y: int, x': int, y': int, p: nat)
    requires p <= MaxPrecision
    requires forall i: nat :: i < p ==> Bit(x, i) == Bit(x', i) && Bit(y, i) == Bit(y', i)
    ensures TileToQuadkey(x, y, p) == TileToQuadkey(x', y', p)
  {
    var q, q' := TileToQuadkey(x, y, p), TileToQuadkey(x', y', p);
    forall k | 0 <= k < p
      ensures q[k] == q'[k]
    {
      TileToQuadkeyDigit(x, y, p, k);
      TileToQuadkeyDigit(x', y', p, k);
      DigitDetermined(q[k], q'[k]);
    }
  }

  /** Reading the column bits back from an encoded tile gives its low `p` bits. */
  lemma {:induction false} AxisBitsOfTileToQuadkey(x: int, y: int, p: nat)
    requires p <= MaxPrecision
    ensures AxisBits(TileToQuadkey(x, y, p), Column) == x % Pow2(p)
    ensures AxisBits(TileToQuadkey(x, y, p), Row) == y % Pow2(p)
  {
    if p == 0 {
      DivModUnique(x, 1, x, 0);
      DivModUnique(y, 1, y, 0);
    } else {
      var q := TileToQuadkey(x, y, p);
      assert q[1..] == TileToQuadkey(x, y, p - 1);
      AxisBitsOfTileToQuadkey(x, y, p - 1);
      ModPow2Split(x, p - 1);
      ModPow2Split(y, p - 1);
    }
  }

  /** Decoding an encoded tile yields its indices reduced to the grid
      (`mod 2^p`) and reinterpreted as `i32`, at the same precision. */
  lemma RoundTrip(x: int, y: int, p: nat)
    requires p <= MaxPrecision
    ensures QuadkeyToTile(TileToQuadkey(x, y, p)) == Success(Tile(ToI32(x % Pow2(p)), ToI32(y % Pow2(p)), p))
  {
    AxisBitsOfTileToQuadkey(x, y, p);
  }

  /** `tile_to_quadkey` for any precision: its first mask, `1 << (p - 1)`,
      overflows the `i32` shift once `p` exceeds 32, before any digit is
      emitted; otherwise the key is `TileToQuadkey`, which decodes back to
      the tile reduced to the grid. */
  function CheckedTileToQuadkey(x: int, y: int, p: nat): (r: Result<seq<char>>)
    ensures r.Failure? <==> p > MaxPrecision
    ensures r.Failure? ==> r.error == ShiftOverflow
    ensures r.Success? ==> |r.value| == p && IsQuadkey(r.value)
    ensures r.Success? ==>
      QuadkeyToTile(r.value) == Success(Tile(ToI32(x % Pow2(p)), ToI32(y % Pow2(p)), p))
  {
    if p > MaxPrecision then
      Failure(ShiftOverflow)
    else
      RoundTrip(x, y, p);
      Success(TileToQuadkey(x, y, p))
  }

  /** Exact round trip for a tile inside the grid. */
  lemma ExactRoundTrip(x: int, y: int, p: nat)
    requires p <= MaxPrecision
    requires 0 <= x < Pow2(p) && 0 <= y < Pow2(p)
    requires IsI32(x) && IsI32(y)
    ensures QuadkeyToTile(TileToQuadkey(x, y, p)) == Success(Tile(x, y, p))
  {
    RoundTrip(x, y, p);
    DivModUnique(x, Pow2(p), 0, x);
    DivModUnique(y, Pow2(p), 0, y);
  }

  /** At precision 32 every `i32` tile, negative ones included, survives the
      round trip: the 32 digits carry all of its two's-complement bits. */
  lemma FullWidthRoundTrip(x: int, y: int)
    requires IsI32(x) && IsI32(y)
    ensures QuadkeyToTile(TileToQuadkey(x, y, 32)) == Success(Tile(x, y, 32))
  {
    RoundTrip(x, y, 32);
    Pow2Of32();
    ToI32OfMod(x);
    ToI32OfMod(y);
  }

  /** Encoding the decoded tile gives back the quadkey. */
  lemma ReverseRoundTrip(q: seq<char>)
    requires QuadkeyToTile(q).Success?
    ensures TileToQuadkey(QuadkeyToTile(q).value.x, QuadkeyToTile(q).value.y, |q|) == q
  {
    var t := QuadkeyToTile(q).value;
    var q' := TileToQuadkey(t.x, t.y, t.precision);
    forall k | 0 <= k < |q|
      ensures q'[k] == q[k]
    {
      ReverseDigit(q, t, k);
    }
  }

  lemma ReverseDigit(q: seq<char>, t: Tile, k: nat)
    requires QuadkeyToTile(q) == Success(t) && k < t.precision
    ensures TileToQuadkey(t.x, t.y, t.precision)[k] == q[k]
  {
    var c := TileToQuadkey(t.x, t.y, t.precision)[k];
    var d := q[k];
    var i := t.precision - 1 - k;
    assert IsQuadDigit(c) && IsQuadDigit(d);
    assert Bit(t.x, i) == AxisBit(d, Column) && Bit(t.y, i) == AxisBit(d, Row) by {
      DecodedBit(q, k);
    }
    assert Bit(t.x, i) == AxisBit(c, Column) && Bit(t.y, i) == AxisBit(c, Row) by {
      TileToQuadkeyDigit(t.x, t.y, t.precision, k);
    }
    DigitDetermined(c, d);
  }

  /** The first `k` characters of a quadkey name the ancestor tile at level
      `k`: both indices shifted right by `p - k` bits. */
  lemma PrefixIsAncestor(x: int, y: int, p: nat, k: nat)
    requires k <= p <= MaxPrecision
    ensures TileToQuadkey(x, y, p)[..k] == TileToQuadkey(ShiftRight(x, p - k), ShiftRight(y, p - k), k)
  {
    var q := TileToQuadkey(x, y, p);
    var a := TileToQuadkey(ShiftRight(x, p - k), ShiftRight(y, p - k), k);
    forall j | 0 <= j < k
      ensures q[j] == a[j]
    {
      TileToQuadkeyDigit(x, y, p, j);
      TileToQuadkeyDigit(ShiftRight(x, p - k), ShiftRight(y, p - k), k, j);
      BitOfShift(x, p - k, k - 1 - j);
      BitOfShift(y, p - k, k - 1 - j);
      DigitDetermined(q[j], a[j]);
    }
  }

  /** The quadkey of a tile is the quadkey of its ancestor `b` levels up
      followed by the quadkey of its position inside that ancestor. */
  lemma SplitQuadkey(x: int, y: int, a: nat, b: nat)
    requires a + b <= MaxPrecision
    ensures TileToQuadkey(x, y, a + b) ==
      TileToQuadkey(ShiftRight(x, b), ShiftRight(y, b), a) + TileToQuadkey(x % Pow2(b), y % Pow2(b), b)
  {
    var q := TileToQuadkey(x, y, a + b);
    var s := TileToQuadkey(x % Pow2(b), y % Pow2(b), b);
    assert q[..a] == TileToQuadkey(ShiftRight(x, b), ShiftRight(y, b), a) by {
      PrefixIsAncestor(x, y, a + b, a);
    }
    assert q[a..] == s by {
      forall j | 0 <= j < b
        ensures q[a..][j] == s[j]
      {
        SplitDigit(x, y, a, b, j);
      }
    }
    assert q == q[..a] + q[a..];
  }

  lemma SplitDigit(x: int, y: int, a: nat, b: nat, j: nat)
    requires a + b <= MaxPrecision && j < b
    ensures TileToQuadkey(x, y, a + b)[a + j] == TileToQuadkey(x % Pow2(b), y % Pow2(b), b)[j]
  {
    var c := TileToQuadkey(x, y, a + b)[a + j];
    var d := TileToQuadkey(x % Pow2(b), y % Pow2(b), b)[j];
    var i := b - 1 - j;
    assert IsQuadDigit(c) && IsQuadDigit(d);
    assert AxisBit(c, Column) == Bit(x, i) && AxisBit(c, Row) == Bit(y, i) by {
      TileToQuadkeyDigit(x, y, a + b, a + j);
    }
    assert AxisBit(d, Column) == Bit(x, i) && AxisBit(d, Row) == Bit(y, i) by {
      TileToQuadkeyDigit(x % Pow2(b), y % Pow2(b), b, j);
      LowBit(x, b, i);
      LowBit(y, b, i);
    }
    DigitDetermined(c, d);
  }

  /** Reducing modulo `2^m` keeps every bit below `m`. */
  lemma LowBit(x: int, m: nat, i: nat)
    requires i < m
    ensures Bit(x % Pow2(m), i) == Bit(x, i)
  {
    assert x == x % Pow2(m) + (x / Pow2(m)) * Pow2(m);
    BitAddHigh(x % Pow2(m), x / Pow2(m), m, i);
  }

  /** For a valid quadkey, the tile a prefix names is the decoded tile
      shifted right by the number of dropped levels. */
  lemma PrefixDecodesToAncestor(q: seq<char>, k: nat)
    requires |q| < MaxPrecision && IsQuadkey(q) && k <= |q|
    ensures QuadkeyToTile(q[..k]) == Success(Tile(
      ShiftRight(QuadkeyToTile(q).value.x, |q| - k), ShiftRight(QuadkeyToTile(q).value.y, |q| - k), k))
  {
    var t := QuadkeyToTile(q).value;
    var m := |q| - k;
    var ax, ay := ShiftRight(t.x, m), ShiftRight(t.y, m);
    assert q[..k] == TileToQuadkey(ax, ay, k) by {
      ReverseRoundTrip(q);
      PrefixIsAncestor(t.x, t.y, |q|, k);
    }
    assert 0 <= ax < Pow2(k) && 0 <= ay < Pow2(k) by {
      ShiftBelow(t.x, k, m);
      ShiftBelow(t.y, k, m);
    }
    assert IsI32(ax) && IsI32(ay) by {
      Pow2Monotone(k, 31);
      Pow2Of32();
    }
    ExactRoundTrip(ax, ay, k);
  }

  /** Dropping the `m` low bits of a value below `2^(k + m)` leaves a value below `2^k`. */
  lemma ShiftBelow(x: int, k: nat, m: nat)
    requires 0 <= x < Pow2(k + m)
    ensures 0 <= ShiftRight(x, m) < Pow2(k)
  {
    var d, r := x / Pow2(m), x % Pow2(m);
    assert x == Pow2(m) * d + r;
    if d < 0 {
      MulMonotone(Pow2(m), d, -1);
      assert false;
    }
    if d >= Pow2(k) {
      Pow2Add(k, m);
      MulMonotone(Pow2(m), Pow2(k), d);
      assert false;
    }
  }
}
