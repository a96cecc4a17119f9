/** Integer bit arithmetic shared by the quadkey codec.

    Tile indices are unbounded integers here. Bit `i` of an integer is read
    with Dafny's Euclidean division, which for a negative value yields the
    same bit pattern as a two's-complement machine word (so `x & (1 << i)`
    on an `i32` is nonzero exactly when `Bit(x, i) == 1`, for `i < 32`).
 */
module Bits {

  /** 2 to the power `n`. */
  function Pow2(n: nat): (r: nat)
    ensures r >= 1
  {
    if n == 0 then 1 else 2 * Pow2(n - 1)
  }

  /** Bit `i` of `x`, in infinite two's-complement form. */
  function Bit(x: int, i: nat): (b: nat)
    ensures b <= 1
  {
    (x / Pow2(i)) % 2
  }

  /** `x` shifted right by `n` bits, the vacated high bits copying the sign
      (an arithmetic shift: division rounding toward minus infinity). */
  function ShiftRight(x: int, n: nat): int {
    x / Pow2(n)
  }

  const I32Min: int := -0x8000_0000
  const I32Max: int := 0x7FFF_FFFF
  const WordSize: int := 0x1_0000_0000

  /** Values representable by a Rust `i32`. */
  predicate IsI32(v: int) {
    I32Min <= v <= I32Max
  }

  /** The `i32` whose 32 low bits are those of `v` (two's-complement
      reinterpretation, as produced by setting bit 31 of an `i32`). */
  function ToI32(v: int): (r: int)
    ensures IsI32(r)
    ensures (r - v) % WordSize == 0
    ensures IsI32(v) ==> r == v
  {
    var u := (v - I32Min) % WordSize;
    DivModUnique(v - I32Min, WordSize, (v - I32Min) / WordSize, u);
    assert IsI32(v) ==> u == v - I32Min by {
      if IsI32(v) {
        DivModUnique(v - I32Min, WordSize, 0, v - I32Min);
      }
    }
    u + I32Min
  }

  lemma Pow2Add(a: nat, b: nat)
    ensures Pow2(a + b) == Pow2(a) * Pow2(b)
  {
    if a > 0 {
      Pow2Add(a - 1, b);
    }
  }

  lemma Pow2Monotone(a: nat, b: nat)
    requires a <= b
    ensures Pow2(a) <= Pow2(b)
  {
    if a < b {
      Pow2Monotone(a, b - 1);
    }
  }

  lemma Pow2Of32()
    ensures Pow2(32) == WordSize
    ensures Pow2(31) == I32Max + 1
  {
    assert Pow2(8) == 256;
    Pow2Add(8, 8);
    Pow2Add(16, 16);
  }

  /** Euclidean division is determined by any quotient/remainder pair. */
  lemma DivModUnique(a: int, d: int, q: int, r: int)
    requires d > 0 && a == d * q + r && 0 <= r < d
    ensures a / d == q && a % d == r
  {
    var q' := a / d;
    var r' := a % d;
    assert a == d * q' + r';
    if q' > q {
      assert d * q' >= d * (q + 1) by { MulMonotone(d, q + 1, q'); }
      assert false;
    } else if q' < q {
      assert d * q >= d * (q' + 1) by { MulMonotone(d, q' + 1, q); }
      assert false;
    }
  }

  lemma MulMonotone(d: int, a: int, b: int)
    requires d > 0 && a <= b
    ensures d * a <= d * b
  {
  }

  /** Adding a multiple of the divisor shifts the quotient and keeps the remainder. */
  lemma DivAddMultiple(a: int, d: int, k: int)
    requires d > 0
    ensures (a + k * d) / d == a / d + k
    ensures (a + k * d) % d == a % d
  {
    DivModUnique(a + k * d, d, a / d + k, a % d);
  }

  /** Dividing twice is dividing by the product (floor division nests). */
  lemma DivDiv(x: int, a: int, b: int)
    requires a > 0 && b > 0
    ensures (x / a) / b == x / (a * b)
  {
    var q1, r1 := x / a, x % a;
    var q2, r2 := q1 / b, q1 % b;
    assert x == a * (b * q2 + r2) + r1;
    assert a * (b * q2 + r2) == (a * b) * q2 + a * r2;
    assert a * r2 <= a * (b - 1) by { MulMonotone(a, r2, b - 1); }
    assert 0 <= a * r2;
    DivModUnique(x, a * b, q2, a * r2 + r1);
  }

  /** Bit `j` of `x / 2^m` is bit `m + j` of `x`: a right shift. */
  lemma BitOfShift(x: int, m: nat, j: nat)
    ensures Bit(ShiftRight(x, m), j) == Bit(x, m + j)
  {
    DivDiv(x, Pow2(m), Pow2(j));
    Pow2Add(m, j);
  }

  /** Adding any multiple of `2^m` leaves every bit below `m` unchanged. */
  lemma BitAddHigh(x: int, c: int, m: nat, i: nat)
    requires i < m
    ensures Bit(x + c * Pow2(m), i) == Bit(x, i)
  {
    var d := Pow2(i);
    var h := Pow2(m - i - 1);
    assert c * Pow2(m) == (c * h) * 2 * d by {
      Pow2Add(i, m - i);
      assert Pow2(m - i) == 2 * h;
      MulAssoc(c, h, d);
    }
    ParityAddEvenMultiple(x, d, c * h);
  }

  lemma MulAssoc(c: int, h: int, d: int)
    ensures c * (d * (2 * h)) == (c * h) * 2 * d
  {
  }

  /** Adding an even multiple of `d` keeps the parity of the quotient by `d`. */
  lemma ParityAddEvenMultiple(x: int, d: int, k: int)
    requires d > 0
    ensures ((x + k * 2 * d) / d) % 2 == (x / d) % 2
  {
    DivAddMultiple(x, d, k * 2);
    DivAddMultiple(x / d, 2, k);
  }

  /** The low `p + 1` bits of `x` are bit `p` followed by the low `p` bits. */
  lemma ModPow2Split(x: int, p: nat)
    ensures x % Pow2(p + 1) == Bit(x, p) * Pow2(p) + x % Pow2(p)
  {
    var q := x / Pow2(p);
    var r := x % Pow2(p);
    assert x == Pow2(p) * q + r;
    var q2 := q / 2;
    var b := q % 2;
    assert q == 2 * q2 + b;
    assert Pow2(p) * q == Pow2(p + 1) * q2 + b * Pow2(p);
    assert b * Pow2(p) + r < Pow2(p + 1) by {
      assert b * Pow2(p) <= Pow2(p);
    }
    DivModUnique(x, Pow2(p + 1), q2, b * Pow2(p) + r);
  }

  /** A bit placed at position `m` above a remainder below `2^m` reads back. */
  lemma BitOfTop(a: nat, r: int, m: nat)
    requires a <= 1 && 0 <= r < Pow2(m)
    ensures Bit(a * Pow2(m) + r, m) == a
  {
    DivModUnique(a * Pow2(m) + r, Pow2(m), a, r);
  }

  /** A non-negative integer with bit `n` set is at least `2^n`. */
  lemma BitSetAtLeast(x: int, n: nat)
    requires x >= 0 && Bit(x, n) == 1
    ensures x >= Pow2(n)
  {
    var q := x / Pow2(n);
    assert q >= 1;
    assert x >= Pow2(n) * q;
    MulMonotone(Pow2(n), 1, q);
  }

  /** Reinterpreting as `i32` keeps the 32 low bits. */
  lemma BitOfToI32(v: int, i: nat)
    requires i < 32
    ensures Bit(ToI32(v), i) == Bit(v, i)
  {
    var r := ToI32(v);
    var c := (r - v) / WordSize;
    assert r == v + c * WordSize;
    Pow2Of32();
    BitAddHigh(v, c, 32, i);
  }

  /** Two values congruent modulo `2^32` reinterpret as the same `i32`. */
  lemma ToI32Congruent(a: int, b: int)
    requires (a - b) % WordSize == 0
    ensures ToI32(a) == ToI32(b)
  {
    var k := (a - b) / WordSize;
    assert a - I32Min == (b - I32Min) + k * WordSize;
    DivAddMultiple(b - I32Min, WordSize, k);
  }

  /** Reducing modulo `2^32` first does not change the reinterpretation. */
  lemma ToI32OfMod(v: int)
    ensures ToI32(v % WordSize) == ToI32(v)
  {
    var k := v / WordSize;
    assert v % WordSize - v == 0 + (-k) * WordSize;
    DivAddMultiple(0, WordSize, -k);
    ToI32Congruent(v % WordSize, v);
  }

  /** Adding to a reinterpreted value and reinterpreting again is adding first. */
  lemma ToI32AddLate(v: int, d: int)
    ensures ToI32(ToI32(v) + d) == ToI32(v + d)
  {
    ToI32Congruent(ToI32(v) + d, v + d);
  }

  /** Rust's `v | (1 << n)` on an `i32`, for a shift `n` below 32: bit `n`
      set and the other 32 bits kept. When bit `n` is clear this adds
      `2^n`, wrapping into the sign for `n == 31`. */
  function SetBit(v: int, n: nat): (r: int)
    requires IsI32(v) && n < 32
    ensures IsI32(r)
    ensures forall i: nat :: i < 32 ==> Bit(r, i) == if i == n then 1 else Bit(v, i)
  {
    if Bit(v, n) == 1 then
      v
    else
      forall i: nat | i < 32
        ensures Bit(ToI32(v + Pow2(n)), i) == if i == n then 1 else Bit(v, i)
      {
        BitOfToI32(v + Pow2(n), i);
        AddClearBit(v, n, i);
      }
      ToI32(v + Pow2(n))
  }

  /** Adding `2^n` to a value whose bit `n` is clear sets that bit and
      changes no other: there is no carry. */
  lemma AddClearBit(v: int, n: nat, i: nat)
    requires Bit(v, n) == 0
    ensures Bit(v + Pow2(n), i) == if i == n then 1 else Bit(v, i)
  {
    if i < n {
      BitAddHigh(v, 1, n, i);
    } else {
      var j := i - n;
      var s := ShiftRight(v, n);
      DivAddMultiple(v, Pow2(n), 1);
      assert ShiftRight(v + Pow2(n), n) == s + 1;
      BitOfShift(v + Pow2(n), n, j);
      BitOfShift(v, n, j);
      if j > 0 {
        assert Pow2(1) == 2;
        assert ShiftRight(s + 1, 1) == ShiftRight(s, 1);
        BitOfShift(s + 1, 1, j - 1);
        BitOfShift(s, 1, j - 1);
      }
    }
  }

  /** Setting bit `n` of the reinterpretation of a value whose bit `n` is
      clear is adding `2^n` before reinterpreting. */
  lemma SetBitOfToI32(u: int, n: nat)
    requires n < 32 && Bit(u, n) == 0
    ensures SetBit(ToI32(u), n) == ToI32(u + Pow2(n))
  {
    BitOfToI32(u, n);
    ToI32AddLate(u, Pow2(n));
  }

  /** Bit 31 of an `i32` is its sign. */
  lemma SignBit(v: int)
    requires IsI32(v)
    ensures Bit(v, 31) == 1 <==> v < 0
  {
    Pow2Of32();
    if v < 0 {
      DivModUnique(v, Pow2(31), -1, v + Pow2(31));
    } else {
      DivModUnique(v, Pow2(31), 0, v);
    }
  }
}
