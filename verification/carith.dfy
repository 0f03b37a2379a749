/** C integer arithmetic the driver relies on, written out over unbounded
    integers: truncating division and remainder, 32-bit words, left shifts,
    power-of-two alignment and the `(hi << 16) | lo` packing used by almost
    every register and command word. */
module CArith {

  const U16: int := 0x1_0000
  const U32: int := 0x1_0000_0000
  /** `~0` read as a 32-bit word. */
  const AllOnes: int := 0xFFFF_FFFF

  predicate IsWord(x: int) { 0 <= x < U32 }

  function Min(a: int, b: int): (m: int)
    ensures m <= a && m <= b
    ensures m == a || m == b
  {
    if a <= b then a else b
  }

  function Max(a: int, b: int): (m: int)
    ensures m >= a && m >= b
    ensures m == a || m == b
  {
    if a >= b then a else b
  }

  function Abs(a: int): (r: nat)
    ensures r == a || r == -a
  {
    if a < 0 then -a else a
  }

  /** Euclidean division by a positive divisor, stated without `%`. */
  lemma DivBounds(x: int, b: int)
    requires b > 0
    ensures (x / b) * b <= x < (x / b) * b + b
    ensures x == (x / b) * b + x % b && 0 <= x % b < b
  {
  }

  /** Multiplying by a positive factor keeps away from zero. */
  lemma MulAwayFromZero(k: int, a: int)
    requires a > 0
    ensures k >= 1 ==> k * a >= a
    ensures k <= -1 ==> k * a <= -a
  {
  }

  /** Dafny's `/` by a positive divisor is the unique quotient. */
  lemma DivUnique(y: int, a: int, q: int)
    requires a > 0 && q * a <= y < q * a + a
    ensures y / a == q && y % a == y - q * a
  {
    DivBounds(y, a);
    var d := y / a;
    MulAwayFromZero(d - q, a);
    assert (d - q) * a == d * a - q * a;
  }

  lemma MultipleMod(q: int, a: int)
    requires a > 0
    ensures (q * a) % a == 0 && (q * a) / a == q
  {
    DivUnique(q * a, a, q);
  }

  /** C's `/`: the quotient is truncated toward zero. Its properties are
      the lemmas below. */
  function CDiv(a: int, b: int): int
    requires b != 0
  {
    if (a >= 0) == (b > 0) then Abs(a) / Abs(b) else -(Abs(a) / Abs(b))
  }

  /** C's `%`: the remainder takes the sign of the dividend. */
  function CMod(a: int, b: int): int
    requires b != 0
  {
    if a >= 0 then Abs(a) % Abs(b) else -(Abs(a) % Abs(b))
  }

  /** The quotient's magnitude is the floor of the magnitudes' quotient,
      and the remainder is smaller than the divisor. */
  lemma CDivBounds(a: int, b: int)
    requires b != 0
    ensures Abs(CDiv(a, b)) * Abs(b) <= Abs(a) < Abs(CDiv(a, b)) * Abs(b) + Abs(b)
    ensures Abs(CMod(a, b)) < Abs(b)
  {
    var x := Abs(a);
    var y := Abs(b);
    assert x == (x / y) * y + x % y;
  }

  /** The identity C guarantees between `/` and `%`. */
  lemma CDivMod(a: int, b: int)
    requires b != 0
    ensures CDiv(a, b) * b + CMod(a, b) == a
  {
    var x: int := Abs(a);
    var y: int := Abs(b);
    var m: int := x / y;
    var k: int := x % y;
    assert x == m * y + k;
    var q := CDiv(a, b);
    var r := CMod(a, b);
    if a >= 0 {
      assert r == k && a == x;
      if b > 0 {
        assert q == m && b == y;
      } else {
        assert q == -m && b == -y;
        NegTimesNeg(m, y);
      }
    } else {
      assert r == -k && a == -x;
      if b > 0 {
        assert q == -m && b == y;
        NegTimes(m, y);
      } else {
        assert q == m && b == -y;
        NegTimes(y, m);
        assert m * (-y) == -(m * y);
      }
    }
  }

  lemma NegTimes(m: int, y: int)
    ensures (-m) * y == -(m * y)
  {
  }

  lemma NegTimesNeg(m: int, y: int)
    ensures (-m) * (-y) == m * y
  {
  }

  /** Truncating division and remainder are odd in the dividend, unlike
      Dafny's Euclidean operators. */
  lemma CDivNeg(a: int, b: int)
    requires b != 0
    ensures CDiv(-a, b) == -CDiv(a, b)
    ensures CMod(-a, b) == -CMod(a, b)
  {
  }

  /** On non-negative operands C's and Dafny's operators agree. */
  lemma CDivNonNeg(a: int, b: int)
    requires a >= 0 && b > 0
    ensures CDiv(a, b) == a / b && CMod(a, b) == a % b
  {
  }

  /** `-62 / 512` is 0 in C but -1 with floor division: the place where
      the choice of division shows. */
  lemma CDivDiffersFromFloor()
    ensures CDiv(-62, 512) == 0
    ensures -62 / 512 == -1
  {
  }

  /** `1 << n` */
  function Pow2(n: nat): (p: nat)
    ensures p >= 1
  {
    if n == 0 then 1 else 2 * Pow2(n - 1)
  }

  lemma {:induction false} Pow2Add(a: nat, b: nat)
    ensures Pow2(a + b) == Pow2(a) * Pow2(b)
    decreases a
  {
    if a > 0 {
      Pow2Add(a - 1, b);
      assert Pow2(a + b) == 2 * Pow2(a - 1 + b);
    }
  }

  lemma {:induction false} Pow2Monotone(a: nat, b: nat)
    requires a <= b
    ensures Pow2(a) <= Pow2(b)
    decreases b
  {
    if a < b {
      Pow2Monotone(a, b - 1);
    }
  }

  lemma Pow2Of32()
    ensures Pow2(16) == U16 && Pow2(32) == U32
  {
    assert Pow2(1) == 2;
    Pow2Add(1, 1);
    assert Pow2(2) == 4;
    Pow2Add(2, 2);
    assert Pow2(4) == 16;
    Pow2Add(4, 4);
    assert Pow2(8) == 256;
    Pow2Add(8, 8);
    assert Pow2(16) == 0x1_0000;
    Pow2Add(16, 16);
  }

  /** The 32-bit word written by `(hi << 16) | lo` when `lo` fits in 16 bits:
      `hi` keeps only the bits that survive the shift. */
  function Pack16(hi: int, lo: int): (w: int)
    requires 0 <= lo < U16
    ensures IsWord(w)
    ensures Hi16(w) == hi % U16 && Lo16(w) == lo
  {
    (hi % U16) * U16 + lo
  }

  function Hi16(w: int): int { w / U16 }
  function Lo16(w: int): int { w % U16 }

  /** Two packed words are equal exactly when both halves are. */
  lemma Pack16Injective(h1: int, l1: int, h2: int, l2: int)
    requires 0 <= l1 < U16 && 0 <= l2 < U16
    requires 0 <= h1 < U16 && 0 <= h2 < U16
    ensures Pack16(h1, l1) == Pack16(h2, l2) <==> h1 == h2 && l1 == l2
  {
    if Pack16(h1, l1) == Pack16(h2, l2) {
      assert Hi16(Pack16(h1, l1)) == h1 % U16 == h1;
      assert Hi16(Pack16(h2, l2)) == h2 % U16 == h2;
    }
  }

  /** `(x + (a - 1)) & ~(a - 1)` for a power of two `a` and `x >= 0`:
      the least multiple of `a` that is at least `x`. */
  function AlignUp(x: nat, a: nat): (r: nat)
    requires a > 0
    ensures r % a == 0
    ensures x <= r < x + a
  {
    var q := (x + a - 1) / a;
    DivBounds(x + a - 1, a);
    MultipleMod(q, a);
    q * a
  }

  /** `x & ~(a - 1)` for a power of two `a` and `x >= 0`: round down. */
  function AlignDown(x: nat, a: nat): (r: nat)
    requires a > 0
    ensures r % a == 0
    ensures r <= x < r + a
  {
    var q := x / a;
    DivBounds(x, a);
    MultipleMod(q, a);
    q * a
  }

  /** A multiple of `a` is its own alignment. */
  lemma {:induction false} AlignUpOfMultiple(m: nat, a: nat)
    requires a > 0 && m % a == 0
    ensures AlignUp(m, a) == m
  {
    DivBounds(m, a);
    var q := m / a;
    assert m == q * a;
    DivUnique(m + a - 1, a, q);
  }

  /** Aligning twice is aligning once. */
  lemma AlignUpIdempotent(x: nat, a: nat)
    requires a > 0
    ensures AlignUp(AlignUp(x, a), a) == AlignUp(x, a)
  {
    AlignUpOfMultiple(AlignUp(x, a), a);
  }

  /** `x & ~1` for `x >= 0`. */
  function Even(x: nat): (r: nat)
    ensures r % 2 == 0 && r <= x <= r + 1
  {
    AlignDown(x, 2)
  }

  /** Bit `b` (a power of two) is set in the non-negative word `x`. */
  predicate HasBit(x: nat, b: nat)
    requires b > 0
  {
    (x / b) % 2 == 1
  }

  /** `x & ~1`: clears bit 0 and nothing else. */
  function ClearBit0(x: nat): (r: nat)
    ensures !HasBit(r, 1)
    ensures r / 2 == x / 2
  {
    x - x % 2
  }

  /** `x ^ (1 << 16)` on a word: bit 16 flips, the low half stays. */
  function ToggleBit16(x: nat): (r: nat)
    ensures HasBit(r, U16) != HasBit(x, U16)
    ensures r % U16 == x % U16
  {
    var q := x / U16;
    DivBounds(x, U16);
    if HasBit(x, U16) then
      DivUnique(x - U16, U16, q - 1);
      x - U16
    else
      DivUnique(x + U16, U16, q + 1);
      x + U16
  }
}
