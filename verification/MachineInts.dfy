/** The C integer types the modelled code computes with: widths, wrap-around and conversions. */
module MachineInts {

  const TWO32: int := 0x1_0000_0000
  const TWO63: int := 0x8000_0000_0000_0000
  const TWO64: int := 0x1_0000_0000_0000_0000

  /** A value of type `int`. The verifier must show that no operation on it overflows. */
  newtype CInt = x: int | -0x8000_0000 <= x < 0x8000_0000

  type Byte = x: int | 0 <= x < 0x100
  type Word16 = x: int | 0 <= x < 0x1_0000

  /** A value of a 64-bit unsigned type. */
  type Word64 = x: int | 0 <= x < TWO64

  predicate FitsInt(x: int) {
    -0x8000_0000 <= x < 0x8000_0000
  }

  /** The conversion to `uint64_t`. */
  function U64(x: int): nat {
    x % TWO64
  }

  /** A `uint64_t` bit pattern read as a signed 64-bit integer. */
  function S64(x: int): int {
    if x < TWO63 then x else x - TWO64
  }

  /** The conversion of a `uint64_t` to `int`, which keeps the low 32 bits. */
  function ToCInt(x: nat): CInt {
    var low := x % TWO32;
    (if low < 0x8000_0000 then low else low - TWO32) as CInt
  }

  /** The arithmetic right shift by two: a negative operand is complemented, shifted and complemented back. */
  function ShiftRight2(x: int): int {
    if x >= 0 then x / 4 else -((-x - 1) / 4) - 1
  }

  lemma ShiftIsFloor(x: int)
    ensures ShiftRight2(x) == x / 4
    ensures 4 * ShiftRight2(x) <= x < 4 * ShiftRight2(x) + 4
  {
    if x < 0 {
      var q, r := (-x - 1) / 4, (-x - 1) % 4;
      assert x == 4 * (-q - 1) + (3 - r);
    }
  }

  lemma U64Congruent(x: int, y: int, k: int)
    requires x == y + k * TWO64
    ensures U64(x) == U64(y)
  {
    var j := x / TWO64 - y / TWO64 - k;
    assert U64(x) - U64(y) == -j * TWO64;
  }

  /** Sums of scaled conversions may be converted once at the end. */
  lemma U64Linear(a: int, x: int, b: int, y: int, c: int)
    ensures U64(a * U64(x) + b * U64(y) + c) == U64(a * x + b * y + c)
  {
    var i, j := x / TWO64, y / TWO64;
    assert a * U64(x) == a * x - a * i * TWO64;
    assert b * U64(y) == b * y - b * j * TWO64;
    U64Congruent(a * U64(x) + b * U64(y) + c, a * x + b * y + c, -a * i - b * j);
  }

  lemma SignedReadBack(x: int)
    requires -TWO63 <= x < TWO63
    ensures S64(U64(x)) == x
  {
    if x < 0 {
      U64Congruent(x + TWO64, x, 1);
    }
  }

  lemma SignedDetermines(s: nat)
    requires s < TWO64
    ensures U64(S64(s)) == s
  {
    if s >= TWO63 {
      U64Congruent(s, s - TWO64, 1);
    }
  }

  /** The increment and decrement of an `unsigned` variable. */
  function Next32(x: nat): nat {
    (x + 1) % TWO32
  }

  function Previous32(x: nat): nat {
    (x + TWO32 - 1) % TWO32
  }

  lemma NextOfPrevious(x: nat)
    requires x < TWO32
    ensures Next32(Previous32(x)) == x
  {
  }

  lemma NextIsPlusOne(x: nat)
    requires x + 1 < TWO32
    ensures Next32(x) == x + 1
  {
  }

  function Add64(a: int, b: int): nat {
    U64(a + b)
  }

  function Mul64(a: int, b: int): nat {
    U64(a * b)
  }

  /** A sum of two products computed with wrap-around at every step wraps only once. */
  lemma WrapOnce(a: int, x: int, b: int, y: int)
    ensures Add64(Mul64(a, U64(x)), Mul64(b, U64(y))) == U64(a * x + b * y)
  {
    U64Linear(1, a * U64(x), 1, b * U64(y), 0);
    U64Linear(a, x, b, y, 0);
  }

  lemma AddWrapped(x: int, y: int)
    ensures Add64(U64(x), y) == U64(x + y)
  {
    U64Linear(1, x, 0, 0, y);
  }

  lemma AddBothWrapped(x: int, y: int)
    ensures Add64(U64(x), U64(y)) == U64(x + y)
  {
    U64Linear(1, x, 1, y, 0);
  }

  lemma ScaleWrapped(a: int, x: int)
    ensures Mul64(a, U64(x)) == U64(a * x)
  {
    U64Linear(a, x, 0, 0, 0);
  }

  /** Multiplying by an odd constant loses nothing modulo 2^25. */
  lemma OddFactorCancels(k: nat, j: int)
    requires k < 0x200_0000
    requires 65475 * k == 0x200_0000 * j
    ensures k == 0
  {
    var inverse, carry := 20605163, 40207;
    assert inverse * 65475 == 1 + 0x200_0000 * carry;
    assert k == inverse * (65475 * k) - 0x200_0000 * (carry * k);
    assert k == 0x200_0000 * (inverse * j - carry * k);
  }
}
