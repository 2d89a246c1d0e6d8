/** The machine integers the codec computes with: `i64` two's-complement
    arithmetic, the widths a decoded number can be narrowed to, and the
    `as usize` cast of a 64-bit target. */
module Ints {

  const I64_MIN: int := -0x8000_0000_0000_0000
  const I64_MAX: int := 0x7FFF_FFFF_FFFF_FFFF
  const TWO_64: int := 0x1_0000_0000_0000_0000

  predicate IsI64(x: int) {
    I64_MIN <= x <= I64_MAX
  }

  /** The `i64` that two's-complement arithmetic leaves in place of the
      mathematical result `x`. */
  function Wrap(x: int): (r: int)
    ensures IsI64(r)
    ensures IsI64(x) ==> r == x
  {
    (x - I64_MIN) % TWO_64 + I64_MIN
  }

  /** `Wrap(x)` differs from `x` by a whole multiple of 2^64. */
  lemma WrapQuotient(x: int)
    ensures x == Wrap(x) + ((x - I64_MIN) / TWO_64) * TWO_64
  {
  }

  /** Wrapping ignores whole multiples of 2^64. */
  lemma WrapShift(x: int, k: int)
    ensures Wrap(x + k * TWO_64) == Wrap(x)
  {
    var a := x - I64_MIN;
    var q := a / TWO_64;
    var r := a % TWO_64;
    assert a + k * TWO_64 == (q + k) * TWO_64 + r;
    DivModUnique(a + k * TWO_64, q + k, r);
  }

  lemma DivModUnique(n: int, q: int, r: int)
    requires n == q * TWO_64 + r && 0 <= r < TWO_64
    ensures n % TWO_64 == r
  {
  }

  /** One wrapping step `acc * m + d` may wrap the accumulator first or not:
      the wrapped outcome is the same. */
  lemma WrapMulAdd(x: int, m: int, d: int)
    ensures Wrap(Wrap(x) * m + d) == Wrap(x * m + d)
  {
    WrapQuotient(x);
    var k := (x - I64_MIN) / TWO_64;
    assert x * m + d == (Wrap(x) * m + d) + (k * m) * TWO_64;
    WrapShift(Wrap(x) * m + d, k * m);
  }

  /** Negating a wrapped value and wrapping again is wrapping the negation. */
  lemma WrapNeg(x: int)
    ensures Wrap(-Wrap(x)) == Wrap(-x)
  {
    WrapQuotient(x);
    var k := (x - I64_MIN) / TWO_64;
    assert -x == -Wrap(x) + (-k) * TWO_64;
    WrapShift(-Wrap(x), -k);
  }

  /** The integer types a bencoded number can be decoded into or encoded from. */
  datatype IntType = I8 | I16 | I32 | I64 | U8 | U16 | U32 | U64 {

    function Min(): int {
      match this
      case I8 => -0x80
      case I16 => -0x8000
      case I32 => -0x8000_0000
      case I64 => I64_MIN
      case _ => 0
    }

    function Max(): int {
      match this
      case I8 => 0x7F
      case I16 => 0x7FFF
      case I32 => 0x7FFF_FFFF
      case I64 => I64_MAX
      case U8 => 0xFF
      case U16 => 0xFFFF
      case U32 => 0xFFFF_FFFF
      case U64 => 0xFFFF_FFFF_FFFF_FFFF
    }

    /** `TryFrom<i64>` for this type succeeds on `n`. */
    predicate Fits(n: int) {
      Min() <= n <= Max()
    }
  }

  /** `n as usize` for an `i64` on a 64-bit target: negative values wrap to
      the top half of the range. */
  function AsUsize(n: int): (u: nat)
    requires IsI64(n)
    ensures u < TWO_64
    ensures n >= 0 ==> u == n
    ensures n < 0 ==> u > I64_MAX
  {
    if n < 0 then n + TWO_64 else n
  }
}
