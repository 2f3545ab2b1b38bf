/** Integer semantics of the C code the model follows: 32-bit signed
    wrap-around, division that truncates toward zero, and the clamp helper
    of base/math.h. Dafny's own `/` and `%` are Euclidean, so every place
    where the C source divides a value that may be negative goes through
    `TruncDiv`. */
module CBase {

  /** A value that may be absent: a null pointer, a missing item. */
  datatype Option<T> = None | Some(value: T)

  const TWO32: int := 0x1_0000_0000
  const INT32_MIN: int := -0x8000_0000
  const INT32_MAX: int := 0x7fff_ffff

  predicate IsInt32(x: int) {
    INT32_MIN <= x <= INT32_MAX
  }

  function Abs(x: int): nat {
    if x < 0 then -x else x
  }

  function Min(a: int, b: int): int {
    if a <= b then a else b
  }

  /** The value a C `int` holds after an arithmetic result `x` is stored
      into it: reduction modulo 2^32 into [INT32_MIN, INT32_MAX]. */
  function Wrap32(x: int): (r: int)
    ensures IsInt32(r)
    ensures (x - r) % TWO32 == 0
    ensures IsInt32(x) ==> r == x
  {
    var m := x % TWO32;
    if m > INT32_MAX then m - TWO32 else m
  }

  /** C's `a / b`: the quotient truncated toward zero. */
  function TruncDiv(a: int, b: int): (q: int)
    requires b != 0
  {
    if a >= 0 then (if b > 0 then a / b else -(a / -b))
    else (if b > 0 then -((-a) / b) else (-a) / -b)
  }

  /** The remainder left by `TruncDiv` is smaller than the divisor and has
      the sign of the dividend, which is what makes the divide-back
      overflow checks of the source work. */
  lemma TruncDivRemainder(a: int, b: int)
    requires b != 0
    ensures Abs(a - TruncDiv(a, b) * b) < Abs(b)
    ensures a >= 0 ==> a - TruncDiv(a, b) * b >= 0
    ensures a <= 0 ==> a - TruncDiv(a, b) * b <= 0
  {
    var q := TruncDiv(a, b);
    if a >= 0 {
      if b > 0 {
        assert a == (a / b) * b + a % b;
      } else {
        assert a == (a / -b) * -b + a % -b;
        assert q * b == (a / -b) * -b;
      }
    } else {
      if b > 0 {
        assert -a == ((-a) / b) * b + (-a) % b;
        assert q * b == -(((-a) / b) * b);
      } else {
        assert -a == ((-a) / -b) * -b + (-a) % -b;
        assert q * b == -(((-a) / -b) * -b);
      }
    }
  }

  /** On a non-negative dividend and a positive divisor, C division and
      Euclidean division agree. */
  lemma TruncDivNonNegative(a: int, b: int)
    requires a >= 0 && b > 0
    ensures TruncDiv(a, b) == a / b
  {
  }

  /** `clamp` of base/math.h: the lower bound is compared first. */
  function Clamp(v: int, lo: int, hi: int): (r: int)
    ensures lo <= hi ==> lo <= r <= hi
    ensures lo <= v <= hi ==> r == v
  {
    if v < lo then lo else if v > hi then hi else v
  }
}
