// Option and Result, as the rest of the project uses them for Go's nil-able values and
// its (value, error) returns.
module Basics {
  datatype Option<+T> = None | Some(value: T)

  datatype Result<+T, +E> = Ok(value: T) | Err(error: E)
}

// The non-linear arithmetic facts the proofs need.
module Arithmetic {
  lemma SmallMultiple(p: int, j: int)
    requires p > 0 && -p < p * j < p
    ensures j == 0
  {
  }

  /** Quotient and remainder are the only such pair. */
  lemma DivModUnique(x: int, p: int, k: int, r: int)
    requires p > 0 && x == p * k + r && 0 <= r < p
    ensures x / p == k && x % p == r
  {
    var k', r' := x / p, x % p;
    assert x == p * k' + r' && 0 <= r' < p;
    assert p * (k - k') == r' - r;
    SmallMultiple(p, k - k');
  }

  lemma QuotientIsNat(u: nat, p: nat)
    requires p > 0
    ensures u / p >= 0
  {
    var q, r := u / p, u % p;
    assert u == p * q + r && r < p;
  }

  lemma MulMonotone(p: nat, a: int, b: int)
    requires a <= b
    ensures p * a <= p * b
  {
  }

  lemma MulAssociates(k: int, x: int, y: int)
    ensures k * (x * y) == x * (k * y)
  {
  }
}

// Go's fixed-width integers. Every wrap-around in the model is an explicit call to one of
// these functions.
module GoInt {
  import opened Arithmetic

  const TWO63: int := 0x8000_0000_0000_0000
  const TWO64: int := 0x1_0000_0000_0000_0000
  const MAX_INT64: int := TWO63 - 1

  type int64 = x: int | -TWO63 <= x < TWO63
  type uint64 = x: int | 0 <= x < TWO64

  predicate Fits64(x: int) { -TWO63 <= x < TWO63 }

  /** The int64 congruent to x modulo 2^64. */
  function Wrap(x: int): (r: int64)
    ensures (x - r) % TWO64 == 0
    ensures Fits64(x) ==> r == x
  {
    (x + TWO63) % TWO64 - TWO63
  }

  /** The uint64 congruent to x modulo 2^64. */
  function WrapU(x: int): (r: uint64)
    ensures (x - r) % TWO64 == 0
    ensures 0 <= x < TWO64 ==> r == x
  {
    x % TWO64
  }

  /** Go's `/` on a positive divisor: the quotient is truncated toward zero. */
  function Quo(a: int, n: int): (q: int)
    requires n > 0
  {
    if a >= 0 then a / n else -(-a / n)
  }

  /** Go's `%` on a positive divisor: the remainder takes the sign of the dividend. */
  function Rem(a: int, n: int): (r: int)
    requires n > 0
  {
    a - n * Quo(a, n)
  }

  /** Two int64 values congruent modulo 2^64 are the same value. */
  lemma CongruentEqual(a: int64, b: int64)
    requires (a - b) % TWO64 == 0
    ensures a == b
  {
  }

  lemma WrapTenfold(x: nat)
    ensures WrapU(WrapU(x) * 10) == WrapU(10 * x)
  {
    var q, r := x / TWO64, x % TWO64;
    var q', r' := r * 10 / TWO64, r * 10 % TWO64;
    assert 10 * x == TWO64 * (10 * q + q') + r';
    DivModUnique(10 * x, TWO64, 10 * q + q', r');
  }

  /** Wrapping as one goes gives what wrapping the exact total once gives. */
  lemma WrapAdd(a: int, b: int)
    ensures Wrap(Wrap(a) + b) == Wrap(a + b)
  {
  }
}
