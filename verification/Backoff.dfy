// internal/transport/retry.go: how long the pipeline waits before a retry.
module Backoff {
  import opened Basics
  import opened Arithmetic
  import opened GoInt
  import opened Decimal

  const SECOND: int := 1_000_000_000
  const MINUTE: int := 60 * SECOND

  const TOO_MANY_REQUESTS := 429
  const INTERNAL_SERVER_ERROR := 500
  const SERVICE_UNAVAILABLE := 503

  /** RetryConfig; durations are int64 nanoseconds. */
  datatype RetryConfig = RetryConfig(
    maxAttempts: int,
    minBackoff: int64,
    maxBackoff: int64,
    retryWrites: bool,
    disabled: bool)

  /** What every client that New builds guarantees (ClientConfig.Build). */
  ghost predicate Sane(c: RetryConfig) { 0 < c.minBackoff <= c.maxBackoff }

  /** One attempt's raw result, with the header the pipeline peeks at. */
  datatype Response = Response(status: int, retryAfter: string, body: string)

  const NO_RESPONSE := Response(0, "", "")

  function Min(a: int, b: int): int { if a <= b then a else b }

  /** retryAfterCap. */
  function Cap(c: RetryConfig): int64 { if c.maxBackoff >= MINUTE then c.maxBackoff else MINUTE }

  /**
   * RetryAfterDelay. `date` is what http.ParseTime and the clock make of v at the moment of the
   * call: None when v is no HTTP-date, otherwise the time left until it.
   */
  function RetryAfterDelay(v: string, date: Option<int64>): (d: int64)
    ensures d >= 0
  {
    if v == "" then 0
    else
      var secs := ParseInt(v);
      if secs.Some? && secs.value >= 0 then
        if secs.value > MAX_INT64 / SECOND then MAX_INT64 else secs.value * SECOND
      else if date.Some? && date.value > 0 then date.value
      else 0
  }

  /**
   * Delay-seconds are clamped to the largest duration if and only if the number still fits an
   * int64; a longer digit string reads as "no Retry-After" instead.
   */
  lemma DelaySecondsClamped(v: string)
    requires v != "" && AllDigits(v)
    ensures RetryAfterDelay(v, None) == Min(Value(v) * SECOND, MAX_INT64) <==> Value(v) <= MAX_INT64
    ensures Value(v) > MAX_INT64 ==> RetryAfterDelay(v, None) == 0
  {
    assert IsDigit(v[0]);
    assert v[SignLength(v)..] == v;
  }

  /** The first number past int64: documented to be clamped, read as "no Retry-After". */
  lemma LongDelayUnknown()
    ensures AllDigits(Numeral(MAX_INT64 + 1)) && Value(Numeral(MAX_INT64 + 1)) == MAX_INT64 + 1
    ensures RetryAfterDelay(Numeral(MAX_INT64 + 1), None) == 0
  {
    ValueNumeral(MAX_INT64 + 1);
    DelaySecondsClamped(Numeral(MAX_INT64 + 1));
  }

  /** v spells n in decimal, the sign optional; a minus only for zero. */
  ghost predicate Spells(v: string, n: nat) {
    exists sign, digits ::
      && v == sign + digits && digits != "" && AllDigits(digits) && Value(digits) == n
      && (sign == "" || sign == "+" || (sign == "-" && n == 0))
  }

  /**
   * The header in all its forms: a number that fits an int64 is that many seconds, clamped; anything
   * else is the time left until an HTTP-date; what is neither, or past, asks for nothing.
   */
  lemma HeaderForms(v: string, date: Option<int64>)
    ensures forall n: nat | Spells(v, n) && n <= MAX_INT64 ::
            RetryAfterDelay(v, date) == Min(n * 1_000_000_000, 9_223_372_036_854_775_807)
    ensures (forall n: nat | n <= MAX_INT64 :: !Spells(v, n)) ==>
              RetryAfterDelay(v, date) == if v != "" && date.Some? && date.value > 0 then date.value else 0
  {
    forall n: nat | Spells(v, n) && n <= MAX_INT64
      ensures RetryAfterDelay(v, date) == Min(n * SECOND, MAX_INT64)
    {
      SpelledParses(v, n);
    }
    if ParseInt(v).Some? && ParseInt(v).value >= 0 { ParsedSpells(v); }
  }

  lemma SpelledParses(v: string, n: nat)
    requires Spells(v, n) && n <= MAX_INT64
    ensures v != "" && ParseInt(v) == Some(n)
  {
    var sign, digits :| && v == sign + digits && digits != "" && AllDigits(digits) && Value(digits) == n
                        && (sign == "" || sign == "+" || (sign == "-" && n == 0));
    SignAhead(sign, digits);
  }

  lemma ParsedSpells(v: string)
    requires ParseInt(v).Some? && ParseInt(v).value >= 0
    ensures Spells(v, ParseInt(v).value)
  {
    var k := SignLength(v);
    assert v == v[..k] + v[k..];
  }

  lemma SignAhead(sign: string, digits: string)
    requires digits != "" && AllDigits(digits) && (sign == "" || sign == "+" || sign == "-")
    ensures SignLength(sign + digits) == |sign| && (sign + digits)[|sign|..] == digits
  {
    assert IsDigit(digits[0]) && (sign == "" ==> (sign + digits)[0] == digits[0]);
  }

  function Pow2(k: nat): (p: nat)
    ensures p > 0
  {
    if k == 0 then 1 else 2 * Pow2(k - 1)
  }

  /** The upper end of the jitter interval; a Go right shift rounds down, a left shift wraps. */
  function Upper(c: RetryConfig, i: nat): int64
    requires Sane(c)
  {
    if i < 63 && c.minBackoff <= c.maxBackoff / Pow2(i) then Wrap(c.minBackoff * Pow2(i))
    else c.maxBackoff
  }

  lemma PowerOf16()
    ensures Pow2(16) == 0x1_0000
  {
    assert Pow2(8) == 256;
    Pow2Shift(8, 8);
  }

  lemma PowerOf63()
    ensures Pow2(63) == TWO63
  {
    PowerOf16();
    Pow2Shift(16, 16);
    Pow2Shift(32, 32);
  }

  lemma {:induction false} Pow2AtLeast(i: nat)
    requires i >= 63
    ensures Pow2(i) >= TWO63
  {
    if i == 63 { PowerOf63(); } else { Pow2AtLeast(i - 1); }
  }

  lemma {:induction false} Pow2Shift(a: nat, b: nat)
    ensures Pow2(a + b) == Pow2(a) * Pow2(b)
  {
    if b > 0 { Pow2Shift(a, b - 1); MulAssociates(2, Pow2(a), Pow2(b - 1)); }
  }

  lemma ShiftTest(lo: int, hi: int, p: int)
    requires p > 0
    ensures lo <= hi / p <==> lo * p <= hi
  {
    var q, r := hi / p, hi % p;
    assert hi == p * q + r;
    if lo <= q { MulMonotone(p, lo, q); } else { MulMonotone(p, q + 1, lo); }
  }

  /** The shift test computes min(MaxBackoff, MinBackoff * 2^i) for every i, without overflow. */
  lemma UpperExact(c: RetryConfig, i: nat)
    requires Sane(c)
    ensures Upper(c, i) == Min(c.maxBackoff, c.minBackoff * Pow2(i))
  {
    if i < 63 {
      ShiftTest(c.minBackoff, c.maxBackoff, Pow2(i));
    } else {
      Pow2AtLeast(i);
      MulMonotone(Pow2(i), 1, c.minBackoff);
    }
  }

  /** A draw's share of an interval, rounded down. */
  function Drawn(jitter: real, width: int): int { (jitter * width as real).Floor }

  /** The full-jitter wait before retry i; jitter is the random source's draw. */
  function Jittered(c: RetryConfig, i: nat, jitter: real): (d: int64)
    requires Sane(c) && 0.0 <= jitter < 1.0
    ensures c.minBackoff <= d <= c.maxBackoff
    ensures c.minBackoff < Upper(c, i) ==> d < Upper(c, i)
  {
    var upper := Upper(c, i);
    UpperExact(c, i);
    if upper <= c.minBackoff then c.minBackoff
    else
      var width: int := upper - c.minBackoff;
      Fraction(jitter, width);
      c.minBackoff + Drawn(jitter, width)
  }

  /** The jitter is full: every whole number of nanoseconds in the interval is drawn for some value of it. */
  lemma EveryDelayDrawn(c: RetryConfig, i: nat, d: int) returns (jitter: real)
    requires Sane(c) && c.minBackoff <= d < Upper(c, i)
    ensures 0.0 <= jitter < 1.0 && Jittered(c, i, jitter) == d
  {
    var width: int := Upper(c, i) - c.minBackoff;
    jitter := Share(d - c.minBackoff, width);
  }

  lemma Share(part: nat, whole: nat) returns (r: real)
    requires part < whole
    ensures 0.0 <= r < 1.0 && r * whole as real == part as real
  {
    r := part as real / whole as real;
  }

  lemma Fraction(f: real, width: int)
    requires 0.0 <= f < 1.0 && width > 0
    ensures 0 <= Drawn(f, width) < width
  {
    assert f * width as real < 1.0 * width as real;
  }

  /** A 429's Retry-After is honoured when it names a wait at all. */
  predicate Honoured(last: Response, date: Option<int64>) {
    last.status == TOO_MANY_REQUESTS && RetryAfterDelay(last.retryAfter, date) > 0
  }

  /** retryDelay: the wait before retry i, given the previous attempt's response. */
  function RetryDelay(c: RetryConfig, i: nat, last: Response, date: Option<int64>, jitter: real): (d: int64)
    requires Sane(c) && 0.0 <= jitter < 1.0
    ensures 0 < d <= Cap(c)
  {
    var asked := RetryAfterDelay(last.retryAfter, date);
    if last.status == TOO_MANY_REQUESTS && asked > 0 then Min(asked, Cap(c))
    else Jittered(c, i, jitter)
  }

  /** The end of the documented interval. */
  function Limit(c: RetryConfig, i: nat): int { Min(c.maxBackoff, c.minBackoff * Pow2(i)) }

  /** The wait is the draw's share of the interval, rounded down. */
  lemma JitteredIs(c: RetryConfig, i: nat, jitter: real)
    requires Sane(c) && 0.0 <= jitter < 1.0
    ensures Jittered(c, i, jitter) == c.minBackoff + Drawn(jitter, Limit(c, i) - c.minBackoff)
  {
    UpperExact(c, i);
    MulMonotone(c.minBackoff, 1, Pow2(i));
  }

  /**
   * A 429's Retry-After is honoured up to the cap. Without one the wait lies between MinBackoff and the
   * documented limit, and reaches the limit only if the two bounds are equal.
   */
  lemma RetryDelayIs(c: RetryConfig, i: nat, last: Response, date: Option<int64>, jitter: real)
    requires Sane(c) && i >= 1 && 0.0 <= jitter < 1.0
    ensures var d := RetryDelay(c, i, last, date, jitter);
            if Honoured(last, date) then d == Min(RetryAfterDelay(last.retryAfter, date), Cap(c))
            else
              && d == c.minBackoff + Drawn(jitter, Limit(c, i) - c.minBackoff)
              && c.minBackoff <= d <= Limit(c, i) && (d == Limit(c, i) ==> c.minBackoff == c.maxBackoff)
  {
    if !Honoured(last, date) {
      JitteredIs(c, i, jitter);
      UpperExact(c, i);
      MulMonotone(c.minBackoff, 2, Pow2(i));
    }
  }

  /**
   * The documented half-open interval [MinBackoff, min(MaxBackoff, MinBackoff * 2^i)) contains the
   * jittered wait of every retry if and only if the two bounds differ.
   */
  lemma HalfOpenInterval(c: RetryConfig, i: nat, jitter: real)
    requires Sane(c) && i >= 1 && 0.0 <= jitter < 1.0
    ensures c.minBackoff <= Jittered(c, i, jitter) < Limit(c, i) <==> c.minBackoff < c.maxBackoff
  {
    UpperExact(c, i);
    MulMonotone(c.minBackoff, 2, Pow2(i));
  }
}
