/** Scaling of time values to seconds according to the Arrow `TimeUnit`
    (packages/duckdb-wasm/src/format.ts, `convertTimestampToSeconds`). */
module TimeUnits {
  import opened Outcomes
  import opened Text
  import opened JsValues

  /** Arrow's `TimeUnit` enumeration values. */
  const SECOND: int := 0
  const MILLISECOND: int := 1
  const MICROSECOND: int := 2
  const NANOSECOND: int := 3

  /** The result of `convertTimestampToSeconds`, a JavaScript number, kept
      symbolic where it is computed in floating point:
      `Unscaled(t)` is `Number(t)`, `Divided(n, d)` is the float quotient `n / d`,
      and `Truncated(q)` is `Number(q)` for the big-integer quotient `q`. */
  datatype Seconds = Unscaled(t: Timestamp) | Divided(n: Number, divisor: nat) | Truncated(q: int)

  /** Units per second for the sub-second units; `None` for seconds and for
      any value outside the enumeration. */
  function UnitDivisor(unit: int): Option<nat> {
    if unit == MILLISECOND then Some(1000)
    else if unit == MICROSECOND then Some(1000 * 1000)
    else if unit == NANOSECOND then Some(1000 * 1000 * 1000)
    else None
  }

  /** BigInt division `a / d`, which truncates toward zero. */
  function TruncDiv(a: int, d: nat): int
    requires d > 0
  {
    if a >= 0 then a / d else -((-a) / d)
  }

  /** What truncating division means, independently of how it is computed:
      `q * d` is the multiple of `d` nearest to `a` on the side of zero. */
  predicate IsTruncatedQuotient(a: int, d: nat, q: int)
    requires d > 0
  {
    var rem := a - q * d;
    -(d as int) < rem < d && (a >= 0 ==> rem >= 0) && (a <= 0 ==> rem <= 0)
  }

  lemma TruncDivMeaning(a: int, d: nat)
    requires d > 0
    ensures IsTruncatedQuotient(a, d, TruncDiv(a, d))
  {
    if a < 0 {
      var q := (-a) / d;
      assert (-a) == q * d + (-a) % d;
      assert a - (-q) * d == -((-a) % d);
    }
  }

  /** Only one quotient satisfies the truncation property. */
  lemma TruncatedQuotientUnique(a: int, d: nat, q: int, q': int)
    requires d > 0
    requires IsTruncatedQuotient(a, d, q) && IsTruncatedQuotient(a, d, q')
    ensures q == q'
  {
    if q < q' {
      MultipleAtLeast(q' - q, d);
    } else if q' < q {
      MultipleAtLeast(q - q', d);
    }
  }

  lemma MultipleAtLeast(k: int, d: nat)
    requires k >= 1
    ensures k * d >= d
  {
  }

  lemma DivisorPowers()
    ensures Pow10(3) == 1000 && Pow10(6) == 1000 * 1000 && Pow10(9) == 1000 * 1000 * 1000
  {
    assert Pow10(6) == 1000 * Pow10(3) by {
      assert Pow10(6) == 10 * Pow10(5) == 100 * Pow10(4) == 1000 * Pow10(3);
    }
    assert Pow10(9) == 1000 * Pow10(6) by {
      assert Pow10(9) == 10 * Pow10(8) == 100 * Pow10(7) == 1000 * Pow10(6);
    }
  }

  /** `convertTimestampToSeconds(timestamp, unit)`. */
  function ConvertTimestampToSeconds(t: Timestamp, unit: int): (s: Seconds)
    // Seconds and unknown units: the value itself.
    ensures !(unit in {MILLISECOND, MICROSECOND, NANOSECOND}) <==> s == Unscaled(t)
    // Sub-second units divide by 1000 to the power of the unit number ...
    ensures s.Divided? ==> unit in {MILLISECOND, MICROSECOND, NANOSECOND} && s.divisor == Pow10(3 * unit)
    ensures s.Divided? ==> s.n == ToNumber(t)
    // ... in integer arithmetic, truncating, exactly for big integers beyond 2^53 - 1.
    ensures s.Truncated? <==>
              (unit in {MILLISECOND, MICROSECOND, NANOSECOND} && t.BigIntStamp? && !IsSafeInteger(ToNumber(t)))
    ensures s.Truncated? ==> IsTruncatedQuotient(t.i, Pow10(3 * unit), s.q)
  {
    match UnitDivisor(unit)
    case None => Unscaled(t)
    case Some(d) =>
      DivisorPowers();
      if t.BigIntStamp? && !IsSafeInteger(NumberOfBigInt(t.i)) then
        TruncDivMeaning(t.i, d);
        Truncated(TruncDiv(t.i, d))
      else Divided(ToNumber(t), d)
  }
}
