/** The temperature converter's one computation, `faren_to_celsius`: the
    Rust expression `((faren - 32) * 5) / 9` evaluated on `i32`. */
module Converter {
  import opened Wrappers
  import opened Int32

  /** Smallest and largest Fahrenheit input for which `(f - 32) * 5` stays
      within `i32`: `-2^31 <= (f - 32) * 5 <= 2^31 - 1`. */
  const DOMAIN_MIN: int := -429496697
  const DOMAIN_MAX: int := 429496761

  predicate InDomain(f: int) {
    DOMAIN_MIN <= f <= DOMAIN_MAX
  }

  /** The expression as the Rust program evaluates it, one checked `i32`
      operation at a time; `None` if any step leaves the `i32` range. */
  function Evaluate(f: int): (r: Option<int>)
    requires InRange(f)
  {
    var d :- Sub(f, 32);
    var p :- Mul(d, 5);
    Div(p, 9)
  }

  /** Fahrenheit to Celsius: `5 * (f - 32) / 9` rounded toward zero, as
      `i32` division does, and itself an `i32`. */
  function FarenToCelsius(f: int): (c: int)
    requires InDomain(f)
    ensures InRange(c)
    ensures IsTruncQuotient((f - 32) * 5, 9, c)
  {
    TruncDiv((f - 32) * 5, 9)
  }

  /** The domain is exactly the set of `i32` inputs on which no step of the
      expression overflows, and there the checked evaluation yields
      `FarenToCelsius`. */
  lemma {:induction false} DomainExact(f: int)
    requires InRange(f)
    ensures Evaluate(f).Some? <==> InDomain(f)
    ensures InDomain(f) ==> Evaluate(f) == Some(FarenToCelsius(f))
  {
    if !InRange(f - 32) {
      assert f < DOMAIN_MIN;
    } else if InDomain(f) {
      assert InRange((f - 32) * 5);
    } else if f < DOMAIN_MIN {
      assert (f - 32) * 5 < MIN;
    } else {
      assert (f - 32) * 5 > MAX;
    }
  }

  /** Every step of the expression, and the result, fit in `i32` on the
      domain. */
  lemma DomainFitsI32(f: int)
    requires InDomain(f)
    ensures InRange(f) && InRange(f - 32) && InRange((f - 32) * 5)
    ensures InRange(FarenToCelsius(f))
  {
  }

  /** `FarenToCelsius(f)` is the one integer that is `5 * (f - 32) / 9`
      rounded toward zero. */
  lemma {:induction false} Characterised(f: int, c: int)
    requires InDomain(f)
    ensures c == FarenToCelsius(f) <==> IsTruncQuotient((f - 32) * 5, 9, c)
  {
    if IsTruncQuotient((f - 32) * 5, 9, c) {
      TruncQuotientUnique((f - 32) * 5, 9, c, FarenToCelsius(f));
    }
  }

  /** The result is the exact Celsius temperature with its fractional part
      dropped: at most one degree below it for inputs at or above freezing,
      at most one degree above it for inputs below. */
  lemma {:induction false} TruncatesExactValue(f: int)
    requires InDomain(f)
    ensures var exact := (f - 32) as real * 5.0 / 9.0;
            var c := FarenToCelsius(f) as real;
            (f >= 32 ==> c <= exact < c + 1.0) && (f < 32 ==> c - 1.0 < exact <= c)
  {
    var c := FarenToCelsius(f);
    var rem := (f - 32) * 5 - c * 9;
    assert (f - 32) as real * 5.0 / 9.0 == c as real + rem as real / 9.0;
  }

  /** The conversion counts how many nines fit in `5 * |f - 32|` and gives
      the count the sign of `f - 32`. */
  lemma {:induction false} ConvertsByRepeatedSubtraction(f: int)
    requires InDomain(f)
    ensures FarenToCelsius(f) == SubtractionQuotient((f - 32) * 5, 9)
  {
    TruncDivIsRepeatedSubtraction((f - 32) * 5, 9);
  }

  /** Freezing, boiling and the crossover point of the two scales, and the
      value at 0 degrees Fahrenheit where rounding toward zero (-17) differs
      from Dafny's Euclidean division (-18). */
  lemma AnchorValues()
    ensures FarenToCelsius(32) == 0
    ensures FarenToCelsius(212) == 100
    ensures FarenToCelsius(-40) == -40
    ensures FarenToCelsius(0) == -17 && ((0 - 32) * 5) / 9 == -18
  {
  }

  /** A warmer Fahrenheit reading never gives a colder Celsius one. */
  lemma {:induction false} Monotonic(f1: int, f2: int)
    requires InDomain(f1) && InDomain(f2) && f1 <= f2
    ensures FarenToCelsius(f1) <= FarenToCelsius(f2)
  {
    MulMonotone(f1 - 32, f2 - 32, 5);
    TruncDivMonotone((f1 - 32) * 5, (f2 - 32) * 5, 9);
  }

  /** The sign of the result follows `f - 32`, except that readings within
      one degree of freezing truncate to zero. */
  lemma {:induction false} Sign(f: int)
    requires InDomain(f)
    ensures FarenToCelsius(f) > 0 <==> f - 32 >= 2
    ensures FarenToCelsius(f) == 0 <==> -1 <= f - 32 <= 1
    ensures FarenToCelsius(f) < 0 <==> f - 32 <= -2
    ensures FarenToCelsius(f) > 0 ==> f > 32
    ensures FarenToCelsius(f) < 0 ==> f < 32
  {
    assert FarenToCelsius(34) == 1 && FarenToCelsius(33) == 0;
    assert FarenToCelsius(31) == 0 && FarenToCelsius(30) == -1;
    if f >= 34 {
      Monotonic(34, f);
    } else if f <= 30 {
      Monotonic(f, 30);
    } else {
      Monotonic(31, f);
      Monotonic(f, 33);
    }
  }

  /** Scaling by 5/9 and rounding toward zero never increases the distance
      from freezing: the magnitude of the result is `5 * |f - 32|` divided by
      9, rounded down. */
  lemma {:induction false} Magnitude(f: int)
    requires InDomain(f)
    ensures Abs(FarenToCelsius(f)) == (5 * Abs(f - 32)) / 9
    ensures Abs(FarenToCelsius(f)) <= Abs(f - 32)
  {
    var n := 5 * Abs(f - 32);
    NonnegDivFacts(n, 9);
    assert (n / 9) * 9 <= n;
  }

  /** Rounding toward zero treats readings above and below freezing alike:
      the result is an odd function of `f - 32`. Floor division would not
      have this property (`f = 31` would give -1 against `f = 33` giving 0). */
  lemma {:induction false} SymmetricAroundFreezing(d: int)
    requires InDomain(32 + d) && InDomain(32 - d)
    ensures FarenToCelsius(32 + d) == -FarenToCelsius(32 - d)
  {
    assert (32 + d - 32) * 5 == -((32 - d - 32) * 5);
  }
}
