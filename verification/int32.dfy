/** Rust's `i32` arithmetic, as used by the converter: the value range, the
    division operator (which rounds toward zero, unlike Dafny's Euclidean
    `/` on `int`), and the checked forms of `-`, `*` and `/` that have a
    result only when the mathematical value is representable. */
module Int32 {
  import opened Wrappers

  const MIN: int := -0x8000_0000
  const MAX: int := 0x7FFF_FFFF

  predicate InRange(x: int) {
    MIN <= x <= MAX
  }

  function Abs(x: int): nat {
    if x < 0 then -x else x
  }

  /** Independent description of the quotient of `a` by a positive `b`
      rounded toward zero: the remainder `a - q * b` is smaller than `b` in
      magnitude and is either zero or has the sign of the dividend `a`. */
  ghost predicate IsTruncQuotient(a: int, b: int, q: int)
    requires b > 0
  {
    var rem := a - q * b;
    && -b < rem < b
    && (rem == 0 || (rem > 0 <==> a > 0))
  }

  /** `x <= y` survives multiplication by a positive factor. */
  lemma MulMonotone(x: int, y: int, b: int)
    requires b > 0 && x <= y
    ensures x * b <= y * b
  {
    assert y * b - x * b == (y - x) * b;
  }

  /** Dafny's `/` on a nonnegative dividend: the remainder lies in
      `[0, b)` and the quotient is no larger than the dividend. */
  lemma NonnegDivFacts(n: int, b: int)
    requires n >= 0 && b > 0
    ensures 0 <= n - (n / b) * b < b
    ensures 0 <= n / b <= n
  {
    var q := n / b;
    assert n == q * b + n % b;
    if q > 0 {
      MulMonotone(1, b, q);
    }
  }

  /** Rust's integer `/` by a positive divisor: the quotient rounded toward
      zero. It never grows the magnitude of the dividend and keeps its sign. */
  function TruncDiv(a: int, b: int): (q: int)
    requires b > 0
    ensures IsTruncQuotient(a, b, q)
    ensures a >= 0 ==> 0 <= q <= a
    ensures a < 0 ==> a <= q <= 0
  {
    NonnegDivFacts(Abs(a), b);
    if a >= 0 then a / b else -((-a) / b)
  }

  /** The rounded-toward-zero quotient is the only one that meets
      `IsTruncQuotient`. */
  lemma {:induction false} TruncQuotientUnique(a: int, b: int, q1: int, q2: int)
    requires b > 0
    requires IsTruncQuotient(a, b, q1) && IsTruncQuotient(a, b, q2)
    ensures q1 == q2
  {
    if q1 < q2 {
      assert (q1 + 1) * b == q1 * b + b;
      MulMonotone(q1 + 1, q2, b);
    } else if q2 < q1 {
      assert (q2 + 1) * b == q2 * b + b;
      MulMonotone(q2 + 1, q1, b);
    }
  }

  /** By a positive divisor: for a nonnegative dividend the two division
      conventions agree; for a negative dividend that the divisor does not
      divide, rounding toward zero lands one above Dafny's Euclidean (here
      floor) quotient. */
  lemma {:induction false} TruncDivVersusEuclidean(a: int, b: int)
    requires b > 0
    ensures a >= 0 ==> TruncDiv(a, b) == a / b
    ensures a < 0 && a % b != 0 ==> TruncDiv(a, b) == a / b + 1
    ensures a < 0 && a % b == 0 ==> TruncDiv(a, b) == a / b
  {
    var q, e := a / b, a % b;
    if a >= 0 {
      TruncQuotientUnique(a, b, TruncDiv(a, b), q);
    } else if e != 0 {
      assert a - (q + 1) * b == e - b;
      TruncQuotientUnique(a, b, TruncDiv(a, b), q + 1);
    } else {
      TruncQuotientUnique(a, b, TruncDiv(a, b), q);
    }
  }

  /** Reference definition of division by a positive divisor, independent
      of Dafny's `/`: the number of whole copies of `b` that can be taken
      away from `n` before less than `b` remains. */
  function CountSubtractions(n: nat, b: int): (q: nat)
    requires b > 0
    ensures 0 <= n - q * b < b
    decreases n
  {
    if n < b then 0
    else
      var q' := CountSubtractions(n - b, b);
      assert (q' + 1) * b == q' * b + b;
      q' + 1
  }

  /** Rounding toward zero, as repeated subtraction from the magnitude of
      the dividend with the dividend's sign put back on the count. */
  function SubtractionQuotient(a: int, b: int): int
    requires b > 0
  {
    var count: int := CountSubtractions(Abs(a), b);
    if a >= 0 then count else -count
  }

  /** `TruncDiv` agrees with the repeated-subtraction reference on every
      dividend. */
  lemma {:induction false} TruncDivIsRepeatedSubtraction(a: int, b: int)
    requires b > 0
    ensures TruncDiv(a, b) == SubtractionQuotient(a, b)
  {
    var q := SubtractionQuotient(a, b);
    if a < 0 {
      var c := CountSubtractions(-a, b);
      assert a - q * b == -(-a - c * b);
    }
    assert IsTruncQuotient(a, b, q);
    TruncQuotientUnique(a, b, TruncDiv(a, b), q);
  }

  /** Rounding toward zero by a positive divisor preserves `<=`. */
  lemma {:induction false} TruncDivMonotone(a1: int, a2: int, b: int)
    requires b > 0 && a1 <= a2
    ensures TruncDiv(a1, b) <= TruncDiv(a2, b)
  {
    var q1, q2 := TruncDiv(a1, b), TruncDiv(a2, b);
    if q1 > q2 {
      assert (q2 + 1) * b == q2 * b + b;
      MulMonotone(q2 + 1, q1, b);
      // Now q1 * b >= q2 * b + b, while the remainders a1 - q1 * b and
      // a2 - q2 * b are both within b of zero and signed like a1 and a2.
    }
  }

  /** Checked `i32` operations: `None` when the exact value is outside
      `i32`, otherwise that value. For `-` and `*` Rust panics there in a
      debug build and wraps around in a release build; `Div` below adds
      division by zero, and its `None` cases panic in every build. */
  function Checked(x: int): Option<int> {
    if InRange(x) then Some(x) else None
  }

  function Sub(a: int, b: int): Option<int> {
    Checked(a - b)
  }

  function Mul(a: int, b: int): Option<int> {
    Checked(a * b)
  }

  /** Rust `i32 /`: the quotient rounded toward zero, defined for every
      nonzero divisor except the single overflowing case `MIN / -1`. */
  function Div(a: int, b: int): (r: Option<int>)
    requires InRange(a) && InRange(b)
    ensures r.Some? <==> b != 0 && !(a == MIN && b == -1)
    ensures r.Some? ==> InRange(r.value)
    ensures r.Some? && b > 0 ==> IsTruncQuotient(a, b, r.value)
    ensures r.Some? && b < 0 ==> IsTruncQuotient(-a, -b, r.value)
  {
    if b == 0 then None
    else if b > 0 then Checked(TruncDiv(a, b))
    else
      var q := TruncDiv(-a, -b);
      if b < -1 && q > 0 then
        MulMonotone(2, -b, q);
        Checked(q)
      else if b < -1 && q < 0 then
        MulMonotone(2, -b, -q);
        Checked(q)
      else
        Checked(q)
  }
}
