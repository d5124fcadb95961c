# Fahrenheit-to-Celsius converter, modelled in Dafny

The program reads a Fahrenheit temperature as a Rust `i32` and prints its
Celsius equivalent, computed by `faren_to_celsius` as
`((faren - 32) * 5) / 9` in `i32` arithmetic. This project models that
function and proves what it computes.

- `wrappers.dfy` (module `Wrappers`): an `Option` type. `None` marks an
  arithmetic step that has no `i32` result.
- `int32.dfy` (module `Int32`): the `i32` range and Rust's integer division.
  Rust's `/` rounds toward zero. Dafny's `/` on `int` is Euclidean, so by a
  positive divisor it rounds a negative dividend down instead. `TruncDiv`
  defines the Rust rounding explicitly. `IsTruncQuotient` describes it independently through
  its remainder, and `TruncQuotientUnique` shows the two agree.
  `SubtractionQuotient` is a second, independent definition: it counts
  repeated subtractions of the divisor. `TruncDivIsRepeatedSubtraction`
  proves that it matches `TruncDiv`. `Sub`, `Mul` and `Div` are the checked
  forms of the three operators.
- `converter.dfy` (module `Converter`): `FarenToCelsius` and its properties.
  It is defined on the exact range of inputs for which no step overflows,
  `-429496697 <= f <= 429496761`. `Evaluate` runs the expression one
  checked `i32` step at a time. `DomainExact` proves that this range is
  exactly where `Evaluate` succeeds. It also proves that `Evaluate` agrees
  with `FarenToCelsius` there.

`FarenToCelsius` is a Dafny function, so its result depends only on its
argument. The source function is pure in the same way, and nothing more
needs proving for that.

## Model

| member | source | states |
|---|---|---|
| Converter.FarenToCelsius | src/main.rs:33-35 | The result is an `i32`. It is `5 * (f - 32) / 9` rounded toward zero: the remainder `5 * (f - 32) - 9 * c` is below 9 in magnitude and is zero or has the sign of `f - 32`. |
| Converter.DomainExact | src/main.rs:33-34 | For an `i32` input, every step of `((f - 32) * 5) / 9` stays in `i32` exactly when `-429496697 <= f <= 429496761`. On that range, step-by-step evaluation gives `FarenToCelsius(f)`. |
| Converter.DomainFitsI32 | src/main.rs:33-34 | On the domain, `f`, `f - 32`, `(f - 32) * 5` and the result all fit in `i32`. |
| Converter.Characterised | src/main.rs:34 | `c == FarenToCelsius(f)` holds if and only if `c` is the rounded-toward-zero quotient of `5 * (f - 32)` by 9. |
| Converter.TruncatesExactValue | src/main.rs:34 | The result is the exact real Celsius value `5 * (f - 32) / 9` with the fraction dropped. It is within one degree below the exact value when `f >= 32`, and within one degree above it when `f < 32`. |
| Converter.AnchorValues | src/main.rs:34 | 32 °F gives 0, 212 °F gives 100 and -40 °F gives -40. 0 °F gives -17, where Euclidean division would give -18. |
| Converter.Monotonic | src/main.rs:34 | `f1 <= f2` implies `FarenToCelsius(f1) <= FarenToCelsius(f2)`. |
| Converter.Sign | src/main.rs:34 | The result is positive iff `f - 32 >= 2`, zero iff `abs(f - 32) <= 1`, and negative iff `f - 32 <= -2`. A positive result implies `f > 32`, and a negative one implies `f < 32`. |
| Converter.Magnitude | src/main.rs:34 | The absolute value of the result is `5 * abs(f - 32)` divided by 9 and rounded down. So it is at most `abs(f - 32)`. |
| Converter.SymmetricAroundFreezing | src/main.rs:34 | `FarenToCelsius(32 + d) == -FarenToCelsius(32 - d)`: truncation rounds both sides of freezing toward zero. |
| Int32.TruncDiv | src/main.rs:34 | Rust `/` by a positive divisor gives the rounded-toward-zero quotient. The result has the sign of the dividend and is no larger in magnitude. |
| Int32.TruncQuotientUnique | src/main.rs:34 | At most one quotient meets the rounded-toward-zero remainder condition. |
| Int32.TruncDivVersusEuclidean | src/main.rs:34 | For a positive divisor: with a nonnegative dividend, Rust and Dafny division agree; with a negative dividend that the divisor does not divide, Rust's quotient is one above Dafny's. |
| Int32.CountSubtractions | src/main.rs:34 | Reference definition of division by a positive divisor, by repeated subtraction. The count `q` leaves a remainder `n - q * b` in `[0, b)`. |
| Int32.TruncDivIsRepeatedSubtraction | src/main.rs:34 | For every dividend, Rust's rounded-toward-zero quotient equals the repeated-subtraction count on the dividend's magnitude, with the dividend's sign applied. |
| Converter.ConvertsByRepeatedSubtraction | src/main.rs:34 | The conversion is the number of nines that fit in `5 * abs(f - 32)`, with the sign of `f - 32`. |
| Int32.TruncDivMonotone | src/main.rs:34 | Rounding toward zero by a positive divisor preserves `<=`. |
| Int32.Div | src/main.rs:34 | Rust `i32 /` has a result exactly when the divisor is nonzero and the operation is not `MIN / -1`. That result is the rounded-toward-zero quotient and fits in `i32`. |

## Left out

- Console I/O in `main` (src/main.rs:16-31): the banner, the prompt, the flush, `read_line` and the `Result: …°F is …°C` line are I/O only. The model takes the parsed `i32` as its input.
- Parsing with `faren.trim().parse::<i32>()` (src/main.rs:25): this is a Rust standard-library call whose grammar is not part of this model. A parse failure ends `main` with an error. The model starts after a successful parse.
- The crossterm/ratatui imports (src/main.rs:1-12): no terminal UI, event loop, input buffer or key handling appears in the source, so there is nothing to model. The imports are unused: the source contains no interactive code.
- Overflow outside the domain: a debug build panics and a release build wraps around. `FarenToCelsius` excludes those inputs by its precondition. `Evaluate` and `DomainExact` report an overflowing step only as `None`. They do not model the panic or the wrapped value.
- Purity of `faren_to_celsius` (src/main.rs:33-35): there is no lemma for it. Every Dafny function is deterministic and has no side effects, so equal inputs give equal outputs by construction.
- Int32.TruncDiv: defined only for a positive divisor. The converter divides only by 9. `Int32.Div` covers negative divisors by negating both operands.
