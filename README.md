# Integer division with an error return (Go tutorial 2)

This project models the one piece of logic in the Go tutorial program
`cmd/tutorial_2/main.go`: the function `intDivision`, which divides two
integers and returns a quotient, a remainder and an `error`, and the `switch`
in `main` that turns that triple into one of three reports.

Go's `/` and `%` truncate toward zero, and the remainder takes the sign of the
dividend (Go Programming Language Specification, section "Integer operators").
Dafny's built-in `/` and `%` are Euclidean, so module `GoArith`
(`go_arith.dfy`) defines Go's operators itself. `MagnitudeDivision` divides the
magnitudes of the operands by repeated subtraction. `Quot` and `Rem` then give
those results Go's signs, on unbounded integers. `Quot64` and `Rem64` work on
Go's 64-bit `int`, where the most negative value divided by -1 wraps around. The module proves that these
operators meet Go's contract, that the contract determines them uniquely, and
how they relate to Euclidean division.

Module `Tutorial2` (`tutorial2.dfy`) models `intDivision` and the `switch`:

- The Go `error` becomes `Option<DivError>`, where `None` stands for `nil`.
- The triple becomes the datatype `Division`.
- The report becomes the datatype `Outcome`.

`intDivision` reads and writes no state, so it is modelled as a Dafny
function of its two arguments. Its results therefore depend on nothing else,
and calling it has no effect.

## Model

| member | source | states |
|---|---|---|
| `Tutorial2.IntDivision` | cmd/tutorial_2/main.go:30-39 | The error is non-nil exactly when the denominator is 0. A zero denominator gives quotient 0 and remainder 0. Any other denominator gives a quotient and remainder that satisfy Go's truncated-division contract. |
| `Tutorial2.IntDivision64` | cmd/tutorial_2/main.go:30-39 | On 64-bit `int` operands, both results fit in 64 bits. The results equal those of the unbounded `IntDivision`, except for `MinInt64 / -1`, which returns `(MinInt64, 0, nil)`. |
| `Tutorial2.Classify` | cmd/tutorial_2/main.go:16-23 | The `switch` picks exactly one outcome, trying its cases in order. A non-nil error is reported first. Otherwise a zero remainder reports the quotient alone. Otherwise the quotient is reported with its remainder. |
| `Tutorial2.ReportedOutcome` | cmd/tutorial_2/main.go:14-23 | For any operands, the report is an error exactly when the divisor is 0. It is an exact quotient `q` with `q * d == n` exactly when `d` divides `n`. Otherwise it carries Go's truncated quotient and a nonzero remainder. |
| `Tutorial2.MainOutcome` | cmd/tutorial_2/main.go:12-23 | The program's own inputs, 10 and 2, take the zero-remainder branch with quotient 5. |
| `Tutorial2.TruncationExamples` | cmd/tutorial_2/main.go:36-37 | Gives the four sign combinations of 5 and 3, and `-7, 2` giving `-3, -1`. The Euclidean result for `-7, 2` would be `-4, 1`. |
| `GoArith.MagnitudeDivision` | cmd/tutorial_2/main.go:36-37 | For magnitudes `a` and `b > 0`, it returns `(q, r)` with `q * b + r == a` and `0 <= r < b`. |
| `GoArith.QuotRemContract` | cmd/tutorial_2/main.go:36-37 | For every nonzero divisor, `q * y + r == x` and `abs(r) < abs(y)`. The remainder is 0 or has the sign of the dividend. |
| `GoArith.QuotTruncatesTowardZero` | cmd/tutorial_2/main.go:36 | `abs(q)` is the number of whole `abs(y)` that fit in `abs(x)`. `q` is non-negative when the operands have the same sign and non-positive otherwise. So `q` is the exact quotient rounded toward zero. |
| `GoArith.TruncatedDivisionUnique` | cmd/tutorial_2/main.go:36-37 | Any pair that satisfies Go's contract is the pair `Quot` and `Rem` return. |
| `GoArith.QuotNegation` | cmd/tutorial_2/main.go:36 | `(-x) / y == x / (-y) == -(x / y)`. |
| `GoArith.RemNegation` | cmd/tutorial_2/main.go:37 | `(-x) % y == -(x % y)`, and `x % (-y) == x % y`. |
| `GoArith.EuclideanRelation` | cmd/tutorial_2/main.go:36-37 | Go's and Euclidean division agree exactly when the dividend is non-negative or the division is exact. Otherwise Go's quotient is one step closer to zero, and its remainder is the Euclidean remainder minus `abs(y)`. Go's remainder is 0 exactly when the Euclidean one is. |
| `GoArith.QuotFitsInt64` | cmd/tutorial_2/main.go:36-37 | For 64-bit operands, the remainder always fits in 64 bits. The quotient fits unless the operands are `MinInt64` and -1. |
| `GoArith.Int64Division` | cmd/tutorial_2/main.go:36-37 | 64-bit division equals unbounded division except for `MinInt64 / -1`, whose quotient wraps to `MinInt64` with remainder 0. In every case `q * y + r == x` modulo 2^64. |

## Left out

- `printMe` and every `fmt.Printf`/`fmt.Println` call in `cmd/tutorial_2/main.go` are console output. The report is modelled as the `Outcome` datatype, not as text.
- The error's message, "Cannot devide by Zero", comes from `errors.New`. Only the fact that the error is non-nil is modelled, as `DivideByZero`.
- Go's `int` is 32 bits wide on 32-bit platforms. Only the unbounded and 64-bit widths are modelled.
- `cmd/tutorial_1/main.go` is not part of this model. It only assigns and prints literals, some of them floating-point and complex.
- `cmd/tutorial_3/main.go` is not part of this model. It shows the built-ins `append` and `make`, map lookup and `range` on hard-coded values, and it has no function of its own.
- `api/api.go` is not part of this model. Its handlers write JSON through `net/http` and `encoding/json`, and its structs carry no logic.
