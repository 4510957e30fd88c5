# goRallye core in Dafny

A model of the waypoint core of goRallye, a GPS rally-raid navigation tool.
A rally waypoint has one of seven types (WPV, WPE, WPM, WPS, WPC, WPP, WPN). Each type
fixes whether the waypoint's ID and coordinates are shown to the competitor, the
radius from which the GPS starts directing them, and the radius within which passing counts.
`Validate` decides whether a position fix reaches the waypoint. It compares both positions
after rounding them to three decimals. The model also covers the decimal helpers of the
`maths` package: `Round`, which rounds to a number of decimals, and `Truncate`, which cuts a
value down to a multiple of a step.

Two modules:

- `Maths` (`maths.dfy`) models `maths/maths.go`.
  - `RoundHalfAway` is Go's `math.Round`: nearest integer, half-way cases away from zero.
  - `Round(x, p)` scales by `Pow10(p)`, rounds and scales back (`RoundAtRatio`).
  - `Truncate(x, s)` divides by the step, truncates toward zero (`TruncToZero`, as `big.Float.Int` does) and multiplies back.
- `Waypoints` (`waypoint.dfy`) models `waypoint/waypoint.go`.
  - The `Waypoint` record, the seven constructors, a `Kind` dispatch over them and `Validate`.

Modelling choices:

- Numbers are exact `real`s. The source's float64 and 1000-bit `big.Float` values are not modelled bit for bit.
- `coordinates.RoundTo3Decimals` belongs to a package that is not part of this model.
  - `Validate` therefore takes the rounding function as a parameter (`roundTo3Decimals`).
  - Every general lemma about `Validate` holds for any rounding function.
  - `ValidatedFixIsNear` bounds how far a validating fix can be from the waypoint for any rule that moves a coordinate by at most `e`: `2e` per axis.
  - The concrete examples are proved under two candidate rules, each applied per axis:
    - `RoundCoordTo3Decimals` uses `Maths.Round(_, 3)`;
    - `TruncateCoordTo3Decimals` uses `Maths.Truncate(_, 0.001)`.
  - Under the truncating rule the test example holds over exact reals only. The float64 values of 1.123 and 78.901 lie just below their thousandth, so truncating them in float64 would give 1.122 and 78.900.
- The doc comment of `Round` (`maths/maths.go:8-12`) lists four examples. The code disagrees with two of them, and the model follows the code.
  - 33.999 at precision 2 gives 34, not 33.99 (`RoundDocExamplesAsComputed`).
  - 33.99 at precision 3 gives 33.99, not 33.999.
  - The other two examples hold as documented (`RoundDocExamples`).
- `Validate` does not look at `ValidationRadius`. Matching is by equality after rounding, as in the source.

## Model

| member | source | states |
|---|---|---|
| Maths.Pow10 | maths/maths.go:14 | the ratio 10^precision is at least 1, so dividing by it is defined |
| Maths.PowerAtLeastOne | maths/maths.go:14 | any natural power of a base of at least 1 is at least 1 |
| Maths.RoundHalfAway | maths/maths.go:15 | math.Round yields an integer within one half of its argument, with an exact half going away from zero |
| Maths.RoundHalfAwayNearest | maths/maths.go:15 | no integer is closer to the argument than math.Round's result |
| Maths.RoundHalfAwayOfInteger | maths/maths.go:15 | math.Round leaves an integer unchanged |
| Maths.RoundHalfAwayMonotonic | maths/maths.go:15 | math.Round never reverses the order of two arguments |
| Maths.RoundAtRatio | maths/maths.go:14-15 | math.Round(x*ratio)/ratio for a ratio of at least 1; its properties are the RoundAtRatio lemmas below |
| Maths.Round | maths/maths.go:13-16 | math.Round(x*10^p)/10^p over reals; its properties are RoundOnGrid, RoundError, RoundNearest, RoundOdd, RoundIdempotent and RoundMonotonic |
| Maths.RoundAtRatioScaled | maths/maths.go:13-16 | the rounded value times the ratio is the integer math.Round produced |
| Maths.RoundAtRatioError | maths/maths.go:13-16 | the rounded value is within half a grid step of the input |
| Maths.RoundAtRatioNearest | maths/maths.go:13-16 | no grid point k/ratio is closer to the input than the rounded value |
| Maths.RoundAtRatioOdd | maths/maths.go:13-16 | rounding a negated number gives the negated result |
| Maths.RoundAtRatioIdempotent | maths/maths.go:13-16 | rounding an already rounded value changes nothing |
| Maths.RoundAtRatioMonotonic | maths/maths.go:13-16 | rounding preserves order |
| Maths.RoundOnGrid | maths/maths.go:13-16 | Round(x, p) has at most p decimals: times 10^p it is an integer |
| Maths.RoundError | maths/maths.go:13-16 | Round(x, p) is within 0.5 * 10^-p of x |
| Maths.RoundNearest | maths/maths.go:13-16 | Round(x, p) is a nearest p-decimal number to x |
| Maths.RoundOdd | maths/maths.go:13-16 | Round is symmetric about zero |
| Maths.RoundIdempotent | maths/maths.go:13-16 | Round(Round(x, p), p) == Round(x, p) |
| Maths.RoundMonotonic | maths/maths.go:13-16 | x <= y implies Round(x, p) <= Round(y, p) |
| Maths.RoundDocExamples | maths/maths.go:9-10 | Round(33.99, 1) == 34 and Round(33.99, 2) == 33.99, as documented |
| Maths.RoundDocExamplesAsComputed | maths/maths.go:11-16 | the code gives Round(33.999, 2) == 34 and Round(33.99, 3) == 33.99, not the documented 33.99 and 33.999 |
| Maths.TruncToZero | maths/maths.go:29-31 | big.Float.Int drops the fraction toward zero: the result lies between zero and the argument, less than 1 away from it |
| Maths.TruncToZeroOfInteger | maths/maths.go:29-31 | truncating an integer leaves it unchanged |
| Maths.Truncate | maths/maths.go:22-35 | TruncToZero(x/s)*s; a zero step gives 0; 0/0 is excluded by the requires; its properties are TruncateIsMultiple, TruncateTowardZero and TruncateLargestMultiple |
| Maths.TruncateIsMultiple | maths/maths.go:22-35 | the result is a whole multiple of the step |
| Maths.TruncateStepSign | maths/maths.go:22-35 | a negative step gives the same result as its absolute value |
| Maths.TruncateOdd | maths/maths.go:22-35 | truncating a negated number gives the negated result |
| Maths.TruncateTowardZero | maths/maths.go:22-35 | the result lies between zero and the input and is less than one step away from it |
| Maths.TruncateLargestMultiple | maths/maths.go:22-35 | no multiple of the step between zero and the input is farther from zero than the result |
| Maths.TruncateIdempotent | maths/maths.go:22-35 | truncating a truncated value to the same step changes nothing |
| Maths.TruncateZeroStep | maths/maths.go:26-33 | a zero step sends every non-zero number to 0: the infinite quotient leaves the integer at its initial 0 |
| Maths.TruncateDocExamples | maths/maths.go:18-21 | 33.999 truncated to steps 0.1, 0.01 and 0.001 gives 33.9, 33.99 and 33.999, as documented |
| Waypoints.NewVisibleWaypoint | waypoint/waypoint.go:26-36 | WPV: ID and coordinates shown, visibility radius 0, validation radius 200, id and position copied, not validated |
| Waypoints.NewEclipseWaypoint | waypoint/waypoint.go:43-53 | WPE: hidden, visibility radius 1000, validation radius 90, id and position copied, not validated |
| Waypoints.NewMaskedWaypoint | waypoint/waypoint.go:60-70 | WPM: hidden, visibility radius 800, validation radius 90, id and position copied, not validated |
| Waypoints.NewSecurityWaypoint | waypoint/waypoint.go:79-89 | WPS: hidden, visibility radius 1000, validation radius 30, id and position copied, not validated |
| Waypoints.NewControlWaypoint | waypoint/waypoint.go:100-110 | WPC: ID shown, coordinates hidden, visibility radius 0, validation radius 300, id and position copied, not validated |
| Waypoints.NewPreciseWaypoint | waypoint/waypoint.go:118-128 | WPP: ID shown, coordinates hidden, visibility radius 0, validation radius 300, id and position copied, not validated |
| Waypoints.NewNavigationWaypoint | waypoint/waypoint.go:142-152 | WPN: hidden, visibility radius 800, validation radius 200, id and position copied, not validated |
| Waypoints.NewIsFresh | waypoint/waypoint.go:26-152 | every type starts unvalidated, with the given id and position, a positive validation radius and a non-negative visibility radius |
| Waypoints.NewVisibilityPolicy | waypoint/waypoint.go:26-152 | only types that show their ID may show coordinates, and a type shows its ID exactly when its visibility radius is 0 |
| Waypoints.NewDistinguishesKinds | waypoint/waypoint.go:26-152 | two types build the same record only when they are the same type, or when they are WPC and WPP |
| Waypoints.Validate | waypoint/waypoint.go:156-171 | validated iff both rounded axes agree; id and coordinates kept; every other field reset to its zero value |
| Waypoints.ValidateAtOwnCoordinates | waypoint/waypoint.go:156-171 | a fix at the waypoint's own position always validates |
| Waypoints.ValidateSymmetric | waypoint/waypoint.go:156-171 | exchanging the waypoint's position and the fix gives the same verdict |
| Waypoints.ValidateDependsOnRoundedFix | waypoint/waypoint.go:157-159 | fixes that round alike get identical results |
| Waypoints.RevalidateForgetsVerdict | waypoint/waypoint.go:156-171 | validating a result again depends only on the new fix, so repeating a fix changes nothing |
| Waypoints.ValidatedFixIsNear | waypoint/waypoint.go:156-171 | for any rounding rule that moves each axis by at most e, a validating fix is within 2e of the waypoint on each axis |
| Waypoints.RoundCoordTo3Decimals | waypoint/waypoint.go:157-158 | the candidate rule that rounds each axis to 3 decimals moves it by at most 0.0005 degree |
| Waypoints.TruncateCoordTo3Decimals | waypoint/waypoint.go:157-158 | the candidate rule that truncates each axis to 3 decimals moves it by less than 0.001 degree |
| Waypoints.ValidatedFixIsNearUnderBothRules | waypoint/waypoint.go:156-171 | a validating fix is within 0.001 degree per axis under the rounding rule and within 0.002 under the truncating rule |
| Waypoints.ValidateTestExample | waypoint/waypoint_test.go:41-58 | (1.123456, 78.901234) is validated by the fix (1.123, 78.901), under both candidate rules |
| Waypoints.ValidateNearbyExamples | waypoint/waypoint.go:156-171 | (47.123499, 73.123401) validates a waypoint at (47.123456, 73.123456) and (47.124, 73.123456) does not, under both candidate rules |
| Waypoints.ValidateDropsPolicy | waypoint/waypoint.go:160-170 | validating a fresh WPV yields a record whose validation radius is 0, breaking the constructors' invariant |
| Waypoints.ValidateKeepingPolicy | waypoint/waypoint.go:154-171 | same verdict as Validate, every other field of the waypoint unchanged |
| Waypoints.ValidateKeepingPolicyAgrees | waypoint/waypoint.go:154-171 | it agrees with Validate on id, coordinates and verdict, and it preserves the radius invariant |

## Left out

- ParseWaypoints (`waypoint/waypoint.go:175-188`): reads a file and decodes JSON. File I/O and JSON decoding are outside the model.
- DistanceToWaypoint (`waypoint/waypoint.go:194-196`): a call into the haversine package, which is not part of this model.
- coordinates.RoundTo3Decimals: its package is not part of this model. `Validate` takes it as a parameter.
- HeadingToWaypoint (waypoint/waypoint.go:190-192): one float subtraction, not normalised, not modelled.
- Validate on a nil receiver: the source panics when it reads the receiver's coordinates (waypoint/waypoint.go:157). A `Waypoint` value here is never nil.
- Floating point: every float64 is an exact real, so NaN, the infinities and binary representation error are not modelled.
  - Round's `number*ratio` may overflow or round in float64. Truncate converts back with `Float64()`.
  - Round's uint precision is a `nat`, and `Pow10(p)` is exact for every p.
    - In the source, `math.Pow(10, float64(precision))` is inexact above 10^22.
    - From precision 309 it is +Inf, so `Round` returns NaN (Inf/Inf).
- Maths.Truncate: a zero step with a zero number makes big.Float panic. The model excludes that call by a precondition instead of modelling the panic.
- Go's `int` is 64-bit. IDs and radii are unbounded integers here; the source does no arithmetic on them.
- Validate returns a pointer to a new record. The model returns the record as a value. The receiver is never modified, so no aliasing is lost.

## Findings

| source | as written | input that shows it | evidently intended | confidence | as-written member | corrected member |
|---|---|---|---|---|---|---|
| waypoint/waypoint.go:160-170 | Validate builds a new record holding only ID, Coordinates and Validated. The type flags and both radii fall back to Go's zero values. | NewVisibleWaypoint(1, c).Validate(c) has ValidationRadius 0 and VisibleID false | the waypoint with only Validated updated, keeping its positive validation radius | medium (the doc comment says only that the result has Validated: true); not executed | Waypoints.ValidateDropsPolicy | Waypoints.ValidateKeepingPolicy |
