# Numeric overflow and underflow detection

A model of the two generic routines of `NumericOverflows.cpp`, for integer types.

- `add_numbers(start, increment, steps)` starts an accumulator at `start`. It adds `increment` up to `steps` times.
- Before each addition it tests `result > max(T) - increment`. If the test holds it returns `{false, result}` with the accumulator untouched. Otherwise, after all the steps, it returns `{true, result}`.
- `subtract_numbers(start, decrement, steps)` is the mirror image. Its test is `result < min(T) + decrement`.

An integer type T is modelled by its range (`IntTypes.IntRange`, with `min <= 0 < max`). `IntTypes.RangeOf` gives the ranges of the eight fixed-width kinds, signed and unsigned at 8, 16, 32 and 64 bits.

Arithmetic in T goes through `IntTypes.Plus` and `IntTypes.Minus`. These are defined only when the exact result is a value of T. Verifying the two loops therefore shows that neither the bound `max - increment` / `min + decrement` nor the update ever overflows or wraps.

`NumericOverflows.AddOutcome` and `NumericOverflows.SubtractOutcome` are recursive definitions that take one step at a time. `AddNumbers` and `SubtractNumbers` are the loops, proved to compute them. The lemmas then say what an outcome means:
- the value stays in range;
- success means exactly `steps` steps were taken;
- failure returns the accumulator of a shorter successful run, at the first step that would cross the bound;
- the outcome is fully determined by how many steps fit;
- failure persists as more steps are asked for, and success holds for fewer steps.

`OverflowHarness` covers the calls made by `test_overflow` and `test_underflow` (step `max / 5`, then 5 steps and 6 steps) for every kind. For signed types, the six-step subtraction from `max` succeeds and ends at `max % 5 - max / 5`: the negative half of the range absorbs the sixth step, so that test never reports an underflow. For `signed char` this value is -23.

## Model

| member | source | states |
|---|---|---|
| `IntTypes.RangeOf` | NumericOverflows.cpp:89-101 | each integer kind's range holds 0 and a positive maximum (at least 127); signed kinds are two's complement (`min == -(max + 1)`), unsigned kinds start at 0 |
| `IntTypes.Plus` | NumericOverflows.cpp:16-28 | `+` in T, defined only when the exact sum is a value of T, so a use of it is a proof that the sum neither overflows nor wraps |
| `IntTypes.Minus` | NumericOverflows.cpp:13-31 | `-` in T, defined only when the exact difference is a value of T |
| `NumericOverflows.AddOutcome` | NumericOverflows.cpp:7-19 | the step-by-step definition the loop is proved equal to; its contract says a failure needs at least one step and returns an accumulator above `max - increment` |
| `NumericOverflows.SubtractOutcome` | NumericOverflows.cpp:22-34 | the step-by-step definition the loop is proved equal to; its contract says a failure needs at least one step and returns an accumulator below `min + decrement` |
| `NumericOverflows.CheckBoundsRepresentable` | NumericOverflows.cpp:13-28 | for a non-negative step of T, the comparison bounds `max - step` and `min + step` are themselves values of T |
| `NumericOverflows.AddNumbers` | NumericOverflows.cpp:7-19 | the loop, whose every arithmetic operation stays inside T, returns exactly the step-by-step outcome `AddOutcome`; its invariant keeps the accumulator in `[start, max]` and the remaining outcome equal to the whole one |
| `NumericOverflows.AddNoSteps` | NumericOverflows.cpp:9-18 | zero steps gives `{true, start}` |
| `NumericOverflows.AddOutcomeInRange` | NumericOverflows.cpp:11-17 | the returned value always lies in `[start, max]` |
| `NumericOverflows.AddSucceeded` | NumericOverflows.cpp:11-18 | on success the value is `start + steps * increment` and does not exceed `max` (no wrap-around) |
| `NumericOverflows.AddFailed` | NumericOverflows.cpp:13-14 | on failure the value exceeds `max - increment`, and for some `k < steps` it equals `start + k * increment`, the successful outcome of the run with `k` steps, so the refused addition was never applied |
| `NumericOverflows.AddWithinCapacity` | NumericOverflows.cpp:11-18 | if `start + steps * increment <= max`, the result is `{true, start + steps * increment}` |
| `NumericOverflows.AddBeyondCapacity` | NumericOverflows.cpp:11-16 | if exactly `k < steps` additions fit below `max`, the result is `{false, start + k * increment}`: the routine stops at the first violation |
| `NumericOverflows.AddFailurePersists` | NumericOverflows.cpp:11-14 | a failure with `n` steps is the same failure, with the same value, for every `m >= n` |
| `NumericOverflows.AddSuccessPrefix` | NumericOverflows.cpp:11-18 | a success with `n` steps implies success with every `m <= n` |
| `NumericOverflows.SubtractNumbers` | NumericOverflows.cpp:22-34 | the loop, whose every arithmetic operation stays inside T, returns exactly the step-by-step outcome `SubtractOutcome`; its invariant keeps the accumulator in `[min, start]` and the remaining outcome equal to the whole one |
| `NumericOverflows.SubtractNoSteps` | NumericOverflows.cpp:24-33 | zero steps gives `{true, start}` |
| `NumericOverflows.SubtractOutcomeInRange` | NumericOverflows.cpp:26-32 | the returned value always lies in `[min, start]` |
| `NumericOverflows.SubtractSucceeded` | NumericOverflows.cpp:26-33 | on success the value is `start - steps * decrement` and is not below `min` |
| `NumericOverflows.SubtractFailed` | NumericOverflows.cpp:28-29 | on failure the value is below `min + decrement`, and for some `k < steps` it equals `start - k * decrement`, the successful outcome of the run with `k` steps |
| `NumericOverflows.SubtractWithinCapacity` | NumericOverflows.cpp:26-33 | if `start - steps * decrement >= min`, the result is `{true, start - steps * decrement}` |
| `NumericOverflows.SubtractBeyondCapacity` | NumericOverflows.cpp:26-31 | if exactly `k < steps` subtractions fit above `min`, the result is `{false, start - k * decrement}` |
| `NumericOverflows.SubtractFailurePersists` | NumericOverflows.cpp:26-29 | a failure with `n` steps is the same failure for every `m >= n` |
| `NumericOverflows.SubtractSuccessPrefix` | NumericOverflows.cpp:26-33 | a success with `n` steps implies success with every `m <= n` |
| `OverflowHarness.TestOverflow` | NumericOverflows.cpp:37-58 | for every integer kind, 5 additions of `max / 5` from 0 give `{true, 5 * (max / 5)}`, and 6 give `{false, 5 * (max / 5)}` |
| `OverflowHarness.TestUnderflow` | NumericOverflows.cpp:61-82 | for every integer kind, 5 subtractions of `max / 5` from `max` give `{true, max % 5}`; 6 give `{false, max % 5}` for unsigned kinds but `{true, max % 5 - max / 5}` for signed kinds |
| `OverflowHarness.UInt8Scenario` | NumericOverflows.cpp:37-82 | for `unsigned char`: `add(0, 51, 5) == {true, 255}`, `add(0, 51, 6) == {false, 255}`, `subtract(255, 51, 5) == {true, 0}`, `subtract(255, 51, 6) == {false, 0}` |
| `OverflowHarness.Int8UnderflowScenario` | NumericOverflows.cpp:61-82 | for `signed char`: `subtract(127, 25, 5) == {true, 2}` and `subtract(127, 25, 6) == {true, -23}` (no underflow detected) |
| `OverflowHarness.Int32OverflowScenario` | NumericOverflows.cpp:37-58 | for 32-bit `int`: `add(0, 429496729, 5) == {true, 2147483645}` and `add(0, 429496729, 6) == {false, 2147483645}` |

## Left out

- Floating-point instantiations (`float`, `double`, `long double`, NumericOverflows.cpp:104-106 and 129-131). Their checks depend on IEEE-754 rounding, which is not modelled.
- Console output and `typeid(T).name()` in `test_overflow` / `test_underflow`. `TestOverflow` and `TestUnderflow` return the two outcomes the harness would print.
- `do_overflow_tests`, `do_underflow_tests` and `main` (NumericOverflows.cpp:84-152). They only sequence the harness calls and print banners.
- Negative steps. The routines never check them, and the model requires `0 <= step <= max(T)`. With a negative step the C++ behaves differently by type. For `int`, `long` and `long long`, `max - increment` or `min + decrement` overflows, which is undefined behaviour. For `char` and `short`, both operands are promoted to `int`, so the bound cannot overflow and the check never fires. The update then converts an out-of-range `int` back to T, so the value silently wraps and the routine reports `{true, wrapped}`. Neither behaviour is modelled.
- Platform-dependent widths. `char` may be signed or unsigned, and `long` may be 32 or 64 bits. The model offers the explicit 8/16/32/64-bit kinds; the harness lemmas cover all eight, so they cover every choice.
- The `unsigned long` step counter is modelled as a `nat`. The loop counter `i` never exceeds `steps`, so it cannot wrap.
- Integer promotion of `char` and `short` operands to `int` in the C++ expressions. It changes no result here, because every intermediate value is proved to be a value of T.
