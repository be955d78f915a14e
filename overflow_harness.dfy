/**
 The reporting harness without its console output: for each integer kind it
 takes step = max / 5, calls a routine once with 5 steps and once with 6,
 and would print the two outcomes. What those outcomes are is stated here.
 */
module OverflowHarness {
  import opened IntTypes
  import opened NumericOverflows

  /** The number of steps expected to succeed; the second call asks for one more. */
  const HarnessSteps: nat := 5

  /** test_overflow<T>: start at 0 and add max / 5, first 5 and then 6 times.
      The five additions reach 5 * (max / 5) exactly; the sixth is refused. */
  method TestOverflow(k: IntKind) returns (first: Outcome, second: Outcome)
    ensures var t, q := RangeOf(k), RangeOf(k).max / 5;
      && first == Outcome(true, 5 * q)
      && second == Outcome(false, 5 * q)
      && t.max - q < 5 * q <= t.max
  {
    var t := RangeOf(k);
    var increment := t.max / HarnessSteps;
    var start := 0;
    first := AddNumbers(t, start, increment, HarnessSteps);
    second := AddNumbers(t, start, increment, HarnessSteps + 1);
    AddWithinCapacity(t, start, increment, HarnessSteps);
    AddBeyondCapacity(t, start, increment, HarnessSteps + 1, HarnessSteps);
  }

  /** test_underflow<T>: start at max and subtract max / 5, first 5 and then 6 times.
      The five subtractions leave max - 5 * (max / 5), which is max % 5. For an unsigned
      type the sixth is refused; for a signed type the negative half of the range takes
      it, so the second call also succeeds and no underflow is reported. */
  method TestUnderflow(k: IntKind) returns (first: Outcome, second: Outcome)
    ensures var t, q := RangeOf(k), RangeOf(k).max / 5;
      && first == Outcome(true, t.max % 5)
      && (!k.IsSigned() ==> second == Outcome(false, t.max % 5))
      && (k.IsSigned() ==> second == Outcome(true, t.max % 5 - q))
  {
    var t := RangeOf(k);
    var decrement := t.max / HarnessSteps;
    var start := t.max;
    first := SubtractNumbers(t, start, decrement, HarnessSteps);
    second := SubtractNumbers(t, start, decrement, HarnessSteps + 1);
    SubtractWithinCapacity(t, start, decrement, HarnessSteps);
    if k.IsSigned() {
      SubtractWithinCapacity(t, start, decrement, HarnessSteps + 1);
    } else {
      SubtractBeyondCapacity(t, start, decrement, HarnessSteps + 1, HarnessSteps);
    }
  }

  /** unsigned char: 0 + 5 * 51 = 255 succeeds, a sixth 51 is refused; 255 - 5 * 51 = 0
      succeeds, a sixth 51 is refused. */
  lemma UInt8Scenario()
    ensures AddOutcome(RangeOf(UInt8), 0, 51, 5) == Outcome(true, 255)
    ensures AddOutcome(RangeOf(UInt8), 0, 51, 6) == Outcome(false, 255)
    ensures SubtractOutcome(RangeOf(UInt8), 255, 51, 5) == Outcome(true, 0)
    ensures SubtractOutcome(RangeOf(UInt8), 255, 51, 6) == Outcome(false, 0)
  {
    // Literal arguments: Dafny evaluates these outcomes step by step on its own.
  }

  /** signed char: from 127, six subtractions of 25 all succeed and end at -23. */
  lemma Int8UnderflowScenario()
    ensures SubtractOutcome(RangeOf(Int8), 127, 25, 5) == Outcome(true, 2)
    ensures SubtractOutcome(RangeOf(Int8), 127, 25, 6) == Outcome(true, -23)
  {
    // Literal arguments: Dafny evaluates these outcomes step by step on its own.
  }

  /** 32-bit int: five additions of INT32_MAX / 5 reach 2147483645, the sixth is refused. */
  lemma Int32OverflowScenario()
    ensures AddOutcome(RangeOf(Int32), 0, 429496729, 5) == Outcome(true, 2147483645)
    ensures AddOutcome(RangeOf(Int32), 0, 429496729, 6) == Outcome(false, 2147483645)
  {
    // Literal arguments: Dafny evaluates these outcomes step by step on its own.
  }
}
