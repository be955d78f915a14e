/**
 Bounded repeated accumulation with a range pre-check: add_numbers and
 subtract_numbers, for an integer type T given by its range.

 AddOutcome and SubtractOutcome state, step by step, what the loops compute;
 AddNumbers and SubtractNumbers are the loops themselves, proved equal to them;
 the lemmas say what those outcomes mean.
 */
module NumericOverflows {
  import opened IntTypes

  /** std::pair<bool, T>: whether every step was taken, and the accumulator. */
  datatype Outcome = Outcome(succeeded: bool, value: int)

  /** What every routine demands of its caller: a valid type T, a start value of T,
      and a step of T that is not negative. */
  predicate Request(t: IntRange, start: int, step: int) {
    t.Valid() && t.Contains(start) && 0 <= step <= t.max
  }

  /** The bounds the two checks compare against, `max - step` and `min + step`, are
      themselves values of T, so computing them cannot overflow. */
  lemma CheckBoundsRepresentable(t: IntRange, step: int)
    requires t.Valid() && 0 <= step <= t.max
    ensures t.Contains(t.max - step)
    ensures t.Contains(t.min + step)
  {
  }

  // ---------------------------------------------------------------------------
  // add_numbers

  /** The outcome of at most `steps` additions of `increment` onto `start`, each one
      taken only if `acc > max - increment` does not hold. */
  function AddOutcome(t: IntRange, start: int, increment: int, steps: nat): (r: Outcome)
    ensures !r.succeeded ==> 0 < steps && r.value > t.max - increment
    decreases steps
  {
    if steps == 0 then Outcome(true, start)
    else if start > t.max - increment then Outcome(false, start)
    else AddOutcome(t, start + increment, increment, steps - 1)
  }

  method AddNumbers(t: IntRange, start: int, increment: int, steps: nat) returns (res: Outcome)
    requires Request(t, start, increment)
    ensures res == AddOutcome(t, start, increment, steps)
  {
    var result := start;
    var i := 0;
    while i < steps
      invariant 0 <= i <= steps
      invariant start <= result <= t.max
      invariant AddOutcome(t, result, increment, steps - i) == AddOutcome(t, start, increment, steps)
    {
      if result > Minus(t, t.max, increment) {
        return Outcome(false, result);
      }
      result := Plus(t, result, increment);
      i := i + 1;
    }
    return Outcome(true, result);
  }

  /** With no steps to take the routine succeeds and returns its start. */
  lemma AddNoSteps(t: IntRange, start: int, increment: int)
    requires Request(t, start, increment)
    ensures AddOutcome(t, start, increment, 0) == Outcome(true, start)
  {
  }

  /** The accumulator never leaves [start, max]. */
  lemma {:induction false} AddOutcomeInRange(t: IntRange, start: int, increment: int, steps: nat)
    requires Request(t, start, increment)
    ensures start <= AddOutcome(t, start, increment, steps).value <= t.max
    decreases steps
  {
    if steps > 0 && start <= t.max - increment {
      AddOutcomeInRange(t, start + increment, increment, steps - 1);
    }
  }

  /** A success has taken every step, exactly, without wrapping. */
  lemma {:induction false} AddSucceeded(t: IntRange, start: int, increment: int, steps: nat)
    requires Request(t, start, increment)
    requires AddOutcome(t, start, increment, steps).succeeded
    ensures AddOutcome(t, start, increment, steps).value == start + steps * increment
    ensures AddOutcome(t, start, increment, steps).value <= t.max
    decreases steps
  {
    if steps > 0 {
      AddSucceeded(t, start + increment, increment, steps - 1);
    }
  }

  /** A failure returns the accumulator of a successful run with fewer steps, and that
      accumulator is one the next addition would carry past max. */
  lemma {:induction false} AddFailed(t: IntRange, start: int, increment: int, steps: nat)
    requires Request(t, start, increment)
    requires !AddOutcome(t, start, increment, steps).succeeded
    ensures AddOutcome(t, start, increment, steps).value > t.max - increment
    ensures exists k :: 0 <= k < steps && AddOutcome(t, start, increment, k) == Outcome(true, AddOutcome(t, start, increment, steps).value)
                        && AddOutcome(t, start, increment, steps).value == start + k * increment
    decreases steps
  {
    var v := AddOutcome(t, start, increment, steps).value;
    var k: nat;
    if start > t.max - increment {
      k := 0;
    } else {
      AddFailed(t, start + increment, increment, steps - 1);
      var j :| 0 <= j < steps - 1 && AddOutcome(t, start + increment, increment, j) == Outcome(true, v);
      k := j + 1;
    }
    assert AddOutcome(t, start, increment, k) == Outcome(true, v);
    AddSucceeded(t, start, increment, k);
  }

  /** When `steps` additions fit below max, all of them are taken. */
  lemma {:induction false} AddWithinCapacity(t: IntRange, start: int, increment: int, steps: nat)
    requires Request(t, start, increment)
    requires start + steps * increment <= t.max
    ensures AddOutcome(t, start, increment, steps) == Outcome(true, start + steps * increment)
    decreases steps
  {
    if steps > 0 {
      assert start + increment + (steps - 1) * increment == start + steps * increment;
      AddWithinCapacity(t, start + increment, increment, steps - 1);
    }
  }

  /** When exactly k additions fit below max and more are asked for, the routine stops
      after the k-th with the accumulator it had then. */
  lemma {:induction false} AddBeyondCapacity(t: IntRange, start: int, increment: int, steps: nat, k: nat)
    requires Request(t, start, increment)
    requires k < steps
    requires start + k * increment <= t.max < start + (k + 1) * increment
    ensures AddOutcome(t, start, increment, steps) == Outcome(false, start + k * increment)
    decreases k
  {
    if k > 0 {
      assert start + increment + (k - 1) * increment == start + k * increment;
      AddBeyondCapacity(t, start + increment, increment, steps - 1, k - 1);
    }
  }

  /** Once it fails, asking for more steps changes nothing. */
  lemma {:induction false} AddFailurePersists(t: IntRange, start: int, increment: int, n: nat, m: nat)
    requires !AddOutcome(t, start, increment, n).succeeded
    requires n <= m
    ensures AddOutcome(t, start, increment, m) == AddOutcome(t, start, increment, n)
    decreases n
  {
    if start <= t.max - increment {
      AddFailurePersists(t, start + increment, increment, n - 1, m - 1);
    }
  }

  /** Success with n steps means success with every smaller number of steps. */
  lemma {:induction false} AddSuccessPrefix(t: IntRange, start: int, increment: int, n: nat, m: nat)
    requires AddOutcome(t, start, increment, n).succeeded
    requires m <= n
    ensures AddOutcome(t, start, increment, m).succeeded
    decreases m
  {
    if m > 0 {
      AddSuccessPrefix(t, start + increment, increment, n - 1, m - 1);
    }
  }

  // ---------------------------------------------------------------------------
  // subtract_numbers

  /** The outcome of at most `steps` subtractions of `decrement` from `start`, each one
      taken only if `acc < min + decrement` does not hold. */
  function SubtractOutcome(t: IntRange, start: int, decrement: int, steps: nat): (r: Outcome)
    ensures !r.succeeded ==> 0 < steps && r.value < t.min + decrement
    decreases steps
  {
    if steps == 0 then Outcome(true, start)
    else if start < t.min + decrement then Outcome(false, start)
    else SubtractOutcome(t, start - decrement, decrement, steps - 1)
  }

  method SubtractNumbers(t: IntRange, start: int, decrement: int, steps: nat) returns (res: Outcome)
    requires Request(t, start, decrement)
    ensures res == SubtractOutcome(t, start, decrement, steps)
  {
    var result := start;
    var i := 0;
    while i < steps
      invariant 0 <= i <= steps
      invariant t.min <= result <= start
      invariant SubtractOutcome(t, result, decrement, steps - i) == SubtractOutcome(t, start, decrement, steps)
    {
      if result < Plus(t, t.min, decrement) {
        return Outcome(false, result);
      }
      result := Minus(t, result, decrement);
      i := i + 1;
    }
    return Outcome(true, result);
  }

  /** With no steps to take the routine succeeds and returns its start. */
  lemma SubtractNoSteps(t: IntRange, start: int, decrement: int)
    requires Request(t, start, decrement)
    ensures SubtractOutcome(t, start, decrement, 0) == Outcome(true, start)
  {
  }

  /** The accumulator never leaves [min, start]. */
  lemma {:induction false} SubtractOutcomeInRange(t: IntRange, start: int, decrement: int, steps: nat)
    requires Request(t, start, decrement)
    ensures t.min <= SubtractOutcome(t, start, decrement, steps).value <= start
    decreases steps
  {
    if steps > 0 && start >= t.min + decrement {
      SubtractOutcomeInRange(t, start - decrement, decrement, steps - 1);
    }
  }

  /** A success has taken every step, exactly, without wrapping. */
  lemma {:induction false} SubtractSucceeded(t: IntRange, start: int, decrement: int, steps: nat)
    requires Request(t, start, decrement)
    requires SubtractOutcome(t, start, decrement, steps).succeeded
    ensures SubtractOutcome(t, start, decrement, steps).value == start - steps * decrement
    ensures SubtractOutcome(t, start, decrement, steps).value >= t.min
    decreases steps
  {
    if steps > 0 {
      SubtractSucceeded(t, start - decrement, decrement, steps - 1);
    }
  }

  /** A failure returns the accumulator of a successful run with fewer steps, and that
      accumulator is one the next subtraction would carry below min. */
  lemma {:induction false} SubtractFailed(t: IntRange, start: int, decrement: int, steps: nat)
    requires Request(t, start, decrement)
    requires !SubtractOutcome(t, start, decrement, steps).succeeded
    ensures SubtractOutcome(t, start, decrement, steps).value < t.min + decrement
    ensures exists k :: 0 <= k < steps && SubtractOutcome(t, start, decrement, k) == Outcome(true, SubtractOutcome(t, start, decrement, steps).value)
                        && SubtractOutcome(t, start, decrement, steps).value == start - k * decrement
    decreases steps
  {
    var v := SubtractOutcome(t, start, decrement, steps).value;
    var k: nat;
    if start < t.min + decrement {
      k := 0;
    } else {
      SubtractFailed(t, start - decrement, decrement, steps - 1);
      var j :| 0 <= j < steps - 1 && SubtractOutcome(t, start - decrement, decrement, j) == Outcome(true, v);
      k := j + 1;
    }
    assert SubtractOutcome(t, start, decrement, k) == Outcome(true, v);
    SubtractSucceeded(t, start, decrement, k);
  }

  /** When `steps` subtractions fit above min, all of them are taken. */
  lemma {:induction false} SubtractWithinCapacity(t: IntRange, start: int, decrement: int, steps: nat)
    requires Request(t, start, decrement)
    requires start - steps * decrement >= t.min
    ensures SubtractOutcome(t, start, decrement, steps) == Outcome(true, start - steps * decrement)
    decreases steps
  {
    if steps > 0 {
      assert start - decrement - (steps - 1) * decrement == start - steps * decrement;
      SubtractWithinCapacity(t, start - decrement, decrement, steps - 1);
    }
  }

  /** When exactly k subtractions fit above min and more are asked for, the routine
      stops after the k-th with the accumulator it had then. */
  lemma {:induction false} SubtractBeyondCapacity(t: IntRange, start: int, decrement: int, steps: nat, k: nat)
    requires Request(t, start, decrement)
    requires k < steps
    requires start - (k + 1) * decrement < t.min <= start - k * decrement
    ensures SubtractOutcome(t, start, decrement, steps) == Outcome(false, start - k * decrement)
    decreases k
  {
    if k > 0 {
      assert start - decrement - (k - 1) * decrement == start - k * decrement;
      SubtractBeyondCapacity(t, start - decrement, decrement, steps - 1, k - 1);
    }
  }

  /** Once it fails, asking for more steps changes nothing. */
  lemma {:induction false} SubtractFailurePersists(t: IntRange, start: int, decrement: int, n: nat, m: nat)
    requires !SubtractOutcome(t, start, decrement, n).succeeded
    requires n <= m
    ensures SubtractOutcome(t, start, decrement, m) == SubtractOutcome(t, start, decrement, n)
    decreases n
  {
    if start >= t.min + decrement {
      SubtractFailurePersists(t, start - decrement, decrement, n - 1, m - 1);
    }
  }

  /** Success with n steps means success with every smaller number of steps. */
  lemma {:induction false} SubtractSuccessPrefix(t: IntRange, start: int, decrement: int, n: nat, m: nat)
    requires SubtractOutcome(t, start, decrement, n).succeeded
    requires m <= n
    ensures SubtractOutcome(t, start, decrement, m).succeeded
    decreases m
  {
    if m > 0 {
      SubtractSuccessPrefix(t, start - decrement, decrement, n - 1, m - 1);
    }
  }
}
