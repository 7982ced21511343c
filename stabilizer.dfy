/**
 * The lazy-load stabilizer of `scrapeImdb`: scroll, wait, count the loaded
 * list items, and stop once the target count is reached or the count has
 * not grown for `MaxStabilityChecks` consecutive rounds.
 *
 * The scroll and the one-second wait are not modelled; the count observed
 * in round `k` (counting from 0) is `poll(k)`, for an arbitrary `poll`.
 */
module Stabilizer {

  /** Number of items the chart is expected to hold. */
  const TargetCount: nat := 250
  /** Consecutive rounds without growth after which the loop gives up. */
  const MaxStabilityChecks: nat := 10

  /** The loop's two variables, `lastMovieCount` and `stabilityCounter`. */
  datatype State = State(lastCount: nat, stabilityCounter: nat)

  const Initial := State(0, 0)

  function Max(a: nat, b: nat): nat
  {
    if a < b then b else a
  }

  /** One round: record growth and reset the counter, or count a round
      without growth. */
  function Observe(s: State, current: nat): (t: State)
    ensures t.lastCount == Max(s.lastCount, current)
    ensures t.stabilityCounter == 0 <==> current > s.lastCount
    ensures t.stabilityCounter != 0 ==> t.stabilityCounter == s.stabilityCounter + 1
  {
    if current > s.lastCount then State(current, 0)
    else State(s.lastCount, s.stabilityCounter + 1)
  }

  /** The exit test at the end of every round. */
  predicate Finished(s: State)
  {
    s.lastCount >= TargetCount || s.stabilityCounter >= MaxStabilityChecks
  }

  /** The state after `n` rounds, as if the loop never stopped. */
  function StateAfter(poll: nat -> nat, n: nat): State
  {
    if n == 0 then Initial else Observe(StateAfter(poll, n - 1), poll(n - 1))
  }

  /** The maximum of 0 and the first `n` observations. */
  function MaxObserved(poll: nat -> nat, n: nat): (m: nat)
    ensures forall k :: 0 <= k < n ==> poll(k) <= m
    ensures m == 0 || exists k :: 0 <= k < n && poll(k) == m
  {
    if n == 0 then 0 else Max(MaxObserved(poll, n - 1), poll(n - 1))
  }

  /** The lexicographic measure (TargetCount - lastCount, MaxStabilityChecks
      - stabilityCounter), flattened to one number for states the loop
      continues from. */
  function Measure(s: State): nat
    requires !Finished(s)
  {
    (TargetCount - s.lastCount) * MaxStabilityChecks + (MaxStabilityChecks - s.stabilityCounter)
  }

  /** `lastMovieCount` is the running maximum of what has been observed. */
  lemma {:induction false} LastCountIsRunningMax(poll: nat -> nat, n: nat)
    ensures StateAfter(poll, n).lastCount == MaxObserved(poll, n)
  {
    if n > 0 {
      LastCountIsRunningMax(poll, n - 1);
    }
  }

  /** `lastMovieCount` never decreases. */
  lemma {:induction false} LastCountMonotone(poll: nat -> nat, m: nat, n: nat)
    requires m <= n
    ensures StateAfter(poll, m).lastCount <= StateAfter(poll, n).lastCount
  {
    if m < n {
      LastCountMonotone(poll, m, n - 1);
    }
  }

  /** A counter of `c` after round `n` means: the last `c` observations did
      not exceed the count, which was already reached `c` rounds earlier,
      and (unless those are all the rounds) the round before them grew. */
  lemma {:induction false} CounterCountsRoundsWithoutGrowth(poll: nat -> nat, n: nat)
    ensures var s := StateAfter(poll, n);
      && s.stabilityCounter <= n
      && StateAfter(poll, n - s.stabilityCounter).lastCount == s.lastCount
      && (forall k :: n - s.stabilityCounter <= k < n ==> poll(k) <= s.lastCount)
      && (s.stabilityCounter < n ==>
            var g := n - s.stabilityCounter - 1;
            poll(g) > StateAfter(poll, g).lastCount && StateAfter(poll, g + 1).stabilityCounter == 0)
  {
    if n > 0 {
      CounterCountsRoundsWithoutGrowth(poll, n - 1);
    }
  }

  /** A round whose count reaches the target ends the loop, whatever the
      counter says. */
  lemma TargetStopsImmediately(poll: nat -> nat, n: nat)
    requires n > 0 && poll(n - 1) >= TargetCount
    ensures Finished(StateAfter(poll, n))
  {
    LastCountIsRunningMax(poll, n);
  }

  /** Every round the loop continues from lowers the measure. */
  lemma {:induction false} MeasureDecreases(poll: nat -> nat, n: nat)
    requires forall j :: 0 <= j <= n ==> !Finished(StateAfter(poll, j))
    ensures n + Measure(StateAfter(poll, n)) <= Measure(Initial)
  {
    if n > 0 {
      MeasureDecreases(poll, n - 1);
    }
  }

  /** Termination for every possible sequence of observations: some round
      within TargetCount * MaxStabilityChecks ends the loop. */
  lemma EventuallyFinished(poll: nat -> nat)
    ensures exists n :: 1 <= n <= TargetCount * MaxStabilityChecks && Finished(StateAfter(poll, n))
  {
    var bound := TargetCount * MaxStabilityChecks;
    if forall j :: 0 <= j <= bound ==> !Finished(StateAfter(poll, j)) {
      MeasureDecreases(poll, bound);
      assert false;
    }
    var j :| 0 <= j <= bound && Finished(StateAfter(poll, j));
    assert j != 0;
  }

  /** When the count never grows the loop gives up after exactly
      MaxStabilityChecks rounds. */
  lemma {:induction false} NoGrowthGivesUpAfterMaxChecks(poll: nat -> nat, n: nat)
    requires forall k :: 0 <= k < n ==> poll(k) == 0
    ensures StateAfter(poll, n) == State(0, n)
  {
    if n > 0 {
      NoGrowthGivesUpAfterMaxChecks(poll, n - 1);
    }
  }

  /** With no items ever observed the exit test first holds after exactly
      MaxStabilityChecks rounds; with the first-exit postcondition of
      `Stabilize` this fixes its `rounds` at MaxStabilityChecks. */
  lemma NoGrowthStopsAfterMaxChecks(poll: nat -> nat)
    requires forall k :: poll(k) == 0
    ensures Finished(StateAfter(poll, MaxStabilityChecks))
    ensures forall j :: 0 <= j < MaxStabilityChecks ==> !Finished(StateAfter(poll, j))
  {
    forall j | 0 <= j <= MaxStabilityChecks
      ensures StateAfter(poll, j) == State(0, j)
    {
      NoGrowthGivesUpAfterMaxChecks(poll, j);
    }
  }

  /** Two rounds that are both the first to meet the exit test are the same
      round, so the round count `Stabilize` returns is determined by `poll`. */
  lemma FirstExitUnique(poll: nat -> nat, m: nat, n: nat)
    requires Finished(StateAfter(poll, m)) && forall j :: 0 <= j < m ==> !Finished(StateAfter(poll, j))
    requires Finished(StateAfter(poll, n)) && forall j :: 0 <= j < n ==> !Finished(StateAfter(poll, j))
    ensures m == n
  {
  }

  /**
   * The loop of `scrapeImdb`. Besides the two loop variables it returns the
   * number of rounds run, so that the result can be related to `poll`: the
   * loop stops at the first round after which `Finished` holds.
   */
  method Stabilize(poll: nat -> nat) returns (lastCount: nat, stabilityCounter: nat, rounds: nat)
    ensures State(lastCount, stabilityCounter) == StateAfter(poll, rounds)
    ensures Finished(StateAfter(poll, rounds))
    ensures forall j :: 0 <= j < rounds ==> !Finished(StateAfter(poll, j))
    ensures lastCount == MaxObserved(poll, rounds)
    ensures stabilityCounter <= MaxStabilityChecks
    ensures lastCount < TargetCount ==> stabilityCounter == MaxStabilityChecks
    ensures 1 <= rounds <= TargetCount * MaxStabilityChecks
  {
    lastCount, stabilityCounter, rounds := 0, 0, 0;
    while stabilityCounter < MaxStabilityChecks
      invariant lastCount < TargetCount && stabilityCounter < MaxStabilityChecks
      invariant State(lastCount, stabilityCounter) == StateAfter(poll, rounds)
      invariant forall j :: 0 <= j <= rounds ==> !Finished(StateAfter(poll, j))
      invariant rounds + Measure(State(lastCount, stabilityCounter)) <= Measure(Initial)
      decreases TargetCount - lastCount, MaxStabilityChecks - stabilityCounter
    {
      var currentCount := poll(rounds);
      if currentCount > lastCount {
        lastCount := currentCount;
        stabilityCounter := 0;
      } else {
        stabilityCounter := stabilityCounter + 1;
      }
      rounds := rounds + 1;
      if lastCount >= TargetCount || stabilityCounter >= MaxStabilityChecks {
        break;
      }
    }
    LastCountIsRunningMax(poll, rounds);
  }
}
