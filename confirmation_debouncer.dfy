/**
 * The confirmation debouncer: a counter of detector outcomes whose two
 * thresholds give "face present" its asymmetric hysteresis.
 */
module ConfirmationDebouncer {

  /** Present ticks needed before a face is declared present. */
  const ConfirmTicks: int := 3

  /**
   * The counter after one tick: `consecutive++` on a present tick,
   * `Math.max(0, consecutive - 1)` on an absent one.
   */
  function Next(count: int, present: bool): (r: int)
    ensures count >= 0 ==> r >= 0
    ensures present ==> r == count + 1
    ensures !present && count > 0 ==> r == count - 1
    ensures !present && count <= 0 ==> r == 0
  {
    if present then count + 1
    else if 0 > count - 1 then 0 else count - 1
  }

  /** The counter has reached the confirmation threshold. */
  predicate Confirmed(count: int)
    ensures Confirmed(count) ==> count > 0
  {
    count >= ConfirmTicks
  }

  /** The counter has drained completely: presence is withdrawn. */
  predicate Drained(count: int)
    ensures Drained(count) ==> !Confirmed(count)
  {
    count == 0
  }

  /** The counter reached from `count` by a run of present/absent outcomes. */
  function NextAll(count: int, outcomes: seq<bool>): (r: int)
    decreases |outcomes|
  {
    if outcomes == [] then count else NextAll(Next(count, outcomes[0]), outcomes[1..])
  }

  /** No run of outcomes drives a non-negative counter below zero. */
  lemma {:induction false} NeverNegative(count: int, outcomes: seq<bool>)
    requires count >= 0
    ensures NextAll(count, outcomes) >= 0
    decreases |outcomes|
  {
    if outcomes != [] {
      NeverNegative(Next(count, outcomes[0]), outcomes[1..]);
    }
  }

  /**
   * The counter rises by at most the number of present outcomes, so from
   * zero confirmation takes at least ConfirmTicks present ticks.
   */
  lemma {:induction false} RiseBoundedByPresentTicks(count: int, outcomes: seq<bool>)
    requires count >= 0
    ensures NextAll(count, outcomes) <= count + multiset(outcomes)[true]
    decreases |outcomes|
  {
    if outcomes != [] {
      RiseBoundedByPresentTicks(Next(count, outcomes[0]), outcomes[1..]);
      assert outcomes == [outcomes[0]] + outcomes[1..];
    }
  }
}
