/**
 * Polly's `WaitAndRetryAsync`: run an action; when it throws an exception the policy
 * handles, wait and run it again, up to `retryCount` times. A returned result is
 * never retried. Each attempt's behaviour is an input, and the waits are returned.
 */
module Retry {
  import opened Models

  /** What one attempt of the action does: return a result or throw. */
  datatype Outcome<+R> = Returned(value: R) | Threw(exception: Exception)

  /**
   * A retry policy: how many retries, which exceptions trigger one, and how many
   * seconds to wait before retry number `k` (counted from 1).
   */
  datatype RetryPolicy = RetryPolicy(
    retryCount: nat,
    handles: Exception -> bool,
    sleepDuration: nat -> nat)

  /** The attempt outcome that triggers a retry: a thrown exception the policy handles. */
  predicate Retries(policy: RetryPolicy, outcome: Outcome) {
    outcome.Threw? && policy.handles(outcome.exception)
  }

  /**
   * What running the action under the policy did: the outcome handed to the caller
   * (a returned value, or the exception that propagates), how many attempts ran, and
   * the waits between them.
   */
  datatype Execution<+R> = Execution(outcome: Outcome<R>, attempts: nat, waits: seq<nat>)

  /** The attempts from number `k` (counted from 0) on, given that all earlier ones were retried. */
  function ExecuteFrom<R>(policy: RetryPolicy, outcomes: seq<Outcome<R>>, k: nat): (e: Execution<R>)
    requires k <= policy.retryCount < |outcomes|
    ensures k < e.attempts <= policy.retryCount + 1
    ensures |e.waits| == e.attempts - 1 - k
    decreases policy.retryCount - k
  {
    if Retries(policy, outcomes[k]) && k < policy.retryCount then
      var later := ExecuteFrom(policy, outcomes, k + 1);
      Execution(later.outcome, later.attempts, [policy.sleepDuration(k + 1)] + later.waits)
    else
      Execution(outcomes[k], k + 1, [])
  }

  /**
   * `policy.ExecuteAsync(action)` when attempt `k` of the action has outcome
   * `outcomes[k]`; there is an outcome for every attempt the policy may make.
   */
  function Execute<R>(policy: RetryPolicy, outcomes: seq<Outcome<R>>): Execution<R>
    requires policy.retryCount < |outcomes|
  {
    ExecuteFrom(policy, outcomes, 0)
  }

  /**
   * How an execution ends, stated without the recursion: every attempt but the last
   * threw a handled exception, the last one returned, threw an exception the policy
   * does not handle, or was the last allowed; its outcome is what the caller sees;
   * and retry `k` waited `sleepDuration(k)`.
   */
  ghost predicate Characterizes<R>(policy: RetryPolicy, outcomes: seq<Outcome<R>>, e: Execution<R>) {
    && 1 <= e.attempts <= policy.retryCount + 1
    && e.attempts <= |outcomes|
    && e.outcome == outcomes[e.attempts - 1]
    && (forall i :: 0 <= i < e.attempts - 1 ==> Retries(policy, outcomes[i]))
    && (!Retries(policy, e.outcome) || e.attempts == policy.retryCount + 1)
    && |e.waits| == e.attempts - 1
    && (forall i :: 0 <= i < |e.waits| ==> e.waits[i] == policy.sleepDuration(i + 1))
  }

  /** The recursive definition and the characterization describe the same execution. */
  lemma {:induction false} ExecuteFromCharacterized<R>(policy: RetryPolicy, outcomes: seq<Outcome<R>>, k: nat)
    requires k <= policy.retryCount < |outcomes|
    requires forall i :: 0 <= i < k ==> Retries(policy, outcomes[i])
    ensures var e := ExecuteFrom(policy, outcomes, k);
      && e.outcome == outcomes[e.attempts - 1]
      && (forall i :: 0 <= i < e.attempts - 1 ==> Retries(policy, outcomes[i]))
      && (!Retries(policy, e.outcome) || e.attempts == policy.retryCount + 1)
      && (forall i :: 0 <= i < |e.waits| ==> e.waits[i] == policy.sleepDuration(k + i + 1))
    decreases policy.retryCount - k
  {
    if Retries(policy, outcomes[k]) && k < policy.retryCount {
      ExecuteFromCharacterized(policy, outcomes, k + 1);
      var later := ExecuteFrom(policy, outcomes, k + 1);
      var e := ExecuteFrom(policy, outcomes, k);
      forall i | 0 <= i < |e.waits| ensures e.waits[i] == policy.sleepDuration(k + i + 1) {
        if i > 0 {
          assert e.waits[i] == later.waits[i - 1];
        }
      }
    }
  }

  lemma ExecuteCharacterized<R>(policy: RetryPolicy, outcomes: seq<Outcome<R>>)
    requires policy.retryCount < |outcomes|
    ensures Characterizes(policy, outcomes, Execute(policy, outcomes))
  {
    ExecuteFromCharacterized(policy, outcomes, 0);
  }

  /** The characterization leaves no choice, so it specifies the policy completely. */
  lemma CharacterizationUnique<R>(policy: RetryPolicy, outcomes: seq<Outcome<R>>, e: Execution<R>, f: Execution<R>)
    requires Characterizes(policy, outcomes, e) && Characterizes(policy, outcomes, f)
    ensures e == f
  {
    assert e.attempts == f.attempts;
    assert e.waits == f.waits;
  }

  /** A returned result ends the execution at once, whatever it is. */
  lemma ReturnedNeverRetried<R>(policy: RetryPolicy, outcomes: seq<Outcome<R>>)
    requires policy.retryCount < |outcomes| && outcomes[0].Returned?
    ensures Execute(policy, outcomes) == Execution(outcomes[0], 1, [])
  {
  }

  /** An exception the policy does not handle propagates from the attempt that threw it. */
  lemma UnhandledPropagates<R>(policy: RetryPolicy, outcomes: seq<Outcome<R>>)
    requires policy.retryCount < |outcomes|
    requires outcomes[0].Threw? && !policy.handles(outcomes[0].exception)
    ensures Execute(policy, outcomes) == Execution(outcomes[0], 1, [])
  {
  }

  /** When every allowed attempt throws a handled exception, the last one propagates. */
  lemma {:induction false} ExhaustedPropagatesLast<R>(policy: RetryPolicy, outcomes: seq<Outcome<R>>)
    requires policy.retryCount < |outcomes|
    requires forall i :: 0 <= i <= policy.retryCount ==> Retries(policy, outcomes[i])
    ensures Execute(policy, outcomes).attempts == policy.retryCount + 1
    ensures Execute(policy, outcomes).outcome == outcomes[policy.retryCount]
  {
    ExecuteCharacterized(policy, outcomes);
  }

  /** One retry moves a wait from the rest of the execution to the waits already made. */
  lemma ExecuteFromRetry<R>(policy: RetryPolicy, outcomes: seq<Outcome<R>>, k: nat, done: seq<nat>)
    requires k < policy.retryCount < |outcomes| && Retries(policy, outcomes[k])
    ensures var now, later := ExecuteFrom(policy, outcomes, k), ExecuteFrom(policy, outcomes, k + 1);
      && now.outcome == later.outcome && now.attempts == later.attempts
      && done + now.waits == (done + [policy.sleepDuration(k + 1)]) + later.waits
  {
  }

  /**
   * The loop Polly runs: attempt, and while the attempt threw a handled exception
   * and retries are left, wait and attempt again.
   */
  method ExecuteAsync<R>(policy: RetryPolicy, outcomes: seq<Outcome<R>>)
    returns (outcome: Outcome<R>, attempts: nat, waits: seq<nat>)
    requires policy.retryCount < |outcomes|
    ensures Execution(outcome, attempts, waits) == Execute(policy, outcomes)
    ensures Characterizes(policy, outcomes, Execution(outcome, attempts, waits))
  {
    var retry: nat := 0;
    outcome := outcomes[0];
    waits := [];
    while Retries(policy, outcome) && retry < policy.retryCount
      invariant retry <= policy.retryCount
      invariant outcome == outcomes[retry]
      invariant |waits| == retry
      invariant Execute(policy, outcomes).outcome == ExecuteFrom(policy, outcomes, retry).outcome
      invariant Execute(policy, outcomes).attempts == ExecuteFrom(policy, outcomes, retry).attempts
      invariant Execute(policy, outcomes).waits == waits + ExecuteFrom(policy, outcomes, retry).waits
      decreases policy.retryCount - retry
    {
      ExecuteFromRetry(policy, outcomes, retry, waits);
      retry := retry + 1;
      waits := waits + [policy.sleepDuration(retry)];
      outcome := outcomes[retry];
    }
    attempts := retry + 1;
    ExecuteCharacterized(policy, outcomes);
  }
}
