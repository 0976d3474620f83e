/** The retry combinator the library wraps every storage call in
    (`backoff::future::retry`). Its timing policy is not modelled: the
    schedule lists the backend states the policy lets the operation see, one
    per attempt, and its length is how many attempts the policy allows. */
module Backoff {
  import opened Wrappers

  /** What one attempt reports: a value, or an error tagged transient (try
      again) or permanent (give up). */
  datatype Attempt<+T, +E> = Done(value: T) | Transient(error: E) | Permanent(error: E)

  /** The states seen by successive attempts; there is always a first one. */
  datatype Schedule<+S> = Schedule(first: S, retries: seq<S>) {
    function States(): (ss: seq<S>)
      ensures |ss| == 1 + |retries| && ss[0] == first && ss[1..] == retries
    {
      [first] + retries
    }

    /** The state seen by the last attempt the policy allows. */
    function Last(): (s: S)
      ensures s == States()[|States()| - 1]
    {
      if retries == [] then first else retries[|retries| - 1]
    }
  }

  /** The outcome of the retry loop and how many attempts it made. */
  datatype Retried<+T, +E> = Retried(result: Result<T, E>, calls: nat)

  /** Runs `op` on the states of `ss` from index `i` on, in order, until it
      succeeds, fails permanently, or the states run out; `calls` counts
      every attempt from index 0. */
  function RetryFrom<S, T, E>(op: S -> Attempt<T, E>, ss: seq<S>, i: nat): (r: Retried<T, E>)
    requires i < |ss|
    ensures i < r.calls <= |ss|
    ensures forall j :: i <= j < r.calls - 1 ==> op(ss[j]).Transient?
    ensures r.result.Ok? <==> op(ss[r.calls - 1]).Done?
    ensures r.result.Ok? ==> r.result.value == op(ss[r.calls - 1]).value
    ensures r.result.Err? ==> r.result.error == op(ss[r.calls - 1]).error
    ensures op(ss[r.calls - 1]).Transient? ==> r.calls == |ss|
    decreases |ss| - i
  {
    match op(ss[i])
    case Done(v) => Retried(Ok(v), i + 1)
    case Permanent(e) => Retried(Err(e), i + 1)
    case Transient(e) =>
      if i + 1 == |ss| then Retried(Err(e), i + 1)
      else RetryFrom(op, ss, i + 1)
  }

  /** `retry(policy, op)`. */
  function Retry<S, T, E>(op: S -> Attempt<T, E>, schedule: Schedule<S>): (r: Retried<T, E>)
    ensures 1 <= r.calls <= |schedule.States()|
    ensures forall j :: 0 <= j < r.calls - 1 ==> op(schedule.States()[j]).Transient?
    ensures r.result.Ok? <==> op(schedule.States()[r.calls - 1]).Done?
    ensures r.result.Ok? ==> r.result.value == op(schedule.States()[r.calls - 1]).value
    ensures r.result.Err? ==> r.result.error == op(schedule.States()[r.calls - 1]).error
    ensures op(schedule.States()[r.calls - 1]).Transient? ==> r.calls == |schedule.States()|
  {
    RetryFrom(op, schedule.States(), 0)
  }

  /** An operation that fails transiently `k` times and then succeeds
      returns its value after exactly `k + 1` attempts, if the policy allows
      that many. */
  lemma RetrySucceedsAfterTransients<S, T, E>(op: S -> Attempt<T, E>, schedule: Schedule<S>, k: nat, v: T)
    requires k < |schedule.States()|
    requires forall j :: 0 <= j < k ==> op(schedule.States()[j]).Transient?
    requires op(schedule.States()[k]) == Done(v)
    ensures Retry(op, schedule) == Retried(Ok(v), k + 1)
  {
  }

  /** When every allowed attempt fails transiently, every state is tried and
      the last error is returned. */
  lemma RetryExhausted<S, T, E>(op: S -> Attempt<T, E>, schedule: Schedule<S>)
    requires forall j :: 0 <= j < |schedule.States()| ==> op(schedule.States()[j]).Transient?
    ensures Retry(op, schedule).calls == |schedule.States()|
    ensures Retry(op, schedule).result == Err(op(schedule.States()[|schedule.States()| - 1]).error)
  {
  }

  /** A permanent failure after `k` transient ones stops the loop at once:
      its error is returned after exactly `k + 1` attempts, whatever the
      remaining states would give. */
  lemma RetryPermanentIsFinal<S, T, E>(op: S -> Attempt<T, E>, schedule: Schedule<S>, k: nat, e: E)
    requires k < |schedule.States()|
    requires forall j :: 0 <= j < k ==> op(schedule.States()[j]).Transient?
    requires op(schedule.States()[k]) == Permanent(e)
    ensures Retry(op, schedule) == Retried(Err(e), k + 1)
  {
  }

  /** For an operation that never fails permanently, the retry succeeds
      exactly when some allowed attempt succeeds, with the value of the first
      attempt that does;
      otherwise it returns the error of the last allowed attempt. */
  lemma RetryWithoutPermanent<S, T, E>(op: S -> Attempt<T, E>, schedule: Schedule<S>)
    requires forall j :: 0 <= j < |schedule.States()| ==> !op(schedule.States()[j]).Permanent?
    ensures Retry(op, schedule).result.Ok? <==>
              exists j :: 0 <= j < |schedule.States()| && op(schedule.States()[j]).Done?
    ensures Retry(op, schedule).result.Ok? ==>
              exists j :: 0 <= j < |schedule.States()| && op(schedule.States()[j]) == Done(Retry(op, schedule).result.value) &&
                          forall i :: 0 <= i < j ==> op(schedule.States()[i]).Transient?
    ensures Retry(op, schedule).result.Err? ==>
              Retry(op, schedule).result.error == op(schedule.Last()).error
  {
    var r := Retry(op, schedule);
    var ss := schedule.States();
    if r.result.Err? {
      assert op(ss[r.calls - 1]).Transient?;
      forall j | 0 <= j < |ss|
        ensures !op(ss[j]).Done?
      {
        if j < r.calls - 1 {
          assert op(ss[j]).Transient?;
        }
      }
    } else {
      assert op(ss[r.calls - 1]) == Done(r.result.value);
    }
  }
}
