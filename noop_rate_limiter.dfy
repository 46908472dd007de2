/** The rate limiter that does nothing (src/RateLimiter/NoOpRateLimiter.ts):
    it keeps no state, never handles an error and never delays. */
module NoOpRateLimiter {
  import opened RateLimiter

  /** The outcome of one call. */
  function Step(c: Call): (out: Outcome)
    ensures Answers(c, out)
  {
    match c
    case HandleResponse(_, _, _) => Done
    case HandleError(_, _, _) => Handled(false)
    case Wait(_, _) => Delayed(0)
  }

  /** The outcomes of a sequence of calls, in order. */
  function Run(calls: seq<Call>): (outs: seq<Outcome>)
    ensures |outs| == |calls|
  {
    if calls == [] then [] else [Step(calls[0])] + Run(calls[1..])
  }

  // ---------------------------------------------------------------------
  // Properties

  /** Every error is left to the caller, a 429 Response included, for every
      bucket; every wait completes at once; every response is a no-op. */
  lemma {:induction false} NeverHandlesNorDelays(calls: seq<Call>)
    ensures forall i | 0 <= i < |calls| :: Run(calls)[i] == Step(calls[i])
    ensures forall i | 0 <= i < |calls| ::
      Run(calls)[i] != Handled(true) && (Run(calls)[i].Delayed? ==> Run(calls)[i].ms == 0)
  {
    if calls != [] {
      NeverHandlesNorDelays(calls[1..]);
    }
  }

  /** There is no state: whatever calls came before, later calls give the
      same outcomes. */
  lemma {:induction false} HistoryIndependent(history: seq<Call>, calls: seq<Call>)
    ensures Run(history + calls) == Run(history) + Run(calls)
  {
    if history == [] {
      assert history + calls == calls;
    } else {
      assert (history + calls)[1..] == history[1..] + calls;
      HistoryIndependent(history[1..], calls);
    }
  }

  /** The cases of the tests: a 429 Response and an unrelated value are
      both answered false, and a wait takes no time. */
  lemma TestExamples(bucket: string, r: Response, now: int)
    requires r.status == 429
    ensures Step(HandleError(bucket, Resp(r), now)) == Handled(false)
    ensures Step(HandleError(bucket, Other, now)) == Handled(false)
    ensures Step(HandleResponse(bucket, r, now)) == Done
    ensures Step(Wait(bucket, now)) == Delayed(0)
  {
  }
}
