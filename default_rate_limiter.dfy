/** The adaptive per-bucket rate limiter (src/RateLimiter/DefaultRateLimiter.ts).

    A Bucket keeps the times of the recent 429 responses, a backoff wait
    time that steps up or down by `increment` within [minWait, maxWait], and
    a reset deadline. On every response or error it drops the timestamps
    outside a trailing window, adjusts the wait time, reads the
    x-ratelimit-* headers and, when no requests remain or the response is a
    429, sets the deadline that `wait` then sleeps until. The limiter keeps
    one bucket per name, created the first time the name is used.

    The state changes are given twice: as functions on BucketState values
    (the specification, about which the properties are proved) and as the
    classes Bucket and DefaultRateLimiter, whose methods update their fields
    as the source does and are proved to follow those functions. */
module DefaultRateLimiter {
  import opened Wrappers
  import opened Numerals
  import opened EcmaScript
  import opened RateLimiter

  // ---------------------------------------------------------------------
  // Options

  /** Required<RateLimiterOptions>: every option set. */
  datatype Options = Options(
    debug: bool,
    errorWindowBase: int,
    initialWaitTime: int,
    minWait: int,
    maxWait: int,
    increment: int,
    increaseThreshold: int,
    decreaseThreshold: int)

  /** DEFAULT_OPTIONS. */
  const DefaultOptions: Options := Options(false, 5, 1000, 1000, 3000, 500, 3, 0)

  /** RateLimiterOptions as a caller passes them: any key may be missing. */
  datatype PartialOptions = PartialOptions(
    debug: Option<bool>,
    errorWindowBase: Option<int>,
    initialWaitTime: Option<int>,
    minWait: Option<int>,
    maxWait: Option<int>,
    increment: Option<int>,
    increaseThreshold: Option<int>,
    decreaseThreshold: Option<int>)

  /** The options `{}`. */
  const NoOptions: PartialOptions := PartialOptions(None, None, None, None, None, None, None, None)

  /** `{ ...DEFAULT_OPTIONS, ...options }`: each given key overrides its
      default. */
  function Resolve(p: PartialOptions): Options {
    Options(
      p.debug.GetOr(DefaultOptions.debug),
      p.errorWindowBase.GetOr(DefaultOptions.errorWindowBase),
      p.initialWaitTime.GetOr(DefaultOptions.initialWaitTime),
      p.minWait.GetOr(DefaultOptions.minWait),
      p.maxWait.GetOr(DefaultOptions.maxWait),
      p.increment.GetOr(DefaultOptions.increment),
      p.increaseThreshold.GetOr(DefaultOptions.increaseThreshold),
      p.decreaseThreshold.GetOr(DefaultOptions.decreaseThreshold))
  }

  /** Complete options passed on as RateLimiterOptions, as the limiter
      passes its own options to each new bucket. */
  function Complete(o: Options): PartialOptions {
    PartialOptions(
      Some(o.debug), Some(o.errorWindowBase), Some(o.initialWaitTime), Some(o.minWait),
      Some(o.maxWait), Some(o.increment), Some(o.increaseThreshold), Some(o.decreaseThreshold))
  }

  /** The length of the trailing error window. The comment on the options
      speaks of errorWindowBase * waitTime; the filter uses minWait. */
  function Window(o: Options): int {
    o.errorWindowBase * o.minWait
  }

  /** Math.min and Math.max on integers. */
  function Min(a: int, b: int): (m: int)
    ensures m <= a && m <= b && (m == a || m == b)
  {
    if a <= b then a else b
  }

  function Max(a: int, b: int): (m: int)
    ensures m >= a && m >= b && (m == a || m == b)
  {
    if a >= b then a else b
  }

  // ---------------------------------------------------------------------
  // The state of a bucket and its transitions

  datatype BucketState = BucketState(errorTimestamps: seq<int>, waitTime: int, resetTimestamp: int)

  /** A new bucket: no errors, the initial wait time, no deadline. */
  function Initial(o: Options): BucketState {
    BucketState([], o.initialWaitTime, 0)
  }

  /** `ts.filter((v) => v > cutoff)`. */
  function KeepAfter(ts: seq<int>, cutoff: int): (kept: seq<int>)
    ensures |kept| <= |ts|
    ensures forall i | 0 <= i < |kept| :: kept[i] > cutoff
  {
    if ts == [] then []
    else (if ts[0] > cutoff then [ts[0]] else []) + KeepAfter(ts[1..], cutoff)
  }

  /** The step rule of adjustWaitTime, given the number of errors in the
      window: up by `increment` (to at most maxWait) when the errors reach
      increaseThreshold, else down by `increment` (to at least minWait) when
      they are at most decreaseThreshold. */
  function NextWaitTime(o: Options, waitTime: int, errors: nat): int {
    if errors >= o.increaseThreshold && waitTime != o.maxWait then
      Min(waitTime + o.increment, o.maxWait)
    else if errors <= o.decreaseThreshold && waitTime != o.minWait then
      Max(waitTime - o.increment, o.minWait)
    else
      waitTime
  }

  /** adjustWaitTime at time `now`. */
  function Adjusted(o: Options, st: BucketState, now: int): BucketState {
    var kept := KeepAfter(st.errorTimestamps, now - Window(o));
    st.(errorTimestamps := kept, waitTime := NextWaitTime(o, st.waitTime, |kept|))
  }

  /** The numbers parseHeaders found; None is a missing key. */
  datatype ParsedHeaders = ParsedHeaders(limit: Option<int>, remaining: Option<int>, reset: Option<int>)

  const LimitHeader: string := "x-ratelimit-limit"
  const RemainingHeader: string := "x-ratelimit-remaining"
  const ResetHeader: string := "x-ratelimit-reset"

  /** parseInt of a header's value; a missing header and a value parseInt
      cannot read (NaN) are both None. */
  function HeaderValue(headers: map<string, string>, key: string): Option<int> {
    if key in headers then ParseInt(headers[key], 0) else None
  }

  /** parseHeaders. A Response always has a headers object, so its two
      `return null` branches are never taken. */
  function ParseHeaders(headers: map<string, string>): ParsedHeaders {
    ParsedHeaders(
      HeaderValue(headers, LimitHeader),
      HeaderValue(headers, RemainingHeader),
      HeaderValue(headers, ResetHeader))
  }

  /** isRateLimitError. */
  predicate IsRateLimitError(r: Response) {
    r.status == 429
  }

  /** Whether handleResult sets a deadline: no requests remain, or the
      response is a 429. */
  predicate ResetApplies(p: ParsedHeaders, r: Response) {
    (p.remaining.Some? && p.remaining.value < 1) || IsRateLimitError(r)
  }

  /** resetMs: until the reset time the API announced (a number of
      seconds), but at least the wait time; just the wait time when no
      reset (or 0) was announced. */
  function ResetDelay(p: ParsedHeaders, waitTime: int, now: int): int {
    if p.reset.Some? && p.reset.value != 0 then Max(p.reset.value * 1000 - now, waitTime) else waitTime
  }

  /** handleResult at time `now`. */
  function AfterResult(o: Options, st: BucketState, r: Response, now: int): BucketState {
    var a := Adjusted(o, st, now);
    var p := ParseHeaders(r.headers);
    if ResetApplies(p, r) then a.(resetTimestamp := now + ResetDelay(p, a.waitTime, now)) else a
  }

  /** handleError at time `now`: the new state and the answer. */
  function AfterError(o: Options, st: BucketState, e: ErrorValue, now: int): (BucketState, bool) {
    match e
    case Other => (st, false)
    case Resp(r) =>
      var pushed := if IsRateLimitError(r) then st.(errorTimestamps := st.errorTimestamps + [now]) else st;
      (AfterResult(o, pushed, r, now), IsRateLimitError(r))
  }

  /** The delay wait passes to `setTimeout` at time `now`: until the
      deadline, or none when it has passed. */
  function WaitDelay(st: BucketState, now: int): (delay: int)
    ensures delay >= 0 && now + delay >= st.resetTimestamp
    ensures delay > 0 ==> now + delay == st.resetTimestamp
  {
    var waitTime := st.resetTimestamp - now;
    if waitTime <= 0 then 0 else waitTime
  }

  /** One call of the contract on a bucket in state `st`. */
  function BucketStep(o: Options, st: BucketState, c: Call): (BucketState, Outcome) {
    match c
    case HandleResponse(_, r, now) => (AfterResult(o, st, r, now), Done)
    case HandleError(_, e, now) =>
      var after := AfterError(o, st, e, now);
      (after.0, Handled(after.1))
    case Wait(_, now) => (st, Delayed(WaitDelay(st, now)))
  }

  /** The state of a bucket after a sequence of calls on it. */
  function BucketRun(o: Options, st: BucketState, calls: seq<Call>): BucketState
    decreases |calls|
  {
    if calls == [] then st else BucketRun(o, BucketStep(o, st, calls[0]).0, calls[1..])
  }

  /** The state of the bucket `name` in the limiter: a bucket not created
      yet behaves as a new one. */
  function StateOf(o: Options, states: map<string, BucketState>, name: string): BucketState {
    if name in states then states[name] else Initial(o)
  }

  /** One call on the limiter: getBucket, then the call on that bucket. */
  function LimiterStep(o: Options, states: map<string, BucketState>, c: Call): (map<string, BucketState>, Outcome) {
    var step := BucketStep(o, StateOf(o, states, c.bucket), c);
    (states[c.bucket := step.0], step.1)
  }

  /** The buckets of the limiter after a sequence of calls. */
  function LimiterRun(o: Options, states: map<string, BucketState>, calls: seq<Call>): map<string, BucketState>
    decreases |calls|
  {
    if calls == [] then states else LimiterRun(o, LimiterStep(o, states, calls[0]).0, calls[1..])
  }

  /** The calls on one bucket, in order. */
  function OnBucket(calls: seq<Call>, name: string): (mine: seq<Call>)
    ensures |mine| <= |calls|
    ensures forall i | 0 <= i < |mine| :: mine[i].bucket == name
  {
    if calls == [] then []
    else (if calls[0].bucket == name then [calls[0]] else []) + OnBucket(calls[1..], name)
  }

  // ---------------------------------------------------------------------
  // The classes

  class Bucket {
    const name: string
    const options: Options
    /** The times of the 429 responses in the window, oldest first. */
    var errorTimestamps: seq<int>
    /** The deadline before which no request should be made. */
    var resetTimestamp: int
    /** The current backoff. */
    var waitTime: int

    function State(): BucketState
      reads this
    {
      BucketState(errorTimestamps, waitTime, resetTimestamp)
    }

    constructor(name: string, options: PartialOptions)
      ensures this.name == name && this.options == Resolve(options)
      ensures State() == Initial(this.options)
    {
      this.name := name;
      this.options := Resolve(options);
      waitTime := Resolve(options).initialWaitTime;
      errorTimestamps := [];
      resetTimestamp := 0;
    }

    method AdjustWaitTime(now: int)
      modifies this
      ensures State() == Adjusted(options, old(State()), now)
    {
      errorTimestamps := KeepAfter(errorTimestamps, now - options.errorWindowBase * options.minWait);
      if |errorTimestamps| >= options.increaseThreshold && waitTime != options.maxWait {
        waitTime := Min(waitTime + options.increment, options.maxWait);
      } else if |errorTimestamps| <= options.decreaseThreshold && waitTime != options.minWait {
        waitTime := Max(waitTime - options.increment, options.minWait);
      }
    }

    method HandleResult(res: Response, now: int)
      modifies this
      ensures State() == AfterResult(options, old(State()), res, now)
    {
      AdjustWaitTime(now);
      var headers := ParseHeaders(res.headers);
      if ResetApplies(headers, res) {
        var resetMs := ResetDelay(headers, waitTime, now);
        resetTimestamp := now + resetMs;
      }
    }

    method HandleError(error: ErrorValue, now: int) returns (handled: bool)
      modifies this
      ensures (State(), handled) == AfterError(options, old(State()), error, now)
    {
      match error
      case Other =>
        handled := false;
      case Resp(res) =>
        if IsRateLimitError(res) {
          errorTimestamps := errorTimestamps + [now];
        }
        HandleResult(res, now);
        handled := IsRateLimitError(res);
    }

    method HandleResponse(res: Response, now: int)
      modifies this
      ensures State() == AfterResult(options, old(State()), res, now)
    {
      HandleResult(res, now);
    }

    /** The delay wait passes to `setTimeout`: until the deadline, and
        none (no timer at all) when it has passed. */
    method Wait(now: int) returns (delay: int)
      ensures delay >= 0 && now + delay >= resetTimestamp
      ensures delay > 0 ==> now + delay == resetTimestamp
    {
      var waitTime := resetTimestamp - now;
      if waitTime <= 0 {
        return 0;
      }
      return waitTime;
    }
  }

  class DefaultRateLimiter {
    const options: Options
    var buckets: map<string, Bucket>

    /** Each bucket is stored under its own name and has the limiter's
        options; so different names hold different buckets. */
    ghost predicate Valid()
      reads this, buckets.Values
    {
      forall n | n in buckets :: buckets[n].name == n && buckets[n].options == options
    }

    /** The states of the buckets, by name. */
    function States(): map<string, BucketState>
      reads this, buckets.Values
    {
      map n | n in buckets :: buckets[n].State()
    }

    constructor(options: PartialOptions)
      ensures this.options == Resolve(options) && buckets == map[]
      ensures Valid()
    {
      this.options := Resolve(options);
      buckets := map[];
    }

    method GetBucket(name: string) returns (b: Bucket)
      requires Valid()
      modifies this
      ensures Valid()
      ensures name in buckets && b == buckets[name]
      ensures name in old(buckets) ==> buckets == old(buckets)
      ensures name !in old(buckets) ==> fresh(b) && buckets == old(buckets)[name := b]
      ensures States() == old(States())[name := StateOf(options, old(States()), name)]
    {
      if name !in buckets {
        ResolveComplete(options);
        var created := new Bucket(name, Complete(options));
        buckets := buckets[name := created];
        assert forall n | n in old(buckets) :: buckets[n] == old(buckets)[n];
      }
      b := buckets[name];
    }

    method HandleError(bucket: string, error: ErrorValue, now: int) returns (handled: bool)
      requires Valid()
      modifies this, buckets.Values
      ensures Valid()
      ensures (States(), Handled(handled)) == LimiterStep(options, old(States()), Call.HandleError(bucket, error, now))
    {
      var b := GetBucket(bucket);
      ghost var before := StateOf(options, old(States()), bucket);
      assert b.State() == States()[bucket] == before;
      label Got:
      handled := b.HandleError(error, now);
      OneBucketChanged@Got(bucket);
      UpdateTwice(old(States()), bucket, before, b.State());
      LimiterHandleError(options, old(States()), bucket, error, now);
    }

    method HandleResponse(bucket: string, res: Response, now: int)
      requires Valid()
      modifies this, buckets.Values
      ensures Valid()
      ensures (States(), Done) == LimiterStep(options, old(States()), Call.HandleResponse(bucket, res, now))
    {
      var b := GetBucket(bucket);
      ghost var before := StateOf(options, old(States()), bucket);
      assert b.State() == States()[bucket] == before;
      label Got:
      b.HandleResponse(res, now);
      OneBucketChanged@Got(bucket);
      UpdateTwice(old(States()), bucket, before, b.State());
    }

    /** When only the bucket under `name` has changed, the states change at
        that name only, and the limiter stays valid. */
    twostate lemma OneBucketChanged(name: string)
      requires old(Valid()) && name in old(buckets)
      requires unchanged(this)
      requires forall n | n in buckets && n != name :: unchanged(buckets[n])
      requires buckets[name].name == name && buckets[name].options == options
      ensures Valid()
      ensures States() == old(States())[name := buckets[name].State()]
    {
      forall n | n in buckets && n != name
        ensures States()[n] == old(States())[n]
      {
      }
    }

    method Wait(bucket: string, now: int) returns (delay: int)
      requires Valid()
      modifies this
      ensures Valid()
      ensures (States(), Delayed(delay)) == LimiterStep(options, old(States()), Call.Wait(bucket, now))
    {
      var b := GetBucket(bucket);
      assert bucket in States();
      assert States()[bucket] == b.State();
      assert States()[bucket] == StateOf(options, old(States()), bucket);
      delay := b.Wait(now);
      assert delay == WaitDelay(b.State(), now);
    }
  }

  /** A handleError on the limiter is handleError on the named bucket. */
  lemma LimiterHandleError(o: Options, states: map<string, BucketState>, bucket: string, e: ErrorValue, now: int)
    ensures var after := AfterError(o, StateOf(o, states, bucket), e, now);
      LimiterStep(o, states, Call.HandleError(bucket, e, now)) == (states[bucket := after.0], Handled(after.1))
  {
  }

  /** Updating a key twice keeps the second value. */
  lemma UpdateTwice(m: map<string, BucketState>, k: string, x: BucketState, y: BucketState)
    ensures m[k := x][k := y] == m[k := y]
  {
  }

  // ---------------------------------------------------------------------
  // Properties of the options

  /** Resolving complete options gives them back, so a bucket created by
      the limiter has exactly the limiter's options. */
  lemma ResolveComplete(o: Options)
    ensures Resolve(Complete(o)) == o
  {
  }

  /** `{}` resolves to the defaults. */
  lemma ResolveNoOptions()
    ensures Resolve(NoOptions) == DefaultOptions
  {
  }

  // ---------------------------------------------------------------------
  // Properties of the window

  /** The kept timestamps are exactly those after the cutoff, each as
      often as before... */
  lemma {:induction false} KeepAfterCount(ts: seq<int>, cutoff: int, v: int)
    ensures multiset(KeepAfter(ts, cutoff))[v] == if v > cutoff then multiset(ts)[v] else 0
  {
    if ts != [] {
      KeepAfterCount(ts[1..], cutoff, v);
      assert ts == [ts[0]] + ts[1..];
      assert multiset(ts) == multiset([ts[0]]) + multiset(ts[1..]);
    }
  }

  /** ...in their original order: filtering a concatenation filters each
      part... */
  lemma {:induction false} KeepAfterAppend(a: seq<int>, b: seq<int>, cutoff: int)
    ensures KeepAfter(a + b, cutoff) == KeepAfter(a, cutoff) + KeepAfter(b, cutoff)
  {
    if a == [] {
      assert a + b == b;
    } else {
      assert (a + b)[1..] == a[1..] + b;
      KeepAfterAppend(a[1..], b, cutoff);
    }
  }

  /** ...and timestamps all inside the window are kept as they are, so
      filtering twice is filtering once. */
  lemma {:induction false} KeepAfterAllInside(ts: seq<int>, cutoff: int)
    requires forall i | 0 <= i < |ts| :: ts[i] > cutoff
    ensures KeepAfter(ts, cutoff) == ts
  {
    if ts != [] {
      KeepAfterAllInside(ts[1..], cutoff);
      assert [ts[0]] + ts[1..] == ts;
    }
  }

  /** Timestamps all outside the window are all dropped. */
  lemma {:induction false} KeepAfterAllOutside(ts: seq<int>, cutoff: int)
    requires forall i | 0 <= i < |ts| :: ts[i] <= cutoff
    ensures KeepAfter(ts, cutoff) == []
  {
    if ts != [] {
      KeepAfterAllOutside(ts[1..], cutoff);
    }
  }

  // ---------------------------------------------------------------------
  // Properties of the wait time

  predicate InBounds(o: Options, waitTime: int) {
    o.minWait <= waitTime <= o.maxWait
  }

  /** One step of the rule keeps a wait time inside [minWait, maxWait] when
      the increment is not negative. */
  lemma NextWaitTimeInBounds(o: Options, waitTime: int, errors: nat)
    requires InBounds(o, waitTime) && o.increment >= 0
    ensures InBounds(o, NextWaitTime(o, waitTime, errors))
  {
  }

  /** Every call keeps the wait time inside the bounds. */
  lemma StepInBounds(o: Options, st: BucketState, c: Call)
    requires InBounds(o, st.waitTime) && o.increment >= 0
    ensures InBounds(o, BucketStep(o, st, c).0.waitTime)
  {
    match c
    case HandleResponse(_, r, now) =>
      NextWaitTimeInBounds(o, st.waitTime, |Adjusted(o, st, now).errorTimestamps|);
    case HandleError(_, e, now) =>
      NextWaitTimeInBounds(o, st.waitTime, |KeepAfter(st.errorTimestamps + [now], now - Window(o))|);
      NextWaitTimeInBounds(o, st.waitTime, |KeepAfter(st.errorTimestamps, now - Window(o))|);
    case Wait(_, _) =>
  }

  /** The wait time stays inside [minWait, maxWait] across any sequence of
      responses, errors and waits. */
  lemma {:induction false} RunInBounds(o: Options, st: BucketState, calls: seq<Call>)
    requires InBounds(o, st.waitTime) && o.increment >= 0
    ensures InBounds(o, BucketRun(o, st, calls).waitTime)
    decreases |calls|
  {
    if calls != [] {
      StepInBounds(o, st, calls[0]);
      RunInBounds(o, BucketStep(o, st, calls[0]).0, calls[1..]);
    }
  }

  /** So a bucket whose initial wait time lies within the bounds never
      leaves them. */
  lemma NewBucketStaysInBounds(o: Options, calls: seq<Call>)
    requires o.minWait <= o.initialWaitTime <= o.maxWait && o.increment >= 0
    ensures InBounds(o, BucketRun(o, Initial(o), calls).waitTime)
  {
    RunInBounds(o, Initial(o), calls);
  }

  // ---------------------------------------------------------------------
  // Properties of the headers and the deadline

  /** A header value parseInt cannot read counts as a missing header. */
  lemma UnreadableHeaderIsMissing(headers: map<string, string>, key: string)
    requires key in headers && ParseInt(headers[key], 0) == None
    ensures ParseHeaders(headers) == ParseHeaders(headers - {key})
  {
    HeaderValueWithout(headers, key, LimitHeader);
    HeaderValueWithout(headers, key, RemainingHeader);
    HeaderValueWithout(headers, key, ResetHeader);
  }

  lemma HeaderValueWithout(headers: map<string, string>, key: string, k: string)
    requires key in headers && ParseInt(headers[key], 0) == None
    ensures HeaderValue(headers, k) == HeaderValue(headers - {key}, k)
  {
    if k != key && k in headers {
      assert k in headers - {key} && (headers - {key})[k] == headers[k];
    }
  }

  /** A header holding the numeral of a natural number is read as that
      number. */
  lemma NumeralHeader(headers: map<string, string>, key: string, n: nat)
    requires key in headers && headers[key] == NatToDecimal(n)
    ensures HeaderValue(headers, key) == Some(n)
  {
    ParseIntOfDecimal(n);
  }

  /** handleResult keeps the adjusted timestamps and wait time; it moves
      the deadline to the announced reset time, but no earlier than the
      wait time from now, exactly when no requests remain or the response
      is a 429, and leaves it alone otherwise. */
  lemma ResultDeadline(o: Options, st: BucketState, r: Response, now: int)
    ensures var s, a, p := AfterResult(o, st, r, now), Adjusted(o, st, now), ParseHeaders(r.headers);
      s.errorTimestamps == a.errorTimestamps && s.waitTime == a.waitTime
      && (ResetApplies(p, r) && p.reset.Some? && p.reset.value != 0 ==>
            s.resetTimestamp == Max(p.reset.value * 1000, now + a.waitTime))
      && (ResetApplies(p, r) && (p.reset.None? || p.reset.value == 0) ==>
            s.resetTimestamp == now + a.waitTime)
      && (!ResetApplies(p, r) ==> s.resetTimestamp == st.resetTimestamp)
  {
  }

  /** Once a deadline is set, wait delays at least the wait time. */
  lemma DeadlineDelaysWait(o: Options, st: BucketState, r: Response, now: int)
    requires ResetApplies(ParseHeaders(r.headers), r)
    ensures WaitDelay(AfterResult(o, st, r, now), now) >= Adjusted(o, st, now).waitTime
  {
    ResultDeadline(o, st, r, now);
  }

  /** A response announcing no remaining requests and a reset at second
      `k` makes wait delay at least until k * 1000 milliseconds. */
  lemma ResetHeaderRespected(o: Options, st: BucketState, r: Response, now: int, k: nat)
    requires RemainingHeader in r.headers && r.headers[RemainingHeader] == "0"
    requires ResetHeader in r.headers && r.headers[ResetHeader] == NatToDecimal(k) && k != 0
    ensures now + WaitDelay(AfterResult(o, st, r, now), now) >= k * 1000
  {
    ZeroRemaining(r.headers);
    NumeralHeader(r.headers, ResetHeader, k);
    ResultDeadline(o, st, r, now);
  }

  lemma ZeroRemaining(headers: map<string, string>)
    requires RemainingHeader in headers && headers[RemainingHeader] == "0"
    ensures HeaderValue(headers, RemainingHeader) == Some(0)
  {
    assert NatToDecimal(0) == "0";
    NumeralHeader(headers, RemainingHeader, 0);
  }

  // ---------------------------------------------------------------------
  // Properties of handleError and wait

  /** handleError answers true exactly for a 429 Response. Anything but a
      Response changes nothing; any other Response goes through
      handleResult unchanged; a 429 first records `now`. */
  lemma ErrorHandling(o: Options, st: BucketState, e: ErrorValue, now: int)
    ensures AfterError(o, st, e, now).1 <==> e.Resp? && e.response.status == 429
    ensures e.Other? ==> AfterError(o, st, e, now).0 == st
    ensures e.Resp? && e.response.status != 429 ==>
      AfterError(o, st, e, now).0 == AfterResult(o, st, e.response, now)
    ensures e.Resp? && e.response.status == 429 ==>
      AfterError(o, st, e, now).0
        == AfterResult(o, st.(errorTimestamps := st.errorTimestamps + [now]), e.response, now)
  {
  }

  /** After a 429 the window holds the earlier timestamps and `now`, those
      after the cutoff, and the wait time takes one step by their number. */
  lemma RateLimitErrorFields(o: Options, st: BucketState, r: Response, now: int)
    requires r.status == 429
    ensures var kept := KeepAfter(st.errorTimestamps + [now], now - Window(o));
      var s := AfterError(o, st, Resp(r), now).0;
      s.errorTimestamps == kept && s.waitTime == NextWaitTime(o, st.waitTime, |kept|)
  {
  }

  /** With a positive window the recorded 429 is kept, after the earlier
      timestamps still inside the window. */
  lemma RecordedErrorKept(o: Options, st: BucketState, r: Response, now: int)
    requires r.status == 429 && Window(o) > 0
    ensures AfterError(o, st, Resp(r), now).0.errorTimestamps
      == KeepAfter(st.errorTimestamps, now - Window(o)) + [now]
  {
    KeepAfterAppend(st.errorTimestamps, [now], now - Window(o));
    assert KeepAfter([now], now - Window(o)) == [now];
  }

  /** A new bucket does not delay a request made at or after time 0. */
  lemma NewBucketDoesNotWait(o: Options, now: int)
    requires now >= 0
    ensures WaitDelay(Initial(o), now) == 0
  {
  }

  // ---------------------------------------------------------------------
  // Properties of the limiter

  /** Calls on other buckets neither create nor change the bucket `name`. */
  lemma {:induction false} OtherBucketsUnchanged(o: Options, states: map<string, BucketState>, calls: seq<Call>, name: string)
    requires forall i | 0 <= i < |calls| :: calls[i].bucket != name
    ensures name in LimiterRun(o, states, calls) <==> name in states
    ensures name in states ==> LimiterRun(o, states, calls)[name] == states[name]
    decreases |calls|
  {
    if calls != [] {
      OtherBucketsUnchanged(o, LimiterStep(o, states, calls[0]).0, calls[1..], name);
    }
  }

  /** Each bucket of the limiter evolves as a bucket on its own that sees
      only the calls made on its name. */
  lemma {:induction false} BucketsIndependent(o: Options, states: map<string, BucketState>, calls: seq<Call>, name: string)
    ensures StateOf(o, LimiterRun(o, states, calls), name) == BucketRun(o, StateOf(o, states, name), OnBucket(calls, name))
    decreases |calls|
  {
    if calls != [] {
      var c := calls[0];
      var next := LimiterStep(o, states, c).0;
      BucketsIndependent(o, next, calls[1..], name);
      if c.bucket == name {
        assert OnBucket(calls, name) == [c] + OnBucket(calls[1..], name);
        assert StateOf(o, next, name) == BucketStep(o, StateOf(o, states, name), c).0;
        assert ([c] + OnBucket(calls[1..], name))[1..] == OnBucket(calls[1..], name);
      } else {
        assert OnBucket(calls, name) == OnBucket(calls[1..], name);
        assert StateOf(o, next, name) == StateOf(o, states, name);
      }
    }
  }

  // ---------------------------------------------------------------------
  // The cases of the tests, stated on a bucket

  /** Three 429s within the window take the default wait time from 1000 to
      1500. */
  lemma ThreeRateLimitErrorsIncreaseWait(r: Response, t1: int, t2: int, t3: int)
    requires r.status == 429 && r.headers == map[]
    requires t1 <= t2 <= t3 < t1 + 5000
    ensures var o := DefaultOptions;
      var s1 := AfterError(o, Initial(o), Resp(r), t1).0;
      var s2 := AfterError(o, s1, Resp(r), t2).0;
      var s3 := AfterError(o, s2, Resp(r), t3).0;
      s1.waitTime == 1000 && s2.waitTime == 1000 && s3.waitTime == 1500
  {
    var o := DefaultOptions;
    assert Window(o) == 5000;
    var s1 := AfterError(o, Initial(o), Resp(r), t1).0;
    assert s1.errorTimestamps == [t1] && s1.waitTime == 1000 by {
      ErrorInsideWindow(o, Initial(o), r, t1);
    }
    var s2 := AfterError(o, s1, Resp(r), t2).0;
    assert s2.errorTimestamps == [t1, t2] && s2.waitTime == 1000 by {
      ErrorInsideWindow(o, s1, r, t2);
    }
    ErrorInsideWindow(o, s2, r, t3);
  }

  /** With errorWindowBase 5000 and initial wait 2000, errors at times 0,
      1 and 2 have left the window of a response at any time from
      5000002 on, and the wait time drops by one increment to 1500. */
  lemma QuietResponseDecreasesWait(r: Response, now: int)
    requires r.headers == map[] && r.status == 200
    requires now >= 5000002
    ensures var o := Resolve(NoOptions.(errorWindowBase := Some(5000), initialWaitTime := Some(2000)));
      AfterResult(o, BucketState([0, 1, 2], 2000, 0), r, now).waitTime == 1500
  {
    var o := Resolve(NoOptions.(errorWindowBase := Some(5000), initialWaitTime := Some(2000)));
    assert Window(o) == 5000000;
    KeepAfterAllOutside([0, 1, 2], now - 5000000);
  }

  /** With maxWait 3000, initial wait 2000 and increment 500 (the other
      options at their defaults, as Resolve gives them), five 429s within
      the window take the wait time to 2000, 2000, 2500, 3000 and then keep
      it at 3000. */
  lemma RateLimitErrorsStopAtMaxWait(o: Options, r: Response, t1: int, t2: int, t3: int, t4: int, t5: int)
    requires o == Resolve(NoOptions.(maxWait := Some(3000), initialWaitTime := Some(2000), increment := Some(500)))
    requires r.status == 429
    requires t1 <= t2 <= t3 <= t4 <= t5 < t1 + 5000
    ensures var s1 := AfterError(o, Initial(o), Resp(r), t1).0;
      var s2 := AfterError(o, s1, Resp(r), t2).0;
      var s3 := AfterError(o, s2, Resp(r), t3).0;
      var s4 := AfterError(o, s3, Resp(r), t4).0;
      var s5 := AfterError(o, s4, Resp(r), t5).0;
      s1.waitTime == 2000 && s2.waitTime == 2000 &&
      s3.waitTime == 2500 && s4.waitTime == 3000 && s5.waitTime == 3000
  {
    assert Window(o) == 5000 && o.initialWaitTime == 2000 && o.maxWait == 3000
      && o.increment == 500 && o.increaseThreshold == 3 && o.decreaseThreshold == 0;
    ErrorsUpToMaxWait(o, r, t1, t2, t3, t4, t5);
  }

  /** The steps of the example above, for any options with its window,
      initial wait, maximum, increment and thresholds. */
  lemma ErrorsUpToMaxWait(o: Options, r: Response, t1: int, t2: int, t3: int, t4: int, t5: int)
    requires Window(o) == 5000 && o.initialWaitTime == 2000 && o.maxWait == 3000
    requires o.increment == 500 && o.increaseThreshold == 3 && o.decreaseThreshold == 0
    requires r.status == 429
    requires t1 <= t2 <= t3 <= t4 <= t5 < t1 + 5000
    ensures var s1 := AfterError(o, Initial(o), Resp(r), t1).0;
      var s2 := AfterError(o, s1, Resp(r), t2).0;
      var s3 := AfterError(o, s2, Resp(r), t3).0;
      var s4 := AfterError(o, s3, Resp(r), t4).0;
      var s5 := AfterError(o, s4, Resp(r), t5).0;
      s1.waitTime == 2000 && s2.waitTime == 2000 &&
      s3.waitTime == 2500 && s4.waitTime == 3000 && s5.waitTime == 3000
  {
    var s1 := AfterError(o, Initial(o), Resp(r), t1).0;
    assert s1.errorTimestamps == [t1] && s1.waitTime == 2000 by {
      ErrorInsideWindow(o, Initial(o), r, t1);
    }
    var s2 := AfterError(o, s1, Resp(r), t2).0;
    assert s2.errorTimestamps == [t1, t2] && s2.waitTime == 2000 by {
      ErrorInsideWindow(o, s1, r, t2);
    }
    var s3 := AfterError(o, s2, Resp(r), t3).0;
    assert s3.errorTimestamps == [t1, t2, t3] && s3.waitTime == 2500 by {
      ErrorInsideWindow(o, s2, r, t3);
    }
    var s4 := AfterError(o, s3, Resp(r), t4).0;
    assert s4.errorTimestamps == [t1, t2, t3, t4] && s4.waitTime == 3000 by {
      ErrorInsideWindow(o, s3, r, t4);
    }
    ErrorInsideWindow(o, s4, r, t5);
  }

  /** A 429 while every recorded error is still inside the window appends
      `now` and steps the wait time by the new number of errors. */
  lemma ErrorInsideWindow(o: Options, st: BucketState, r: Response, now: int)
    requires r.status == 429 && Window(o) > 0
    requires forall i | 0 <= i < |st.errorTimestamps| :: st.errorTimestamps[i] > now - Window(o)
    ensures var s := AfterError(o, st, Resp(r), now).0;
      s.errorTimestamps == st.errorTimestamps + [now]
      && s.waitTime == NextWaitTime(o, st.waitTime, |st.errorTimestamps| + 1)
  {
    RateLimitErrorFields(o, st, r, now);
    KeepAfterAllInside(st.errorTimestamps + [now], now - Window(o));
  }

  /** With minWait 1000, initial wait 2000 and increment 500, responses
      without errors take the wait time to 1500 and then 1000, where it
      stays. */
  lemma QuietResponsesStopAtMinWait(r: Response, t1: int, t2: int, t3: int)
    requires r.status == 200 && r.headers == map[]
    ensures var o := Resolve(NoOptions.(minWait := Some(1000), initialWaitTime := Some(2000), increment := Some(500)));
      var s1 := AfterResult(o, Initial(o), r, t1);
      var s2 := AfterResult(o, s1, r, t2);
      var s3 := AfterResult(o, s2, r, t3);
      s1.waitTime == 1500 && s2.waitTime == 1000 && s3.waitTime == 1000
  {
  }

  /** The reset time of a 429 is respected as that of a response. */
  lemma ResetHeaderRespectedOnError(o: Options, st: BucketState, r: Response, now: int, k: nat)
    requires r.status == 429
    requires RemainingHeader in r.headers && r.headers[RemainingHeader] == "0"
    requires ResetHeader in r.headers && r.headers[ResetHeader] == NatToDecimal(k) && k != 0
    ensures AfterError(o, st, Resp(r), now).1
    ensures now + WaitDelay(AfterError(o, st, Resp(r), now).0, now) >= k * 1000
  {
    ResetHeaderRespected(o, st.(errorTimestamps := st.errorTimestamps + [now]), r, now, k);
  }

  /** A 429 makes the next wait of a new default bucket last the 1000 ms
      wait time. */
  lemma RateLimitErrorDelaysWait(r: Response, now: int)
    requires r.status == 429 && r.headers == map[]
    ensures WaitDelay(AfterError(DefaultOptions, Initial(DefaultOptions), Resp(r), now).0, now) == 1000
  {
    var o := DefaultOptions;
    assert KeepAfter([now], now - Window(o)) == [now];
  }

  /** A 404 error announcing no remaining requests still sets a deadline:
      the next wait lasts at least the wait time, and the error is not
      handled. */
  lemma NoRemainingRequestsDelaysWait(o: Options, st: BucketState, r: Response, now: int)
    requires r.status == 404 && RemainingHeader in r.headers && r.headers[RemainingHeader] == "0"
    ensures !AfterError(o, st, Resp(r), now).1
    ensures WaitDelay(AfterError(o, st, Resp(r), now).0, now) >= Adjusted(o, st, now).waitTime
  {
    ZeroRemaining(r.headers);
    DeadlineDelaysWait(o, st, r, now);
  }
}
