/** The Sigma exporter's check for the latest release: how long it waits on a
    rate limit, when it gives up on the check, and how it retries failed
    requests. The clock and the HTTP exchanges are inputs: each attempt is
    given with the response it got and the clock reading taken after it. */
module ReleaseCheck {
  import opened Wrappers

  /** The longest rate-limit wait, in seconds, the check accepts before skipping. */
  const MaxWait: nat := 300

  /** The decoded response body. */
  datatype Json =
    | Object(tagName: Option<string>)   // a JSON object, with or without `tag_name`
    | NotObject                         // any other JSON value: `.get` raises AttributeError

  /** The `X-RateLimit-Reset` header. */
  datatype ResetHeader =
    | NoReset                 // absent: read as 0
    | Reset(seconds: int)     // a number of epoch seconds
    | BadReset                // not an integer: `int(...)` raises ValueError

  /** `int(headers.get('X-RateLimit-Reset', 0))` for a header that parses. */
  function ResetSeconds(h: ResetHeader): int
    requires !h.BadReset?
  {
    if h.Reset? then h.seconds else 0
  }

  datatype Response = Response(
    status: int,
    remaining: Option<string>,   // the `X-RateLimit-Remaining` header
    reset: ResetHeader,
    body: Option<Json>)          // `None` when the body is not valid JSON

  /** One pass of the loop: the request either raised a `RequestException`
      (connection error, timeout, ...) or got a response. `now` is
      `int(time.time())` at the point the rate-limit branch reads it. */
  datatype Attempt = Attempt(response: Option<Response>, now: int)

  /** What one pass decides. */
  datatype Verdict =
    | Found(tag: string)    // return the tag
    | Skip                  // return "skipped"
    | Wait(seconds: nat)    // sleep, then try again without counting a retry
    | Fail                  // a RequestException: count a retry and back off
    | Crash                 // an exception the loop does not catch

  /** `wait_time`: the seconds until the reset, never negative, plus one. */
  function WaitTime(reset: int, now: int): (w: nat)
    ensures w >= 1
    ensures reset > now ==> w == reset - now + 1
    ensures reset <= now ==> w == 1
  {
    (if reset - now > 0 then reset - now else 0) + 1
  }

  /** A 403 whose remaining quota is exactly the string `0`. */
  predicate RateLimited(r: Response) {
    r.status == 403 && r.remaining == Some("0")
  }

  /** `raise_for_status` raises an `HTTPError` for client and server errors. */
  predicate ErrorStatus(status: int) {
    400 <= status < 600
  }

  /** The decision of one pass through the loop body. */
  function Classify(a: Attempt): (v: Verdict)
    ensures a.response.None? ==> v == Fail
    ensures v.Wait? ==> 1 <= v.seconds <= MaxWait
  {
    match a.response
    case None => Fail
    case Some(r) =>
      if RateLimited(r) then
        if r.reset.BadReset? then Crash
        else
          var w := WaitTime(ResetSeconds(r.reset), a.now);
          if w > MaxWait then Skip else Wait(w)
      else if ErrorStatus(r.status) then Fail
      else
        match r.body
        case None => Fail     // requests' JSONDecodeError is a RequestException
        case Some(NotObject) => Crash
        case Some(Object(tag)) => Found(tag.GetOr("unknown"))
  }

  /** A request that raised is a failure; a skip is exactly a rate limit
      whose wait is over five minutes, and a shorter one waits its wait time;
      a tag comes only from a successful, unlimited response, and such a
      response with a JSON object gives its `tag_name` or "unknown"; an
      error status or a body that is not JSON is a failure. */
  lemma ClassifyFacts(a: Attempt)
    ensures var v := Classify(a);
            && (a.response.None? ==> v == Fail)
            && (v.Skip? <==> a.response.Some? && RateLimited(a.response.value) && !a.response.value.reset.BadReset?
                             && WaitTime(ResetSeconds(a.response.value.reset), a.now) > MaxWait)
            && (v.Wait? ==> 1 <= v.seconds <= MaxWait)
            && (v.Wait? ==> a.response.Some? && v.seconds == WaitTime(ResetSeconds(a.response.value.reset), a.now))
            && (v.Found? ==> a.response.Some? && !RateLimited(a.response.value) && !ErrorStatus(a.response.value.status))
    ensures a.response.Some? ==>
              var r := a.response.value;
              && (RateLimited(r) && r.reset.BadReset? ==> Classify(a) == Crash)
              && ((RateLimited(r) && !r.reset.BadReset? && WaitTime(ResetSeconds(r.reset), a.now) <= MaxWait)
                  ==> Classify(a) == Wait(WaitTime(ResetSeconds(r.reset), a.now)))
              && (!RateLimited(r) && (ErrorStatus(r.status) || r.body.None?) ==> Classify(a) == Fail)
              && (!RateLimited(r) && !ErrorStatus(r.status) && r.body == Some(NotObject) ==> Classify(a) == Crash)
              && (forall tag: Option<string> | !RateLimited(r) && !ErrorStatus(r.status) && r.body == Some(Object(tag)) ::
                    Classify(a) == Found(tag.GetOr("unknown")))
  {
  }

  /** A missing reset header counts as the epoch start, so the wait is one
      second on any clock past it. */
  lemma MissingResetWaitsOneSecond(r: Response, now: int)
    requires RateLimited(r) && r.reset == NoReset && now >= 0
    ensures Classify(Attempt(Some(r), now)) == Wait(1)
  {
  }

  /** The check's result. */
  datatype Outcome =
    | Latest(tag: string)   // the release tag, or "unknown"
    | Skipped               // "skipped": the rate limit resets too late
    | Exhausted             // `sys.exit` after `max_retries` failures
    | Crashed               // an uncaught exception
    | OutOfScript           // the given attempts ran out before the loop ended

  /** An outcome, the sleeps taken before it in order, and the number of
      attempts made. */
  datatype Trace = Trace(outcome: Outcome, sleeps: seq<nat>, used: nat)

  function Pow2(k: nat): (p: nat)
    ensures p >= 1
  {
    if k == 0 then 1 else 2 * Pow2(k - 1)
  }

  /** The verdicts of a sequence of attempts. */
  function Verdicts(script: seq<Attempt>): (vs: seq<Verdict>)
    ensures |vs| == |script|
  {
    seq(|script|, i requires 0 <= i < |script| => Classify(script[i]))
  }

  /** Reference definition of the loop over the verdicts of its passes, from
      `retries` retries already counted. */
  function Loop(maxRetries: int, retries: nat, vs: seq<Verdict>): (t: Trace)
    ensures t.used <= |vs| && |t.sleeps| <= t.used
    ensures t.used == 0 <==> retries >= maxRetries || |vs| == 0
    decreases |vs|
  {
    if retries >= maxRetries then Trace(Exhausted, [], 0)
    else if |vs| == 0 then Trace(OutOfScript, [], 0)
    else
      match vs[0]
      case Found(tag) => Trace(Latest(tag), [], 1)
      case Skip => Trace(Skipped, [], 1)
      case Crash => Trace(Crashed, [], 1)
      case Wait(w) =>
        var t := Loop(maxRetries, retries, vs[1..]);
        Trace(t.outcome, [w] + t.sleeps, t.used + 1)
      case Fail =>
        var t := Loop(maxRetries, retries + 1, vs[1..]);
        Trace(t.outcome, [Pow2(retries + 1)] + t.sleeps, t.used + 1)
  }

  /** `check_for_latest_release`, attempt by attempt. */
  method CheckForLatestRelease(maxRetries: int, script: seq<Attempt>) returns (t: Trace)
    ensures t == Loop(maxRetries, 0, Verdicts(script))
  {
    var vs := Verdicts(script);
    var retries: nat := 0;
    var n := 0;
    var sleeps: seq<nat> := [];
    while retries < maxRetries && n < |script|
      invariant LoopInvariant(maxRetries, vs, retries, n, sleeps)
      decreases |script| - n
    {
      var v := vs[n];
      match v {
        case Found(tag) =>
          Returns(maxRetries, vs, retries, n, sleeps);
          return Trace(Latest(tag), sleeps, n + 1);
        case Skip =>
          Returns(maxRetries, vs, retries, n, sleeps);
          return Trace(Skipped, sleeps, n + 1);
        case Crash =>
          Returns(maxRetries, vs, retries, n, sleeps);
          return Trace(Crashed, sleeps, n + 1);
        case Wait(w) =>
          AdvanceWait(maxRetries, vs, retries, n, sleeps);
          sleeps := sleeps + [w];
        case Fail =>
          AdvanceFail(maxRetries, vs, retries, n, sleeps);
          retries := retries + 1;
          sleeps := sleeps + [Pow2(retries)];
      }
      n := n + 1;
    }
    Ends(maxRetries, vs, retries, n, sleeps);
    if retries >= maxRetries {
      t := Trace(Exhausted, sleeps, n);
    } else {
      t := Trace(OutOfScript, sleeps, n);
    }
  }

  /** After `n` passes with `retries` retries counted and `sleeps` slept, the
      rest of the loop completes the reference run. */
  ghost predicate LoopInvariant(maxRetries: int, vs: seq<Verdict>, retries: nat, n: nat, sleeps: seq<nat>) {
    && n <= |vs|
    && Loop(maxRetries, 0, vs) ==
         var rest := Loop(maxRetries, retries, vs[n..]);
         Trace(rest.outcome, sleeps + rest.sleeps, n + rest.used)
  }

  lemma AdvanceWait(maxRetries: int, vs: seq<Verdict>, retries: nat, n: nat, sleeps: seq<nat>)
    requires LoopInvariant(maxRetries, vs, retries, n, sleeps)
    requires retries < maxRetries && n < |vs| && vs[n].Wait?
    ensures LoopInvariant(maxRetries, vs, retries, n + 1, sleeps + [vs[n].seconds])
  {
    assert vs[n..][1..] == vs[n + 1..];
    LoopWait(maxRetries, retries, vs[n..]);
    var rest := Loop(maxRetries, retries, vs[n + 1..]);
    assert sleeps + ([vs[n].seconds] + rest.sleeps) == (sleeps + [vs[n].seconds]) + rest.sleeps;
  }

  lemma AdvanceFail(maxRetries: int, vs: seq<Verdict>, retries: nat, n: nat, sleeps: seq<nat>)
    requires LoopInvariant(maxRetries, vs, retries, n, sleeps)
    requires retries < maxRetries && n < |vs| && vs[n].Fail?
    ensures LoopInvariant(maxRetries, vs, retries + 1, n + 1, sleeps + [Pow2(retries + 1)])
  {
    assert vs[n..][1..] == vs[n + 1..];
    LoopFail(maxRetries, retries, vs[n..]);
    var rest := Loop(maxRetries, retries + 1, vs[n + 1..]);
    assert sleeps + ([Pow2(retries + 1)] + rest.sleeps) == (sleeps + [Pow2(retries + 1)]) + rest.sleeps;
  }

  /** A pass that returns ends the run with that pass. */
  lemma Returns(maxRetries: int, vs: seq<Verdict>, retries: nat, n: nat, sleeps: seq<nat>)
    requires LoopInvariant(maxRetries, vs, retries, n, sleeps)
    requires retries < maxRetries && n < |vs| && !vs[n].Wait? && !vs[n].Fail?
    ensures Loop(maxRetries, 0, vs) == Trace(
              match vs[n]
              case Found(tag) => Latest(tag)
              case Skip => Skipped
              case _ => Crashed,
              sleeps, n + 1)
  {
    assert vs[n..][0] == vs[n];
    assert sleeps + [] == sleeps;
  }

  /** A loop that stops on its condition ends the run. */
  lemma Ends(maxRetries: int, vs: seq<Verdict>, retries: nat, n: nat, sleeps: seq<nat>)
    requires LoopInvariant(maxRetries, vs, retries, n, sleeps)
    requires retries >= maxRetries || n == |vs|
    ensures Loop(maxRetries, 0, vs) == Trace(if retries >= maxRetries then Exhausted else OutOfScript, sleeps, n)
  {
    assert sleeps + [] == sleeps;
  }

  /** A wait sleeps and tries again with the same count. */
  lemma LoopWait(maxRetries: int, retries: nat, vs: seq<Verdict>)
    requires retries < maxRetries && |vs| > 0 && vs[0].Wait?
    ensures var t := Loop(maxRetries, retries, vs[1..]);
            Loop(maxRetries, retries, vs) == Trace(t.outcome, [vs[0].seconds] + t.sleeps, t.used + 1)
  {
  }

  /** A failure counts a retry, backs off, and tries again. */
  lemma LoopFail(maxRetries: int, retries: nat, vs: seq<Verdict>)
    requires retries < maxRetries && |vs| > 0 && vs[0].Fail?
    ensures var t := Loop(maxRetries, retries + 1, vs[1..]);
            Loop(maxRetries, retries, vs) == Trace(t.outcome, [Pow2(retries + 1)] + t.sleeps, t.used + 1)
  {
  }

  /** The number of failures in a sequence of verdicts. */
  function Failures(vs: seq<Verdict>): nat {
    if |vs| == 0 then 0 else (if vs[0].Fail? then 1 else 0) + Failures(vs[1..])
  }

  /** Whether an outcome is decided by the last attempt made. */
  predicate Returned(o: Outcome) {
    o.Latest? || o.Skipped? || o.Crashed?
  }

  /** The shape of a run: the attempts used, one sleep for each of them but a
      final returning one, at most `maxRetries - retries` failures, exactly
      that many when the check gives up, and only waits and failures before
      the end. */
  lemma {:induction false} LoopShape(maxRetries: int, retries: nat, vs: seq<Verdict>)
    ensures var t := Loop(maxRetries, retries, vs);
            && t.used <= |vs|
            && |t.sleeps| == t.used - (if Returned(t.outcome) then 1 else 0)
            && (forall i | 0 <= i < |t.sleeps| :: vs[i].Wait? || vs[i].Fail?)
            && (Returned(t.outcome) ==> t.used > 0 && !vs[t.used - 1].Wait? && !vs[t.used - 1].Fail?)
            && (t.outcome.OutOfScript? ==> t.used == |vs|)
            && Failures(vs[..t.used]) <= (if maxRetries > retries then maxRetries - retries else 0)
            && (t.outcome.Exhausted? <==> retries + Failures(vs[..t.used]) >= maxRetries)
    decreases |vs|
  {
    var t := Loop(maxRetries, retries, vs);
    if retries >= maxRetries || |vs| == 0 {
      assert vs[..t.used] == [];
    } else {
      var v := vs[0];
      assert vs[..1][1..] == [];
      if v.Wait? || v.Fail? {
        var r' := if v.Fail? then retries + 1 else retries;
        LoopShape(maxRetries, r', vs[1..]);
        var rest := Loop(maxRetries, r', vs[1..]);
        assert vs[..t.used][1..] == vs[1..][..rest.used];
        forall i | 0 <= i < |t.sleeps| ensures vs[i].Wait? || vs[i].Fail? {
          if i > 0 {
            assert vs[i] == vs[1..][i - 1];
          }
        }
        if Returned(t.outcome) {
          assert vs[t.used - 1] == vs[1..][rest.used - 1];
        }
      }
    }
  }

  /** A rate-limit wait sleeps the wait time and counts no retry. */
  lemma {:induction false} WaitSleeps(maxRetries: int, retries: nat, vs: seq<Verdict>)
    ensures var t := Loop(maxRetries, retries, vs);
            forall i | 0 <= i < |t.sleeps| && i < |vs| && vs[i].Wait? :: t.sleeps[i] == vs[i].seconds
    decreases |vs|
  {
    var t := Loop(maxRetries, retries, vs);
    if retries < maxRetries && |vs| > 0 && (vs[0].Wait? || vs[0].Fail?) {
      var r' := if vs[0].Fail? then retries + 1 else retries;
      WaitSleeps(maxRetries, r', vs[1..]);
      forall i | 0 <= i < |t.sleeps| && i < |vs| && vs[i].Wait? ensures t.sleeps[i] == vs[i].seconds {
        if i > 0 {
          assert vs[i] == vs[1..][i - 1];
        }
      }
    }
  }

  /** The back-off after the k-th failure is 2^k seconds. */
  lemma {:induction false} BackoffSleeps(maxRetries: int, retries: nat, vs: seq<Verdict>)
    ensures var t := Loop(maxRetries, retries, vs);
            forall i | 0 <= i < |t.sleeps| && i < |vs| && vs[i].Fail? ::
              t.sleeps[i] == Pow2(retries + Failures(vs[..i + 1]))
    decreases |vs|
  {
    var t := Loop(maxRetries, retries, vs);
    if retries < maxRetries && |vs| > 0 && (vs[0].Wait? || vs[0].Fail?) {
      var r' := if vs[0].Fail? then retries + 1 else retries;
      BackoffSleeps(maxRetries, r', vs[1..]);
      forall i | 0 <= i < |t.sleeps| && i < |vs| && vs[i].Fail?
        ensures t.sleeps[i] == Pow2(retries + Failures(vs[..i + 1]))
      {
        FailuresShift(vs, i);
        if i > 0 {
          assert vs[i] == vs[1..][i - 1];
        }
      }
    }
  }

  /** Counting the failures of a prefix: the first verdict, then the rest. */
  lemma FailuresShift(vs: seq<Verdict>, i: nat)
    requires i < |vs|
    ensures Failures(vs[..i + 1]) == (if vs[0].Fail? then 1 else 0) + Failures(vs[1..][..i])
  {
    assert vs[..i + 1][1..] == vs[1..][..i];
  }

  /** The back-off times 2^(from+1), ..., 2^(from+count). */
  function Backoffs(from: nat, count: nat): (s: seq<nat>)
    ensures |s| == count
    decreases count
  {
    if count == 0 then [] else [Pow2(from + 1)] + Backoffs(from + 1, count - 1)
  }

  /** When every request fails, the check gives up after exactly
      `max_retries` attempts, having slept 2, 4, ..., 2^max_retries seconds. */
  lemma {:induction false} AllFailing(maxRetries: nat, retries: nat, script: seq<Attempt>)
    requires retries <= maxRetries && |script| >= maxRetries - retries
    requires forall i | 0 <= i < |script| :: script[i].response.None?
    ensures Loop(maxRetries, retries, Verdicts(script))
            == Trace(Exhausted, Backoffs(retries, maxRetries - retries), maxRetries - retries)
    decreases maxRetries - retries
  {
    if retries < maxRetries {
      AllFailing(maxRetries, retries + 1, script[1..]);
      assert Verdicts(script)[1..] == Verdicts(script[1..]);
    }
  }

  /** The check's default: five retries. */
  const DefaultRetries: nat := 5

  /** With the default, a request that keeps failing sleeps 2, 4, 8, 16 and
      32 seconds and then gives up. */
  lemma DefaultBackoff(script: seq<Attempt>)
    requires |script| >= DefaultRetries
    requires forall i | 0 <= i < |script| :: script[i].response.None?
    ensures Loop(DefaultRetries, 0, Verdicts(script)) == Trace(Exhausted, [2, 4, 8, 16, 32], 5)
  {
    AllFailing(DefaultRetries, 0, script);
    assert Backoffs(0, 5) == [2, 4, 8, 16, 32];
  }
}
