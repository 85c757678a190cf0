/** Deadlines, backoff, and the retry and redirect loops around one page after another. */
module Retry {
  import opened Bytes
  import opened Wrappers
  import opened Decimal

  const SECOND := 1_000_000_000
  const TWO_64 := 0x1_0000_0000_0000_0000

  /** The runtime policy, in seconds. */
  datatype Policy = Policy(
    requestTimeout: int, stallTimeout: int, runTimeout: Option<int>, maximumAttempts: nat, retryInitial: int, retryMaximum: int)

  const MAXIMUM_ATTEMPT_COUNT := 1000

  /** validate_runtime_policy */
  predicate PolicyOk(p: Policy) {
    && 0 < p.requestTimeout <= 86_400 && 0 < p.stallTimeout <= 2_592_000
    && 0 < p.maximumAttempts <= MAXIMUM_ATTEMPT_COUNT
    && 0 < p.retryInitial <= p.retryMaximum <= 86_400
    && (p.runTimeout.Some? ==> 0 < p.runTimeout.value <= 31_536_000)
  }

  const HOUR := 60 * 60
  const DAY := 24 * HOUR

  /** Each timeout and delay is positive and bounded in days, and the attempts by a thousand. */
  lemma PolicyBounds(p: Policy)
    ensures PolicyOk(p) <==>
              && 1 <= p.requestTimeout <= DAY && 1 <= p.stallTimeout <= 30 * DAY && 1 <= p.maximumAttempts <= 1000
              && 1 <= p.retryInitial <= p.retryMaximum <= DAY
              && (p.runTimeout == None || 1 <= p.runTimeout.value <= 365 * DAY)
  {}

  function Min(a: int, b: int): int { if a < b then a else b }

  function Power2(n: nat): (r: nat)
    ensures r >= 1
  {
    if n == 0 then 1 else 2 * Power2(n - 1)
  }

  /** initial doubled n times. */
  function Doubled(initial: nat, n: nat): (r: nat)
    ensures r == initial * Power2(n)
  {
    if n == 0 then initial
    else
      var half := Doubled(initial, n - 1);
      Twice(initial, Power2(n - 1));
      2 * half
  }

  lemma Twice(a: nat, b: nat)
    ensures a * (2 * b) == 2 * (a * b)
  {}

  lemma {:induction false} DoubledGrows(initial: nat, m: nat, n: nat)
    requires m <= n
    ensures Doubled(initial, m) <= Doubled(initial, n)
    decreases n
  {
    if m < n { DoubledGrows(initial, m, n - 1); }
  }

  /** exponential_retry_delay: doubling with a cap, never beyond it and so never out of 64 bits. */
  method ExponentialDelay(policy: Policy, failedAttempt: nat) returns (delay: nat)
    requires PolicyOk(policy)
    ensures delay == Min(policy.retryInitial * Power2(if failedAttempt == 0 then 0 else failedAttempt - 1), policy.retryMaximum)
    ensures 0 < delay < TWO_64
  {
    delay := policy.retryInitial;
    var cap := policy.retryMaximum;
    ghost var doublings := if failedAttempt == 0 then 0 else failedAttempt - 1;
    ghost var wanted := Doubled(policy.retryInitial, doublings);
    var index := 1;
    while index < failedAttempt && delay < cap
      invariant 1 <= index && index - 1 <= doublings
      invariant 0 < delay <= cap && delay == Doubled(policy.retryInitial, index - 1)
      decreases failedAttempt - index
    {
      if delay > cap / 2 {
        DoubledGrows(policy.retryInitial, index, doublings);
        return cap;
      }
      delay := delay * 2;
      index := index + 1;
    }
    DoubledGrows(policy.retryInitial, index - 1, doublings);
  }

  /** integer_retry_after: only for 429 and 503, only plain digits that fit 64 bits, never beyond the cap. */
  function RetryAfter(status: nat, text: Option<bytes>, policy: Policy): (r: Option<nat>)
    requires PolicyOk(policy)
    ensures r.Some? ==> r.value <= policy.retryMaximum
  {
    if (status != 429 && status != 503) || text.None? || !IsNumeral(text.value) || FromDecimal(text.value) >= TWO_64 then None
    else Some(Min(FromDecimal(text.value), policy.retryMaximum))
  }

  /** The header counts for 429 and 503 only, as a whole number of seconds within 64 bits; a longer wait becomes the maximum. */
  lemma RetryAfterExactly(status: nat, seconds: nat, policy: Policy)
    requires PolicyOk(policy)
    ensures RetryAfter(status, Some(ToDecimal(seconds)), policy) ==
            if (status == 429 || status == 503) && seconds < 0x1_0000_0000_0000_0000
            then Some(if seconds <= policy.retryMaximum then seconds else policy.retryMaximum)
            else None
    ensures RetryAfter(status, None, policy) == None
    ensures forall text | RetryAfter(status, Some(text), policy).Some? :: text != [] && Digits(text)
  {
    DecimalInverse(seconds);
  }

  /** Times in nanoseconds of the steady clock. */
  datatype Deadlines = Deadlines(lastProgress: int, total: Option<int>)

  datatype Failure = NoFailure | Stalled | Total

  datatype Status = Status(failure: Failure, sinceProgress: int, untilNext: int, remainingTotal: Option<int>)

  /** classify_deadlines */
  function Classify(d: Deadlines, policy: Policy, now: int): Status {
    var since := if now > d.lastProgress then now - d.lastProgress else 0;
    var stall := policy.stallTimeout * SECOND;
    var remainingStall := if since >= stall then 0 else stall - since;
    if d.total.None? then
      Status(if since >= stall then Stalled else NoFailure, since, remainingStall, None)
    else
      var remaining := if now >= d.total.value then 0 else d.total.value - now;
      Status(if now >= d.total.value then Total else if since >= stall then Stalled else NoFailure,
             since, Min(remainingStall, remaining), Some(remaining))
  }

  /** The time to the next deadline is zero exactly when a deadline has expired, and the earlier branch names it. */
  lemma UntilNextIsZeroExactly(d: Deadlines, policy: Policy, now: int)
    requires PolicyOk(policy)
    ensures var s := Classify(d, policy, now);
            && s.untilNext >= 0
            && s.sinceProgress == (if now <= d.lastProgress then 0 else now - d.lastProgress)
            && (s.remainingTotal.Some? <==> d.total.Some?)
            && (d.total.Some? ==> s.remainingTotal.value == if now >= d.total.value then 0 else d.total.value - now)
            && (s.untilNext == 0 <==> s.failure != NoFailure)
            && (s.failure == Total <==> d.total.Some? && now >= d.total.value)
            && (s.failure == Stalled <==> !(d.total.Some? && now >= d.total.value) && now - d.lastProgress >= policy.stallTimeout * SECOND)
            && (s.failure == NoFailure && now >= d.lastProgress ==>
                  && Classify(d, policy, now + s.untilNext).failure != NoFailure
                  && forall later | now <= later < now + s.untilNext :: Classify(d, policy, later).failure == NoFailure)
  {}

  function Sum(s: seq<int>): int { if s == [] then 0 else Sum(s[..|s| - 1]) + s[|s| - 1] }

  /** The clock: the k-th reading. Nothing is assumed of it, not even that it never goes back. */
  type Clock = nat -> int

  /** The outside world: clock readings, and replies to transport calls. */
  class World {
    const clock: Clock
    const replies: nat -> Reply
    var readings: nat
    var calls: nat
    var waited: nat

    constructor (clock: Clock, replies: nat -> Reply)
      ensures this.clock == clock && this.replies == replies && readings == 0 && calls == 0 && waited == 0
    {
      this.clock, this.replies := clock, replies;
      readings, calls, waited := 0, 0, 0;
    }

    method Now() returns (t: int)
      modifies this`readings
      ensures t == clock(old(readings)) && readings == old(readings) + 1
    {
      t := clock(readings);
      readings := readings + 1;
    }

    method Wait(duration: nat)
      modifies this`waited
      ensures waited == old(waited) + duration
    {
      waited := waited + duration;
    }

    method Transport() returns (r: Reply)
      modifies this`calls
      ensures r == replies(old(calls)) && calls == old(calls) + 1
    {
      r := replies(calls);
      calls := calls + 1;
    }
  }

  /** What a transport call may come back with. */
  datatype Reply =
    | TransportFailure(retryable: bool)
    | ForeignOrigin
    | Reply(status: nat, location: Option<bool>, retryAfter: Option<bytes>)

  /** A slice that starts at a reading is within the heartbeat and ends no later than the next deadline. */
  predicate InTime(clock: Clock, d: Deadlines, policy: Policy, heartbeat: int, reading: nat, slice: int) {
    var s := Classify(d, policy, clock(reading));
    s.failure == NoFailure && 0 < slice <= heartbeat && slice <= s.untilNext
  }

  /** The clock is read before and after each slice. */
  ghost predicate AllInTime(clock: Clock, d: Deadlines, policy: Policy, heartbeat: int, first: nat, slices: seq<int>) {
    forall i | 0 <= i < |slices| :: InTime(clock, d, policy, heartbeat, first + 2 * i, slices[i])
  }

  lemma OneMoreSlice(clock: Clock, d: Deadlines, policy: Policy, heartbeat: int, first: nat, slices: seq<int>, more: seq<int>)
    requires AllInTime(clock, d, policy, heartbeat, first, slices) && |more| == |slices| + 1 && more[..|slices|] == slices
    requires InTime(clock, d, policy, heartbeat, first + 2 * |slices|, more[|slices|])
    ensures AllInTime(clock, d, policy, heartbeat, first, more) && Sum(more) == Sum(slices) + more[|slices|]
  {
    forall i | 0 <= i < |more| ensures InTime(clock, d, policy, heartbeat, first + 2 * i, more[i]) {
      if i < |slices| { assert more[i] == slices[i]; }
    }
  }

  predicate Expired(clock: Clock, d: Deadlines, policy: Policy, reading: nat) {
    Classify(d, policy, clock(reading)).failure != NoFailure
  }

  /** One slice of a wait, between two readings of the clock; none if a deadline has expired before it. */
  method Slice(world: World, d: Deadlines, policy: Policy, heartbeat: int, remaining: nat) returns (ok: bool, slice: nat)
    requires PolicyOk(policy) && heartbeat > 0 && remaining > 0
    modifies world`readings, world`waited
    ensures world.waited == old(world.waited) + slice && slice <= remaining
    ensures slice > 0 ==> world.readings == old(world.readings) + 2
                          && InTime(world.clock, d, policy, heartbeat, old(world.readings), slice)
    ensures slice == 0 ==> world.readings == old(world.readings) + 1 && !ok
    ensures !ok ==> Expired(world.clock, d, policy, world.readings - 1)
  {
    var now := world.Now();
    var before := Classify(d, policy, now);
    UntilNextIsZeroExactly(d, policy, now);
    if before.failure != NoFailure { return false, 0; }
    slice := Min(Min(remaining, heartbeat), before.untilNext);
    world.Wait(slice);
    now := world.Now();
    ok := Classify(d, policy, now).failure == NoFailure;
  }

  /** One more slice behind those already waited. */
  method NextSlice(world: World, d: Deadlines, policy: Policy, heartbeat: int, remaining: nat, slices: seq<int>, ghost first: nat)
    returns (ok: bool, more: seq<int>, slice: nat)
    requires PolicyOk(policy) && heartbeat > 0 && remaining > 0
    requires AllInTime(world.clock, d, policy, heartbeat, first, slices) && world.readings == first + 2 * |slices|
    modifies world`readings, world`waited
    ensures AllInTime(world.clock, d, policy, heartbeat, first, more) && Sum(more) == Sum(slices) + slice
    ensures slice <= remaining && world.waited == old(world.waited) + slice
    ensures if ok then slice > 0 && world.readings == first + 2 * |more|
            else world.readings > first && Expired(world.clock, d, policy, world.readings - 1)
  {
    ok, slice := Slice(world, d, policy, heartbeat, remaining);
    more := slices;
    if slice > 0 {
      more := slices + [slice];
      assert more[..|slices|] == slices;
      OneMoreSlice(world.clock, d, policy, heartbeat, first, slices, more);
    }
  }

  /** The wait between two attempts. */
  method Backoff(world: World, d: Deadlines, policy: Policy, heartbeat: int, delay: nat)
    returns (ok: bool, slices: seq<int>)
    requires PolicyOk(policy) && heartbeat > 0
    modifies world`readings, world`waited
    ensures AllInTime(world.clock, d, policy, heartbeat, old(world.readings), slices)
    ensures world.waited == old(world.waited) + Sum(slices) && (ok ==> Sum(slices) == delay * SECOND)
    ensures Sum(slices) <= delay * SECOND && world.readings >= old(world.readings)
    ensures !ok ==> world.readings > old(world.readings) && Expired(world.clock, d, policy, world.readings - 1)
  {
    slices := [];
    var remaining := delay * SECOND;
    ghost var first := world.readings;
    while remaining > 0
      invariant remaining >= 0 && Sum(slices) + remaining == delay * SECOND && world.waited == old(world.waited) + Sum(slices)
      invariant AllInTime(world.clock, d, policy, heartbeat, first, slices) && world.readings == first + 2 * |slices|
      decreases remaining
    {
      var slice;
      ok, slices, slice := NextSlice(world, d, policy, heartbeat, remaining, slices, first);
      if !ok { return; }
      remaining := remaining - slice;
    }
    var now := world.Now();
    ok := Classify(d, policy, now).failure == NoFailure;
  }

  predicate RetryableStatus(status: nat) {
    status in {408, 425, 429, 500, 502, 503, 504}
  }

  /** How one attempt, with its redirects, ends. */
  datatype Attempt = Stop | Retry(status: nat, retryAfter: Option<bytes>) | Response(status: nat)

  // What the replies of one page mean.

  /** A redirect that is followed. */
  predicate Followed(r: Reply) { r.Reply? && 300 <= r.status < 400 && r.location == Some(true) }

  /** A reply worth another attempt: a passing failure of the transport, or one of seven statuses. */
  predicate Passing(r: Reply) {
    r == TransportFailure(true) || (r.Reply? && r.status in {408, 425, 429, 500, 502, 503, 504})
  }

  predicate Continues(r: Reply) { Followed(r) || Passing(r) }

  /** Every reading of the clock from one to before another shows no expired deadline. */
  ghost predicate Open(clock: Clock, d: Deadlines, policy: Policy, from: nat, to: nat) {
    forall k | from <= k < to :: Classify(d, policy, clock(k)).failure == NoFailure
  }

  /** What ends an attempt without a response: any other failure, a foreign origin, a redirect that is refused or one too many. */
  predicate Stops(r: Reply, followed: nat, maximumRedirects: nat) {
    || r == TransportFailure(false) || r.ForeignOrigin?
    || (r.Reply? && 300 <= r.status < 400 && (r.location != Some(true) || followed >= maximumRedirects))
  }

  /** What a final or passing reply makes of an attempt. */
  function Ending(r: Reply): Attempt {
    match r
    case Reply(status, _, retryAfter) => if RetryableStatus(status) then Retry(status, retryAfter) else Response(status)
    case _ => Retry(0, None)
  }

  /**
   * The redirect loop of one attempt. It stops exactly for an expired deadline at some reading or for a reply that stops
   * it; otherwise the last reply decides, all before it being redirects that were followed.
   */
  method TryOnce(world: World, d: Deadlines, policy: Policy, maximumRedirects: nat) returns (a: Attempt)
    requires PolicyOk(policy)
    modifies world`readings, world`calls
    ensures old(world.calls) <= world.calls <= old(world.calls) + maximumRedirects + 1 && world.readings > old(world.readings)
    ensures forall k | old(world.calls) <= k < world.calls - 1 :: Followed(world.replies(k))
    ensures Open(world.clock, d, policy, old(world.readings), world.readings) ==> world.calls > old(world.calls)
    ensures a.Stop? <==>
              || !Open(world.clock, d, policy, old(world.readings), world.readings)
              || Stops(world.replies(world.calls - 1), world.calls - old(world.calls) - 1, maximumRedirects)
    ensures !a.Stop? ==> a == Ending(world.replies(world.calls - 1))
  {
    var redirects := 0;
    while true
      invariant redirects <= maximumRedirects
      invariant world.calls == old(world.calls) + redirects && world.readings == old(world.readings) + redirects
      invariant forall k | old(world.calls) <= k < world.calls :: Followed(world.replies(k))
      invariant Open(world.clock, d, policy, old(world.readings), world.readings)
      decreases maximumRedirects - redirects
    {
      var now := world.Now();
      if Classify(d, policy, now).failure != NoFailure { return Stop; }
      var reply := world.Transport();
      match reply {
        case TransportFailure(retryable) =>
          now := world.Now();
          if Classify(d, policy, now).failure != NoFailure || !retryable { return Stop; }
          return Retry(0, None);
        case ForeignOrigin => return Stop;
        case Reply(status, location, retryAfter) =>
          if status < 300 || status >= 400 {
            return if RetryableStatus(status) then Retry(status, retryAfter) else Response(status);
          }
          if location.None? || redirects >= maximumRedirects || !location.value { return Stop; }
          redirects := redirects + 1;
      }
    }
  }

  /** How long to wait before another attempt: what the reply asks for, or else the initial delay doubled for each attempt before. */
  ghost predicate WaitAfter(policy: Policy, attempt: nat, r: Reply, delay: nat)
    requires PolicyOk(policy) && attempt > 0
  {
    var asked := if r.Reply? then RetryAfter(r.status, r.retryAfter, policy) else None;
    delay == if asked.Some? then asked.value else Min(policy.retryInitial * Power2(attempt - 1), policy.retryMaximum)
  }

  /** An attempt that was followed by another: its last call, and the seconds waited behind it. */
  datatype Pause = Pause(call: nat, seconds: nat)

  ghost predicate PausesOk(pauses: seq<Pause>, replies: nat -> Reply, policy: Policy, first: nat)
    requires PolicyOk(policy)
  {
    forall k {:trigger PauseOk(policy, k, replies(pauses[k].call), pauses[k].seconds)} | 0 <= k < |pauses| ::
      PauseOk(policy, k, replies(pauses[k].call), pauses[k].seconds) && Behind(pauses[..k], first) <= pauses[k].call
  }

  ghost predicate PauseOk(policy: Policy, k: nat, r: Reply, seconds: nat)
    requires PolicyOk(policy)
  {
    Passing(r) && WaitAfter(policy, k + 1, r, seconds)
  }

  /** All the seconds waited. */
  function Seconds(pauses: seq<Pause>): nat { if pauses == [] then 0 else Seconds(pauses[..|pauses| - 1]) + pauses[|pauses| - 1].seconds }

  /** The first call behind some pauses. */
  function Behind(pauses: seq<Pause>, first: nat): nat { if pauses == [] then first else pauses[|pauses| - 1].call + 1 }

  lemma OneMorePause(pauses: seq<Pause>, p: Pause, replies: nat -> Reply, policy: Policy, first: nat)
    requires PolicyOk(policy) && PausesOk(pauses, replies, policy, first)
    requires Behind(pauses, first) <= p.call && PauseOk(policy, |pauses|, replies(p.call), p.seconds)
    ensures PausesOk(pauses + [p], replies, policy, first) && Behind(pauses + [p], first) == p.call + 1
  {
    var more := pauses + [p];
    forall k | 0 <= k < |more|
      ensures PauseOk(policy, k, replies(more[k].call), more[k].seconds) && Behind(more[..k], first) <= more[k].call
    {
      assert more[..k] == pauses[..k];
      if k == |pauses| {
        assert pauses[..k] == pauses;
      } else {
        assert more[k] == pauses[k] && PauseOk(policy, k, replies(pauses[k].call), pauses[k].seconds);
      }
    }
  }

  /** The wait before another attempt. */
  method PauseFor(world: World, d: Deadlines, policy: Policy, heartbeat: int, attempt: nat, status: nat, text: Option<bytes>, ghost r: Reply)
    returns (go: bool, seconds: nat)
    requires PolicyOk(policy) && heartbeat > 0 && attempt > 0
    requires Passing(r) && Ending(r) == Retry(status, text)
    modifies world`readings, world`waited
    ensures world.readings >= old(world.readings) && PauseOk(policy, attempt - 1, r, seconds)
    ensures go ==> world.waited == old(world.waited) + seconds * SECOND
    ensures !go ==> !Open(world.clock, d, policy, old(world.readings), world.readings)
  {
    var exponential := ExponentialDelay(policy, attempt);
    var chosen := RetryAfter(status, text, policy);
    seconds := if chosen.Some? then chosen.value else exponential;
    var slices;
    go, slices := Backoff(world, d, policy, heartbeat, seconds);
  }

  /** Why a page was not fetched, from the readings and replies used for it. */
  ghost predicate Unfetched(world: World, d: Deadlines, policy: Policy, attempts: nat, readings: nat, calls: nat)
    reads world
  {
    || !Open(world.clock, d, policy, readings, world.readings)
    || (world.calls > calls
        && var last := world.replies(world.calls - 1);
           || last == TransportFailure(false) || last.ForeignOrigin?
           || (last.Reply? && 300 <= last.status < 400)
           || (last.Reply? && last.status != 200 && !Passing(last))
           || (Passing(last) && attempts == policy.maximumAttempts))
  }

  /** How an attempt leaves the page. */
  datatype Turn = Fetched | GivenUp | Again(seconds: nat)

  /** One attempt and, when another is to follow, the wait behind it. */
  method OneAttempt(world: World, d: Deadlines, policy: Policy, heartbeat: int, maximumRedirects: nat, attempt: nat) returns (r: Turn)
    requires PolicyOk(policy) && heartbeat > 0 && 1 <= attempt <= policy.maximumAttempts
    modifies world`readings, world`calls, world`waited
    ensures old(world.calls) <= world.calls <= old(world.calls) + maximumRedirects + 1 && world.readings > old(world.readings)
    ensures forall k | old(world.calls) <= k < world.calls - 1 :: Followed(world.replies(k))
    ensures r.Fetched? ==> world.calls > old(world.calls) && Accepted(world.replies(world.calls - 1))
    ensures r.GivenUp? ==> Unfetched(world, d, policy, attempt, old(world.readings), old(world.calls))
    ensures r.Again? ==> attempt < policy.maximumAttempts && world.calls > old(world.calls)
                         && PauseOk(policy, attempt - 1, world.replies(world.calls - 1), r.seconds)
    ensures world.waited == old(world.waited) + (if r.Again? then r.seconds * SECOND else 0) || r.GivenUp?
  {
    var a := TryOnce(world, d, policy, maximumRedirects);
    match a {
      case Stop => return GivenUp;
      case Response(status) => return if status == 200 then Fetched else GivenUp;
      case Retry(status, text) =>
        if attempt == policy.maximumAttempts { return GivenUp; }
        var go, seconds := PauseFor(world, d, policy, heartbeat, attempt, status, text, world.replies(world.calls - 1));
        return if go then Again(seconds) else GivenUp;
    }
  }

  lemma UnfetchedFromEarlier(world: World, d: Deadlines, policy: Policy, attempt: nat, earlier: nat, readings: nat, before: nat, calls: nat)
    requires Unfetched(world, d, policy, attempt, readings, calls) && earlier <= readings && before <= calls
    ensures Unfetched(world, d, policy, attempt, earlier, before)
  {}

  /** Every reply of a page but the last was a redirect or worth another attempt; a first one of 200 is the last. */
  lemma FirstIsLast(replies: nat -> Reply, from: nat, to: nat)
    requires from < to && (forall k | from <= k < to - 1 :: Continues(replies(k))) && Accepted(replies(from))
    ensures to == from + 1
  {
  }

  predicate Accepted(r: Reply) { r.Reply? && r.status == 200 }

  /** All calls so far were redirects or ended attempts that were followed by a pause. */
  ghost predicate Trying(replies: nat -> Reply, policy: Policy, pauses: seq<Pause>, calls: nat, now: nat)
    requires PolicyOk(policy)
  {
    && PausesOk(pauses, replies, policy, calls) && calls <= Behind(pauses, calls) <= now
    && forall k | calls <= k < now :: Continues(replies(k))
  }

  lemma TryAgain(replies: nat -> Reply, policy: Policy, pauses: seq<Pause>, calls: nat, before: nat, now: nat, seconds: nat)
    returns (more: seq<Pause>)
    requires PolicyOk(policy) && Trying(replies, policy, pauses, calls, before) && before < now
    requires forall k | before <= k < now - 1 :: Followed(replies(k))
    requires PauseOk(policy, |pauses|, replies(now - 1), seconds)
    ensures Trying(replies, policy, more, calls, now) && |more| == |pauses| + 1 && Seconds(more) == Seconds(pauses) + seconds
  {
    more := pauses + [Pause(now - 1, seconds)];
    assert more[..|pauses|] == pauses;
    OneMorePause(pauses, Pause(now - 1, seconds), replies, policy, calls);
  }

  /** What the last attempt says of the whole page. */
  lemma Tried(world: World, d: Deadlines, policy: Policy, pauses: seq<Pause>, attempt: nat, readings: nat, earlier: nat,
              calls: nat, before: nat, ok: bool)
    requires PolicyOk(policy) && Trying(world.replies, policy, pauses, calls, before) && before <= world.calls && readings <= earlier
    requires forall k | before <= k < world.calls - 1 :: Followed(world.replies(k))
    requires if ok then world.calls > before && Accepted(world.replies(world.calls - 1))
             else Unfetched(world, d, policy, attempt, earlier, before)
    ensures forall k | calls <= k < world.calls - 1 :: Continues(world.replies(k))
    ensures !ok ==> Unfetched(world, d, policy, attempt, readings, calls)
    ensures (Open(world.clock, d, policy, readings, world.readings) && Accepted(world.replies(calls))) ==>
              ok && world.calls == calls + 1
  {
    if !ok { UnfetchedFromEarlier(world, d, policy, attempt, readings, earlier, calls, before); }
    if world.calls > calls && Accepted(world.replies(calls)) { FirstIsLast(world.replies, calls, world.calls); }
  }

  /**
   * The attempts for one page. An accepted response has status 200; a page is given up for a reason, and every reply but
   * the last was a redirect or worth another attempt.
   */
  method FetchPage(world: World, d: Deadlines, policy: Policy, heartbeat: int, maximumRedirects: nat)
    returns (ok: bool, ghost attempts: nat, ghost pauses: seq<Pause>)
    requires PolicyOk(policy) && heartbeat > 0
    modifies world`readings, world`calls, world`waited
    ensures old(world.calls) <= world.calls <= old(world.calls) + policy.maximumAttempts * (maximumRedirects + 1)
    ensures world.readings >= old(world.readings)
    ensures |pauses| == attempts - 1 && PausesOk(pauses, world.replies, policy, old(world.calls))
    ensures ok ==> world.waited == old(world.waited) + Seconds(pauses) * SECOND
    ensures ok ==> world.calls > old(world.calls) && Accepted(world.replies(world.calls - 1))
    ensures !ok ==> Unfetched(world, d, policy, attempts, old(world.readings), old(world.calls))
    ensures forall k | old(world.calls) <= k < world.calls - 1 :: Continues(world.replies(k))
    ensures (Open(world.clock, d, policy, old(world.readings), world.readings) && Accepted(world.replies(old(world.calls)))) ==>
              ok && world.calls == old(world.calls) + 1
  {
    ghost var readings, calls := world.readings, world.calls;
    var attempt := 1;
    attempts, pauses := 1, [];
    while true
      invariant Trying(world.replies, policy, pauses, calls, world.calls) && |pauses| == attempt - 1
      invariant 1 <= attempt <= policy.maximumAttempts && attempts == attempt && world.readings >= readings
      invariant world.waited == old(world.waited) + Seconds(pauses) * SECOND
      invariant calls <= world.calls <= calls + (attempt - 1) * (maximumRedirects + 1)
      decreases policy.maximumAttempts - attempt
    {
      ghost var earlier, before := world.readings, world.calls;
      var r := OneAttempt(world, d, policy, heartbeat, maximumRedirects, attempt);
      NextMultiple(attempt, policy.maximumAttempts, maximumRedirects + 1);
      if !r.Again? {
        ok := r.Fetched?;
        Tried(world, d, policy, pauses, attempt, readings, earlier, calls, before, ok);
        return;
      }
      pauses := TryAgain(world.replies, policy, pauses, calls, before, world.calls, r.seconds);
      attempt := attempt + 1;
      attempts := attempt;
    }
  }

  lemma NextMultiple(a: nat, bound: nat, unit: nat)
    requires 1 <= a <= bound
    ensures (a - 1) * unit + unit == a * unit <= bound * unit
  {}

  /** What the checks on an accepted response decide. */
  datatype Verdict = Reject | More | Last

  /** The deadlines a page was accepted under, and which reading of the clock came just before its commit. */
  datatype Acceptance = Acceptance(deadlines: Deadlines, reading: nat)

  function TotalDeadline(policy: Policy, started: int): Option<int> {
    if policy.runTimeout.Some? then Some(started + policy.runTimeout.value * SECOND) else None
  }

  /** Accepted before the run timeout, and within the stall timeout of the progress made at an earlier reading. */
  predicate AcceptedInTime(a: Acceptance, clock: Clock, policy: Policy, started: int, progress: nat) {
    && a.deadlines == Deadlines(clock(progress), TotalDeadline(policy, started)) && progress < a.reading
    && clock(a.reading) - clock(progress) < policy.stallTimeout * SECOND
    && (policy.runTimeout.Some? ==> clock(a.reading) < started + policy.runTimeout.value * SECOND)
  }

  /** Every page in time, counted from the reading behind the commit of the page before it. */
  ghost predicate AllAcceptedInTime(accepted: seq<Acceptance>, clock: Clock, policy: Policy, first: nat) {
    forall k {:trigger ProgressOf(accepted, first, k)} | 0 <= k < |accepted| ::
      AcceptedInTime(accepted[k], clock, policy, clock(first), ProgressOf(accepted, first, k))
  }

  function ProgressOf(accepted: seq<Acceptance>, first: nat, k: nat): nat
    requires k <= |accepted|
  {
    if k == 0 then first + 1 else accepted[k - 1].reading + 1
  }

  /** The deadlines in force after some accepted pages, the clock having been read a number of times. */
  ghost predicate Underway(accepted: seq<Acceptance>, d: Deadlines, clock: Clock, policy: Policy, first: nat, readings: nat) {
    && AllAcceptedInTime(accepted, clock, policy, first) && first <= ProgressOf(accepted, first, |accepted|) < readings
    && d == Deadlines(clock(ProgressOf(accepted, first, |accepted|)), TotalDeadline(policy, clock(first)))
  }

  lemma OpenIsInTime(d: Deadlines, clock: Clock, policy: Policy, started: int, progress: nat, reading: nat)
    requires PolicyOk(policy) && d == Deadlines(clock(progress), TotalDeadline(policy, started)) && progress < reading
    requires Classify(d, policy, clock(reading)).failure == NoFailure
    ensures AcceptedInTime(Acceptance(d, reading), clock, policy, started, progress)
  {}

  lemma OneMoreAcceptance(accepted: seq<Acceptance>, a: Acceptance, clock: Clock, policy: Policy, first: nat)
    requires AllAcceptedInTime(accepted, clock, policy, first)
    requires AcceptedInTime(a, clock, policy, clock(first), ProgressOf(accepted, first, |accepted|))
    ensures AllAcceptedInTime(accepted + [a], clock, policy, first)
  {
    var more := accepted + [a];
    forall k | 0 <= k < |more| ensures AcceptedInTime(more[k], clock, policy, clock(first), ProgressOf(more, first, k)) {
      assert ProgressOf(more, first, k) == ProgressOf(accepted, first, k);
    }
  }

  /** A page accepted at an open reading: the next reading is its progress. */
  lemma Accept(accepted: seq<Acceptance>, d: Deadlines, clock: Clock, policy: Policy, first: nat, reading: nat)
    requires PolicyOk(policy) && Underway(accepted, d, clock, policy, first, reading)
    requires Classify(d, policy, clock(reading)).failure == NoFailure
    ensures Underway(accepted + [Acceptance(d, reading)], Deadlines(clock(reading + 1), d.total), clock, policy, first, reading + 2)
  {
    OpenIsInTime(d, clock, policy, clock(first), ProgressOf(accepted, first, |accepted|), reading);
    OneMoreAcceptance(accepted, Acceptance(d, reading), clock, policy, first);
  }

  /** One page, from the check before its first request to the check before its commit. */
  method NextPage(world: World, d: Deadlines, policy: Policy, heartbeat: int, maximumRedirects: nat, verdict: Verdict)
    returns (ok: bool, ghost attempts: nat)
    requires PolicyOk(policy) && heartbeat > 0
    modifies world`readings, world`calls, world`waited
    ensures old(world.calls) <= world.calls <= old(world.calls) + policy.maximumAttempts * (maximumRedirects + 1)
    ensures world.readings > old(world.readings)
    ensures ok ==> world.readings > old(world.readings) + 1 && !verdict.Reject?
    ensures ok ==> Classify(d, policy, world.clock(world.readings - 1)).failure == NoFailure
    ensures Classify(d, policy, world.clock(old(world.readings))).failure != NoFailure ==> !ok && world.calls == old(world.calls)
    ensures !ok ==> verdict.Reject? || Unfetched(world, d, policy, attempts, old(world.readings), old(world.calls))
    ensures forall k | old(world.calls) <= k < world.calls - 1 :: Continues(world.replies(k))
  {
    attempts := 0;
    var now := world.Now();
    if Classify(d, policy, now).failure != NoFailure { return false, attempts; }
    ghost var pauses;
    ok, attempts, pauses := FetchPage(world, d, policy, heartbeat, maximumRedirects);
    if !ok || verdict.Reject? { return false, attempts; }
    now := world.Now();
    ok := Classify(d, policy, now).failure == NoFailure;
  }

  /** No deadline ever expires, whichever earlier reading the progress is counted from. */
  ghost predicate InTimeAlways(clock: Clock, policy: Policy, first: nat) {
    forall progress: nat, now: nat | first <= progress <= now ::
      Classify(Deadlines(clock(progress), TotalDeadline(policy, clock(first))), policy, clock(now)).failure == NoFailure
  }

  /** The pages behind some committed ones are accepted up to a last one within the limit. */
  ghost predicate Finishes(verdicts: nat -> Verdict, committed: nat, maximumPages: nat) {
    exists n: nat :: committed < n <= maximumPages && LastAt(verdicts, committed, n)
  }

  ghost predicate LastAt(verdicts: nat -> Verdict, committed: nat, n: nat) {
    verdicts(n).Last? && forall k | committed < k < n :: verdicts(k).More?
  }

  lemma NotYetLast(verdicts: nat -> Verdict, committed: nat, maximumPages: nat, pages: nat)
    requires Finishes(verdicts, committed, maximumPages) && committed <= pages
    requires forall k | committed < k <= pages :: verdicts(k).More?
    ensures pages < maximumPages && !verdicts(pages + 1).Reject?
  {
    var n: nat :| committed < n <= maximumPages && LastAt(verdicts, committed, n);
  }

  /** Every transport call is answered with status 200. */
  ghost predicate AllAnswered(replies: nat -> Reply) { forall k :: replies(k).Reply? && replies(k).status == 200 }

  /**
   * The page loop from a given number of committed pages: it ends, within a bounded number of transport calls, and no page
   * is committed behind a deadline. In time and with every request answered it completes if the pages come to a last one.
   */
  method CollectPages(world: World, policy: Policy, heartbeat: int, maximumPages: nat, maximumRedirects: nat, committed: nat,
                      verdicts: nat -> Verdict) returns (complete: bool, pages: nat, ghost accepted: seq<Acceptance>)
    requires PolicyOk(policy) && heartbeat > 0
    modifies world`readings, world`calls, world`waited
    ensures committed <= pages && (committed <= maximumPages ==> pages <= maximumPages)
    ensures world.calls <= old(world.calls) + maximumPages * policy.maximumAttempts * (maximumRedirects + 1)
    ensures complete ==> pages > committed && verdicts(pages) == Last && forall k | committed < k < pages :: verdicts(k) == More
    ensures |accepted| == pages - committed
    ensures AllAcceptedInTime(accepted, world.clock, policy, old(world.readings))
    ensures (InTimeAlways(world.clock, policy, old(world.readings)) && AllAnswered(world.replies)
             && Finishes(verdicts, committed, maximumPages)) ==> complete
  {
    ghost var first := world.readings;
    pages, accepted := committed, [];
    var started := world.Now();
    var total := TotalDeadline(policy, started);
    var last := world.Now();
    var d := Deadlines(last, total);
    ghost var perPage := policy.maximumAttempts * (maximumRedirects + 1);
    while true
      invariant committed <= pages && (committed <= maximumPages ==> pages <= maximumPages)
      invariant old(world.calls) <= world.calls <= old(world.calls) + (pages - committed) * perPage
      invariant pages > committed ==> pages <= maximumPages
      invariant forall k | committed < k <= pages :: verdicts(k) == More
      invariant |accepted| == pages - committed && Underway(accepted, d, world.clock, policy, first, world.readings)
      decreases maximumPages - pages
    {
      if Finishes(verdicts, committed, maximumPages) { NotYetLast(verdicts, committed, maximumPages, pages); }
      Within(pages - committed, maximumPages, perPage);
      if pages >= maximumPages {
        Regroup(maximumPages, policy.maximumAttempts, maximumRedirects + 1);
        return false, pages, accepted;
      }
      Within(pages - committed + 1, maximumPages, perPage);
      Regroup(maximumPages, policy.maximumAttempts, maximumRedirects + 1);
      assert (pages - committed + 1) * perPage == (pages - committed) * perPage + perPage;
      var ok := AnsweredPage(world, d, policy, heartbeat, maximumRedirects, verdicts(pages + 1), accepted, first);
      if !ok { return false, pages, accepted; }
      Accept(accepted, d, world.clock, policy, first, world.readings - 1);
      accepted := accepted + [Acceptance(d, world.readings - 1)];
      pages := pages + 1;
      last := world.Now();
      d := Deadlines(last, total);
      if verdicts(pages).Last? { return true, pages, accepted; }
    }
  }

  /** The next page, which does arrive when it is in time, answered and not rejected. */
  method AnsweredPage(world: World, d: Deadlines, policy: Policy, heartbeat: int, maximumRedirects: nat, verdict: Verdict,
                      ghost accepted: seq<Acceptance>, ghost first: nat) returns (ok: bool)
    requires PolicyOk(policy) && heartbeat > 0 && Underway(accepted, d, world.clock, policy, first, world.readings)
    modifies world`readings, world`calls, world`waited
    ensures old(world.calls) <= world.calls <= old(world.calls) + policy.maximumAttempts * (maximumRedirects + 1)
    ensures world.readings > old(world.readings) && (ok ==> world.readings > old(world.readings) + 1 && !verdict.Reject?)
    ensures ok ==> Classify(d, policy, world.clock(world.readings - 1)).failure == NoFailure
    ensures InTimeAlways(world.clock, policy, first) && AllAnswered(world.replies) && !verdict.Reject? ==> ok
  {
    ghost var attempts: nat;
    ghost var before, calls := world.readings, world.calls;
    ok, attempts := NextPage(world, d, policy, heartbeat, maximumRedirects, verdict);
    if InTimeAlways(world.clock, policy, first) && AllAnswered(world.replies) {
      InTimeOpen(world.clock, d, policy, accepted, first, before, world.readings);
      AnsweredIsFetched(world, d, policy, maximumRedirects, attempts, before, calls);
    }
  }

  lemma AnsweredIsFetched(world: World, d: Deadlines, policy: Policy, maximumRedirects: nat, attempts: nat, readings: nat, calls: nat)
    requires Open(world.clock, d, policy, readings, world.readings) && AllAnswered(world.replies)
    ensures !Unfetched(world, d, policy, attempts, readings, calls)
  {
    if world.calls > calls { assert world.replies(world.calls - 1).Reply?; }
  }

  lemma InTimeOpen(clock: Clock, d: Deadlines, policy: Policy, accepted: seq<Acceptance>, first: nat, from: nat, to: nat)
    requires InTimeAlways(clock, policy, first) && Underway(accepted, d, clock, policy, first, from)
    ensures Open(clock, d, policy, from, to)
  {}

  lemma Within(a: nat, bound: nat, unit: nat)
    ensures a <= bound ==> a * unit <= bound * unit
  {}

  lemma Regroup(a: nat, b: nat, c: nat)
    ensures a * (b * c) == a * b * c
  {}
}
