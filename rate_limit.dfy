/**
 * The fixed-window rate limiter of `check_rate_limit`. Its state is one
 * record per session (not per user): a request count and the time the
 * current window started. Time is an integer number of seconds supplied by
 * the caller as `now`.
 */
module RateLimit {
  import opened Wrappers

  /** Requests accepted per window (environment default). */
  const RATE_LIMIT_REQUESTS: nat := 10
  /** Window length in seconds (environment default). */
  const RATE_LIMIT_WINDOW: nat := 60

  /** The `{count, window_start}` record kept in session state. */
  datatype RateWindow = RateWindow(count: nat, windowStart: int)

  /** The outcome of one check: whether it was accepted, and the record afterwards. */
  datatype Decision = Decision(accepted: bool, window: RateWindow)

  /** The invariant the limiter keeps: the count never exceeds the ceiling. */
  predicate WithinLimit(state: Option<RateWindow>) {
    state.None? || state.value.count <= RATE_LIMIT_REQUESTS
  }

  /**
   * True when the check starts a new window: the session has no record yet,
   * or strictly more than the window length has elapsed since it started.
   */
  predicate StartsNewWindow(state: Option<RateWindow>, now: int) {
    state.None? || now - state.value.windowStart > RATE_LIMIT_WINDOW
  }

  /** The record in force after initialisation and expiry are handled. */
  function Current(state: Option<RateWindow>, now: int): RateWindow {
    var w := if state.None? then RateWindow(0, now) else state.value;
    if now - w.windowStart > RATE_LIMIT_WINDOW then RateWindow(0, now) else w
  }

  /** One call of the limiter on the session's record `state` at time `now`. */
  function Check(state: Option<RateWindow>, now: int): (d: Decision)
    // a new window always admits the call and counts it as the first
    ensures StartsNewWindow(state, now) ==> d == Decision(true, RateWindow(1, now))
    // inside the window the start time is kept ...
    ensures !StartsNewWindow(state, now) ==> d.window.windowStart == state.value.windowStart
    // ... the call is accepted exactly when the ceiling is not yet reached ...
    ensures !StartsNewWindow(state, now) ==> (d.accepted <==> state.value.count < RATE_LIMIT_REQUESTS)
    // ... an accepted call adds exactly one, a rejected one leaves the record alone
    ensures !StartsNewWindow(state, now) && d.accepted ==> d.window.count == state.value.count + 1
    ensures !StartsNewWindow(state, now) && !d.accepted ==> d.window == state.value
    ensures WithinLimit(state) ==> WithinLimit(Some(d.window))
  {
    var w := Current(state, now);
    if w.count >= RATE_LIMIT_REQUESTS then Decision(false, w)
    else Decision(true, w.(count := w.count + 1))
  }

  /** The answers to successive calls at the times `times`, starting from `state`. */
  function Run(state: Option<RateWindow>, times: seq<int>): (r: seq<bool>)
    ensures |r| == |times|
    decreases |times|
  {
    if times == [] then []
    else
      var d := Check(state, times[0]);
      [d.accepted] + Run(Some(d.window), times[1..])
  }

  /**
   * Inside one window (no call more than the window length after its start),
   * the calls are accepted while the running count is below the ceiling and
   * rejected from then on.
   */
  lemma {:induction false} RunWithinWindow(w: RateWindow, times: seq<int>)
    requires w.count <= RATE_LIMIT_REQUESTS
    requires forall i :: 0 <= i < |times| ==> times[i] - w.windowStart <= RATE_LIMIT_WINDOW
    ensures forall i :: 0 <= i < |times| ==> Run(Some(w), times)[i] == (w.count + i < RATE_LIMIT_REQUESTS)
    decreases |times|
  {
    if times != [] {
      var d := Check(Some(w), times[0]);
      var rest := times[1..];
      assert forall i :: 0 <= i < |rest| ==> rest[i] == times[i + 1];
      RunWithinWindow(d.window, rest);
      assert Run(Some(w), times) == [d.accepted] + Run(Some(d.window), rest);
      forall i | 0 <= i < |times|
        ensures Run(Some(w), times)[i] == (w.count + i < RATE_LIMIT_REQUESTS)
      {
        if i > 0 {
          assert Run(Some(w), times)[i] == Run(Some(d.window), rest)[i - 1];
        }
      }
    }
  }

  /**
   * A fresh session whose calls all fall within one window of the first:
   * exactly the first `RATE_LIMIT_REQUESTS` calls succeed and every later
   * one fails.
   */
  lemma ExactlyLimitPerWindow(times: seq<int>)
    requires |times| > 0
    requires forall i :: 0 <= i < |times| ==> times[i] - times[0] <= RATE_LIMIT_WINDOW
    ensures forall i :: 0 <= i < |times| ==> Run(None, times)[i] == (i < RATE_LIMIT_REQUESTS)
  {
    var d := Check(None, times[0]);
    assert d == Decision(true, RateWindow(1, times[0]));
    var rest := times[1..];
    assert forall i :: 0 <= i < |rest| ==> rest[i] == times[i + 1];
    RunWithinWindow(d.window, rest);
    assert Run(None, times) == [true] + Run(Some(d.window), rest);
    forall i | 0 <= i < |times|
      ensures Run(None, times)[i] == (i < RATE_LIMIT_REQUESTS)
    {
      if i > 0 {
        assert Run(None, times)[i] == Run(Some(d.window), rest)[i - 1];
      }
    }
  }

  /** The session's limiter state, `st.session_state.rate_limit`. */
  class RateLimiter {
    /** `None` until the first check of the session creates the record. */
    var state: Option<RateWindow>

    ghost predicate Valid()
      reads this
    {
      WithinLimit(state)
    }

    constructor ()
      ensures Valid() && state == None
    {
      state := None;
    }

    /**
     * `check_rate_limit`. The user id is accepted and ignored: the record is
     * the session's, whoever the user is.
     */
    method CheckRateLimit(userId: string, now: int) returns (accepted: bool)
      requires Valid()
      modifies this
      ensures Valid()
      ensures accepted == Check(old(state), now).accepted
      ensures state == Some(Check(old(state), now).window)
    {
      if state.None? {
        state := Some(RateWindow(0, now));
      }
      var windowStart := state.value.windowStart;
      if now - windowStart > RATE_LIMIT_WINDOW {
        state := Some(RateWindow(0, now));
      }
      if state.value.count >= RATE_LIMIT_REQUESTS {
        return false;
      }
      state := Some(state.value.(count := state.value.count + 1));
      return true;
    }
  }
}
