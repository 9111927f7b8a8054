/**
 * The debounce scheduler of the bridge (`reiniciarTimeout`): at most one
 * timer is pending; every accepted message cancels it and arms a new one
 * that expires one quiet period later. Time is a logical clock in
 * milliseconds.
 */
module Debounce {

  /** The delay passed to `setTimeout`. */
  const QuietPeriod: int := 2000

  /** `timeoutHandle`: no pending timer, or one that expires at `deadline`. */
  datatype Timer = Idle | Armed(deadline: int)

  /** Cancel whatever is pending and arm a fresh timer at `now`. */
  function Restart(now: int): Timer
  {
    Armed(now + QuietPeriod)
  }

  /** The pending timer has expired at `now`, so its callback runs. */
  predicate Due(t: Timer, now: int)
  {
    t.Armed? && t.deadline <= now
  }

  /**
   * The times at which the timer callback runs, starting from timer `t`,
   * when accepted messages arrive at times `ts` and the line is quiet
   * after the last one. A timer whose deadline is reached before (or at) the
   * next arrival fires first. Each timer fires at most once, so there are
   * never more passes than timers armed.
   */
  function Passes(t: Timer, ts: seq<int>): (r: seq<int>)
    ensures |r| <= |ts| + (if t.Armed? then 1 else 0)
    decreases |ts|
  {
    if ts == [] then (if t.Armed? then [t.deadline] else [])
    else (if Due(t, ts[0]) then [t.deadline] else []) + Passes(Restart(ts[0]), ts[1..])
  }

  /**
   * The reference description of debouncing: one pass per message that is
   * followed by a silence of at least a quiet period (or by nothing), one
   * quiet period after that message. The last message always has one.
   */
  function QuietEnds(ts: seq<int>): (r: seq<int>)
    ensures |r| <= |ts|
    ensures ts != [] ==> r != [] && r[|r| - 1] == ts[|ts| - 1] + QuietPeriod
    decreases |ts|
  {
    if ts == [] then []
    else if |ts| == 1 then [ts[0] + QuietPeriod]
    else (if ts[1] >= ts[0] + QuietPeriod then [ts[0] + QuietPeriod] else []) + QuietEnds(ts[1..])
  }

  /** A burst: every message arrives less than a quiet period after the previous one. */
  ghost predicate Burst(ts: seq<int>)
  {
    forall i :: 0 <= i < |ts| - 1 ==> ts[i] <= ts[i + 1] < ts[i] + QuietPeriod
  }

  /** Driving the timer by the arrivals yields exactly the quiet ends. */
  lemma {:induction false} PassesAreQuietEnds(ts: seq<int>)
    requires ts != []
    ensures Passes(Restart(ts[0]), ts[1..]) == QuietEnds(ts)
    decreases |ts|
  {
    if |ts| > 1 {
      PassesAreQuietEnds(ts[1..]);
      assert ts[1..][1..] == ts[2..];
    }
  }

  /** Starting idle, the passes are the quiet ends of the arrivals. */
  lemma {:induction false} PassesFromIdle(ts: seq<int>)
    ensures Passes(Idle, ts) == QuietEnds(ts)
  {
    if ts != [] {
      PassesAreQuietEnds(ts);
    }
  }

  /**
   * Coalescing: however many messages a burst holds, exactly one pass runs,
   * one quiet period after the last message, provided the timer pending
   * when the burst begins has not expired yet.
   */
  lemma {:induction false} BurstYieldsOnePass(t: Timer, ts: seq<int>)
    requires ts != [] && Burst(ts)
    requires !Due(t, ts[0])
    ensures Passes(t, ts) == [ts[|ts| - 1] + QuietPeriod]
    decreases |ts|
  {
    if |ts| > 1 {
      assert Burst(ts[1..]) by {
        forall i | 0 <= i < |ts[1..]| - 1 ensures ts[1..][i] <= ts[1..][i + 1] < ts[1..][i] + QuietPeriod {
          assert ts[1..][i] == ts[i + 1] && ts[1..][i + 1] == ts[i + 2];
        }
      }
      BurstYieldsOnePass(Restart(ts[0]), ts[1..]);
    }
  }

  /**
   * Every pass happens a full quiet period after some message whose next
   * message (if any) came at least a quiet period later, and at no other time.
   */
  lemma {:induction false} PassFollowsSilence(ts: seq<int>, k: int)
    requires 0 <= k < |QuietEnds(ts)|
    ensures exists i :: 0 <= i < |ts| && QuietEnds(ts)[k] == ts[i] + QuietPeriod &&
                        (i == |ts| - 1 || ts[i + 1] >= ts[i] + QuietPeriod)
    decreases |ts|
  {
    if |ts| == 1 {
      assert QuietEnds(ts)[k] == ts[0] + QuietPeriod;
    } else {
      var head := if ts[1] >= ts[0] + QuietPeriod then [ts[0] + QuietPeriod] else [];
      assert QuietEnds(ts) == head + QuietEnds(ts[1..]);
      if k < |head| {
        assert QuietEnds(ts)[k] == ts[0] + QuietPeriod;
      } else {
        PassFollowsSilence(ts[1..], k - |head|);
        var i :| 0 <= i < |ts[1..]| && QuietEnds(ts[1..])[k - |head|] == ts[1..][i] + QuietPeriod
          && (i == |ts[1..]| - 1 || ts[1..][i + 1] >= ts[1..][i] + QuietPeriod);
        assert QuietEnds(ts)[k] == ts[i + 1] + QuietPeriod;
      }
    }
  }

  /**
   * The converse: a message whose next message (if any) comes at least a
   * quiet period later is followed by a pass one quiet period after it.
   */
  lemma {:induction false} QuietArrivalPasses(ts: seq<int>, i: int)
    requires 0 <= i < |ts|
    requires i == |ts| - 1 || ts[i + 1] >= ts[i] + QuietPeriod
    ensures ts[i] + QuietPeriod in QuietEnds(ts)
    decreases |ts|
  {
    if |ts| > 1 {
      var head := if ts[1] >= ts[0] + QuietPeriod then [ts[0] + QuietPeriod] else [];
      assert QuietEnds(ts) == head + QuietEnds(ts[1..]);
      if i > 0 {
        assert ts[1..][i - 1] == ts[i];
        assert i - 1 == |ts[1..]| - 1 || ts[1..][i] == ts[i + 1];
        QuietArrivalPasses(ts[1..], i - 1);
      } else {
        assert head == [ts[0] + QuietPeriod];
      }
    }
  }

}
