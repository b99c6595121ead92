/** `throttle(fn, delay)` (assets/global.js): a wrapper that runs `fn` only when
    at least `delay` milliseconds have passed since the last run. The clock
    reading `new Date().getTime()` is passed in as `now`. */
module Throttling {

  /** The wrapper's test: `!(now - lastCall < delay)`. */
  predicate Admits(now: int, lastCall: int, delay: int) {
    now - lastCall >= delay
  }

  /** The times at which `fn` runs when the wrapper is called at `times`, in
      order, starting from the remembered time `lastCall`. */
  function RunTimes(times: seq<int>, lastCall: int, delay: int): seq<int> {
    if times == [] then []
    else if Admits(times[0], lastCall, delay) then [times[0]] + RunTimes(times[1..], times[0], delay)
    else RunTimes(times[1..], lastCall, delay)
  }

  /** Whatever the clock does, successive runs are at least `delay` apart, and
      the first one is at least `delay` after the remembered time. */
  lemma {:induction false} RunsAreSpaced(times: seq<int>, lastCall: int, delay: int)
    ensures var runs := RunTimes(times, lastCall, delay);
            (runs != [] ==> runs[0] - lastCall >= delay) &&
            forall k :: 0 <= k < |runs| - 1 ==> runs[k + 1] - runs[k] >= delay
  {
    if times != [] {
      if Admits(times[0], lastCall, delay) {
        RunsAreSpaced(times[1..], times[0], delay);
      } else {
        RunsAreSpaced(times[1..], lastCall, delay);
      }
    }
  }

  /** Every run time is one of the call times, and a call never runs twice. */
  lemma {:induction false} RunsAreCalls(times: seq<int>, lastCall: int, delay: int)
    ensures |RunTimes(times, lastCall, delay)| <= |times|
    ensures forall t :: t in RunTimes(times, lastCall, delay) ==> t in times
  {
    if times != [] {
      if Admits(times[0], lastCall, delay) {
        RunsAreCalls(times[1..], times[0], delay);
      } else {
        RunsAreCalls(times[1..], lastCall, delay);
      }
    }
  }

  /** The closure of one throttled function: `lastCall` starts at 0. */
  class Throttle {
    var lastCall: int
    const delay: int

    constructor (delay: int)
      ensures lastCall == 0 && this.delay == delay
    {
      lastCall := 0;
      this.delay := delay;
    }

    /** One call of the wrapper at time `now`: `ran` says whether `fn` ran;
        `lastCall` moves to `now` exactly when it did. */
    method Call(now: int) returns (ran: bool)
      modifies this`lastCall
      ensures ran == Admits(now, old(lastCall), delay)
      ensures lastCall == if ran then now else old(lastCall)
    {
      if now - lastCall < delay {
        return false;
      }
      lastCall := now;
      return true;
    }

    /** The wrapper called at each of `times` in turn: the calls that run `fn`
        are exactly those `RunTimes` picks, and `lastCall` ends at the last run. */
    method CallAll(times: seq<int>) returns (runs: seq<int>)
      modifies this`lastCall
      ensures runs == RunTimes(times, old(lastCall), delay)
      ensures lastCall == if runs == [] then old(lastCall) else runs[|runs| - 1]
    {
      runs := [];
      var i := 0;
      while i < |times|
        invariant 0 <= i <= |times|
        invariant runs + RunTimes(times[i..], lastCall, delay) == RunTimes(times, old(lastCall), delay)
        invariant lastCall == if runs == [] then old(lastCall) else runs[|runs| - 1]
      {
        assert times[i..][1..] == times[i + 1..];
        var ran := Call(times[i]);
        if ran {
          runs := runs + [times[i]];
        }
        i := i + 1;
      }
      assert times[i..] == [];
    }
  }
}
