/**
 * The timed wait of base/cbits/inputReady.c, POSIX branch: a loop around `poll` that may be
 * interrupted by signals and whose timeout is narrower than the caller's.
 */
module FdReady {

  const INT_MAX := 0x7FFF_FFFF

  /** Times are counted in nanoseconds. */
  function MSToTime(ms: int): int {
    ms * 1_000_000
  }

  function TimeToMS(t: nat): nat {
    t / 1_000_000
  }

  /** A value that must fit an `int`. */
  function Exact(v: int): int
    requires -INT_MAX - 1 <= v <= INT_MAX
  {
    v
  }

  /** `compute_poll_timeout`: the least number of milliseconds that covers the remaining time, or the largest `int`. */
  function ComputePollTimeout(infinite: bool, remaining: int): (timeout: int)
    ensures infinite <==> timeout == -1
    ensures !infinite ==> 0 <= timeout <= 2147483647
    ensures !infinite ==> (timeout * 1_000_000 >= remaining <==> remaining <= 2147483647 * 1_000_000)
    ensures timeout > 0 ==> (timeout - 1) * 1_000_000 < remaining
  {
    if infinite then -1
    else if remaining < 0 then 0
    else if remaining > MSToTime(INT_MAX) then INT_MAX
    else
      var remainingMs := Exact(TimeToMS(remaining));
      if remaining != MSToTime(remainingMs) then Exact(remainingMs + 1) else remainingMs
  }

  // ---------------------------------------------------------------------------
  // A run
  // ---------------------------------------------------------------------------

  datatype Result = Ready | TimedOut | Interrupted | Failed

  /** What one `poll` will do: how long the process takes to enter it, its result, how long it takes to
      return (after the timeout, if it times out), and how long until the clock is read again. */
  datatype Event = Event(enter: nat, result: Result, leave: nat, read: nat)

  /** A `poll` that was made: the remaining time it was computed from, and when it started and returned. */
  datatype Call = Call(remaining: int, timeout: int, start: nat, end: nat, result: Result)

  datatype Outcome = Returned(code: int) | Waiting

  /** The call an event makes, entered after the clock read `now`. */
  function MakeCall(event: Event, now: nat, remaining: int, infinite: bool): Call {
    var timeout := ComputePollTimeout(infinite, remaining);
    var start := now + event.enter;
    var waited := if event.result == TimedOut && timeout > 0 then MSToTime(timeout) else 0;
    Call(remaining, timeout, start, start + waited + event.leave, event.result)
  }

  /** What the clock reads after the calls. */
  function Clock(calls: seq<Call>, script: seq<Event>, begin: nat): nat
    requires |calls| <= |script|
  {
    if calls == [] then begin else calls[|calls| - 1].end + script[|calls| - 1].read
  }

  /** A call is what its event says, entered after the clock read `now`. */
  predicate Performs(c: Call, e: Event, now: nat) {
    && c.result == e.result && c.start == now + e.enter
    && c.end == c.start + (if e.result == TimedOut && c.timeout > 0 then c.timeout * 1_000_000 else 0) + e.leave
  }

  /** Calls made one after the other, the first when the clock reads `begin`, as the script has them. */
  predicate Follows(calls: seq<Call>, script: seq<Event>, begin: nat) {
    && |calls| <= |script|
    && forall i | 0 <= i < |calls| :: Performs(calls[i], script[i], Clock(calls[..i], script, begin))
  }

  lemma FollowsNext(calls: seq<Call>, script: seq<Event>, begin: nat, c: Call)
    requires Follows(calls, script, begin) && |calls| < |script|
    requires Performs(c, script[|calls|], Clock(calls, script, begin))
    ensures Follows(calls + [c], script, begin)
  {
    hide Performs, Clock;
    var more := calls + [c];
    assert more[..|calls|] == calls;
    forall i | 0 <= i < |more|
      ensures Performs(more[i], script[i], Clock(more[..i], script, begin))
    {
      assert more[..i] == calls[..i];
      assert i < |calls| ==> more[i] == calls[i];
    }
  }

  /** A call after which the code goes on waiting: interrupted, or timed out too early for a timeout that was cut. */
  predicate GoesOn(c: Call, infinite: bool) {
    c.result == Interrupted || (c.result == TimedOut && (infinite || c.remaining > 2147483647 * 1_000_000))
  }

  /** A call of a wait that ends at `endTime` covers the time that is left, if an `int` can hold it, and no more. */
  predicate Covers(c: Call, event: Event, endTime: int) {
    && c.remaining == endTime - (c.start - event.enter)
    && (c.remaining <= 2147483647 * 1_000_000 ==> c.start + c.timeout * 1_000_000 >= endTime)
    && (c.timeout > 0 ==> c.start - event.enter + (c.timeout - 1) * 1_000_000 < endTime)
  }

  lemma FollowsNothing(script: seq<Event>, begin: nat)
    ensures Follows([], script, begin)
  {
  }

  lemma CallPerforms(event: Event, now: nat, remaining: int, infinite: bool)
    ensures Performs(MakeCall(event, now, remaining, infinite), event, now)
  {
  }

  lemma CallCovers(event: Event, now: nat, endTime: int)
    ensures Covers(MakeCall(event, now, endTime - now, false), event, endTime)
  {
  }

  /** `fdReady`, started when the clock reads `begin`, against a script of what each `poll` does. */
  method FdReady(msecs: int, begin: nat, script: seq<Event>) returns (outcome: Outcome, calls: seq<Call>)
    requires -0x8000_0000_0000_0000 <= msecs * 1_000_000 && begin + msecs * 1_000_000 < 0x8000_0000_0000_0000
    ensures |calls| <= |script| && Follows(calls, script, begin)
    // Only the last call can end the wait, and it decides the result: data, time up, or an error.
    ensures forall i | 0 <= i < |calls| - 1 :: GoesOn(calls[i], msecs < 0)
    ensures outcome == Waiting <==> calls == [] || GoesOn(calls[|calls| - 1], msecs < 0)
    ensures outcome == Waiting ==> |calls| == |script|
    ensures outcome == Returned(1) <==> calls != [] && calls[|calls| - 1].result == Ready
    ensures outcome == Returned(-1) <==> calls != [] && calls[|calls| - 1].result == Failed
    ensures outcome == Returned(0) <==>
      calls != [] && calls[|calls| - 1].result == TimedOut && !GoesOn(calls[|calls| - 1], msecs < 0)
    // The guarantee: time is up only once a call has returned at or past the end time.
    ensures outcome == Returned(0) ==> msecs >= 0 && calls[|calls| - 1].end >= begin + msecs * 1_000_000
    // No call waits for less than the time that is left, nor a millisecond longer; none blocks if nothing is left.
    ensures msecs > 0 ==> forall i | 0 <= i < |calls| :: Covers(calls[i], script[i], begin + msecs * 1_000_000)
    ensures msecs <= 0 ==> forall i | 0 <= i < |calls| :: calls[i].timeout == if msecs < 0 then -1 else 0
  {
    hide Follows, Covers, Performs;
    assert Follows([], script, begin) by { FollowsNothing(script, begin); }
    var infinite := msecs < 0;
    var endTime := 0;
    if msecs > 0 {
      endTime := begin + MSToTime(msecs);
    }
    var remaining := MSToTime(msecs);
    var now := begin;
    calls := [];
    while |calls| < |script|
      invariant |calls| <= |script| && Follows(calls, script, begin) && now == Clock(calls, script, begin)
      invariant forall i | 0 <= i < |calls| :: GoesOn(calls[i], infinite)
      invariant now >= begin && (msecs > 0 ==> remaining == endTime - now)
      invariant msecs == 0 ==> remaining <= 0
      invariant msecs > 0 ==> forall i | 0 <= i < |calls| :: Covers(calls[i], script[i], endTime)
      invariant msecs <= 0 ==> forall i | 0 <= i < |calls| :: calls[i].timeout == if msecs < 0 then -1 else 0
      decreases |script| - |calls|
    {
      var event := script[|calls|];
      var call := MakeCall(event, now, remaining, infinite);
      CallPerforms(event, now, remaining, infinite);
      FollowsNext(calls, script, begin, call);
      if msecs > 0 {
        CallCovers(event, now, endTime);
      }
      calls := calls + [call];
      if call.result == Failed {
        return Returned(-1), calls;
      }
      if call.result == Ready {
        return Returned(1), calls;
      }
      if call.result == TimedOut && !infinite && remaining <= MSToTime(INT_MAX) {
        return Returned(0), calls;
      }
      // the CHECK of the source
      assert call.result == Interrupted
        || (call.result == TimedOut && (infinite || remaining > MSToTime(INT_MAX)));
      now := call.end + event.read;
      if !infinite {
        remaining := endTime - now;
      }
    }
    return Waiting, calls;
  }
}
