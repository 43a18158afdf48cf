/** `src/lib/throttle.ts`: the closure that `throttle(func, delay)` returns.
    Its two captured variables, `lastRan` and `timeoutId`, become fields; `Date.now()`
    becomes the `now` argument of each event; the timer callback becomes `Fire`. */
module Throttle {
  import opened Wrappers

  /** The timeout the closure has scheduled: the arguments its callback captured and
      the time the timer is due. `timeoutId !== null` is `pending.Some?`. */
  datatype Pending<A> = Pending(args: A, due: int)

  /** `Math.max(0, delay - (now - lastRan))`, the wait of a trailing run. */
  function Wait(delay: int, now: int, lastRan: int): (w: int)
    ensures w >= 0
    ensures w == 0 || w == delay - (now - lastRan)
    ensures w >= delay - (now - lastRan)
    ensures now >= lastRan && delay >= 0 ==> w <= delay
  {
    if delay - (now - lastRan) > 0 then delay - (now - lastRan) else 0
  }

  /** A call runs at once when nothing ran yet or at least `delay` has passed. */
  predicate RunsAtOnce(delay: int, lastRan: Option<int>, now: int)
  {
    lastRan.None? || now - lastRan.value >= delay
  }

  class Throttled<A> {
    const delay: int
    var lastRan: Option<int>
    var pending: Option<Pending<A>>
    /** The arguments of every run of `func`, in the order the runs happened. */
    var runs: seq<A>
    /** How many times the throttled function has been called. */
    ghost var calls: nat

    /** Every run and the pending run are paid for by a call of their own, and a
        run is only ever scheduled after something has run. */
    ghost predicate Valid()
      reads this
    {
      && |runs| + (if pending.Some? then 1 else 0) <= calls
      && (pending.Some? ==> lastRan.Some?)
    }

    constructor (delay: int)
      ensures Valid()
      ensures this.delay == delay && lastRan == None && pending == None && runs == [] && calls == 0
    {
      this.delay := delay;
      lastRan := None;
      pending := None;
      runs := [];
      calls := 0;
    }

    /** A call of the throttled function at time `now` with arguments `args`. Either
        `func` runs at once and `lastRan` becomes `now`, or the pending timeout is
        replaced by one for `args`, due when `delay` has passed since the last run. */
    method Call(now: int, args: A)
      requires Valid()
      modifies this
      ensures Valid()
      ensures calls == old(calls) + 1
      ensures RunsAtOnce(delay, old(lastRan), now) ==>
                runs == old(runs) + [args] && lastRan == Some(now) && pending == old(pending)
      ensures !RunsAtOnce(delay, old(lastRan), now) ==>
                && runs == old(runs) && lastRan == old(lastRan)
                && pending == Some(Pending(args, now + Wait(delay, now, old(lastRan).value)))
                && pending.value.due >= now
                && pending.value.due >= old(lastRan).value + delay
    {
      calls := calls + 1;
      if lastRan.None? || now - lastRan.value >= delay {
        runs := runs + [args];
        lastRan := Some(now);
      } else {
        // clearTimeout on the previous timer, if any, then setTimeout
        pending := Some(Pending(args, now + Wait(delay, now, lastRan.value)));
      }
    }

    /** The pending timer fires at time `now`: `func` runs with the captured
        arguments, `lastRan` becomes `now`, and nothing is pending any more. */
    method Fire(now: int)
      requires Valid()
      requires pending.Some? && now >= pending.value.due
      modifies this
      ensures Valid()
      ensures runs == old(runs) + [old(pending).value.args]
      ensures lastRan == Some(now) && pending == None && calls == old(calls)
    {
      runs := runs + [pending.value.args];
      lastRan := Some(now);
      pending := None;
    }
  }

  /** Three calls at the same instant: one run at once, a second one with the last
      call's arguments when the delay has passed. */
  method ThreeCallsScenario() returns (atOnce: nat, afterDelay: nat, args: seq<string>)
    ensures atOnce == 1 && afterDelay == 2
    ensures args == ["first", "third"]
  {
    var t := new Throttled<string>(100);
    t.Call(0, "first");
    t.Call(0, "second");
    t.Call(0, "third");
    atOnce := |t.runs|;
    t.Fire(100);
    afterDelay := |t.runs|;
    args := t.runs;
  }

  /** A call 50 ms after the first one waits until 100 ms; a call 100 ms after the
      first one runs at once. */
  method DelayScenario() returns (dueOfSecond: int, runsAt100: nat)
    ensures dueOfSecond == 100 && runsAt100 == 2
  {
    var t := new Throttled<seq<string>>(100);
    t.Call(0, []);
    t.Call(50, []);
    dueOfSecond := t.pending.value.due;
    var u := new Throttled<seq<string>>(100);
    u.Call(0, []);
    u.Call(100, []);
    runsAt100 := |u.runs|;
  }

  /** A call that arrives when the trailing timer is due, before its callback has
      run, runs at once; the timer is not cleared on that path, so the trailing run
      follows at the same instant. */
  method LateTimerScenario() returns (args: seq<string>, lastRun: Option<int>)
    ensures args == ["first", "third", "second"]
    ensures lastRun == Some(100)
  {
    var t := new Throttled<string>(100);
    t.Call(0, "first");
    t.Call(50, "second");
    t.Call(100, "third");
    t.Fire(100);
    args := t.runs;
    lastRun := t.lastRan;
  }
}
