/** The lazy idle watchdog against an eager one that restarts its timer on every Reset.

    Steps are atomic here and due timers are urgent: the clock does not pass a deadline that has not
    fired.  WatchdogInterleaving splits the steps. */
module Watchdog {
  import opened Octets

  datatype Event = Reset | Stop | Fire | Advance(delta: nat)

  // ----- idleWatchdog: Reset only writes a timestamp, fire re-checks it

  datatype Lazy = Lazy(
    timeout: int, now: int, lastTick: int, done: bool, timer: Option<int>, cancelledAt: Option<int>)

  function LazyInit(timeout: int, now: int): Lazy {
    Lazy(timeout, now, now, false, if timeout <= 0 then None else Some(now + timeout), None)
  }

  predicate LazyEnabled(s: Lazy, e: Event) {
    match e
    case Fire => s.timer.Some? && s.timer.value <= s.now
    case Advance(delta) => s.timer.Some? ==> s.now + delta <= s.timer.value
    case _ => true
  }

  function LazyApply(s: Lazy, e: Event): Lazy {
    match e
    case Advance(delta) => s.(now := s.now + delta)
    case Reset => if s.timeout <= 0 || s.done then s else s.(lastTick := s.now)
    case Stop => if s.timeout <= 0 || s.done then s else s.(done := true, timer := None)
    case Fire =>
      if s.done then s.(timer := None)
      else
        var elapsed := s.now - s.lastTick;
        if elapsed >= s.timeout then s.(done := true, timer := None, cancelledAt := Some(s.now))
        else s.(timer := Some(s.now + (s.timeout - elapsed)))
  }

  // ----- The reference: a timer restarted on every Reset

  datatype Eager = Eager(timeout: int, now: int, done: bool, timer: Option<int>, cancelledAt: Option<int>)

  function EagerInit(timeout: int, now: int): Eager {
    Eager(timeout, now, false, if timeout <= 0 then None else Some(now + timeout), None)
  }

  predicate EagerEnabled(s: Eager, e: Event) {
    match e
    case Fire => s.timer.Some? && s.timer.value <= s.now
    case Advance(delta) => s.timer.Some? ==> s.now + delta <= s.timer.value
    case _ => true
  }

  function EagerApply(s: Eager, e: Event): Eager {
    match e
    case Advance(delta) => s.(now := s.now + delta)
    case Reset => if s.timeout <= 0 || s.done then s else s.(timer := Some(s.now + s.timeout))
    case Stop => if s.timeout <= 0 || s.done then s else s.(done := true, timer := None)
    case Fire => if s.done then s.(timer := None) else s.(done := true, timer := None, cancelledAt := Some(s.now))
  }

  // ----- Runs

  ghost predicate LazyRun(s: Lazy, es: seq<Event>, t: Lazy)
    decreases |es|
  {
    if es == [] then s == t else LazyEnabled(s, es[0]) && LazyRun(LazyApply(s, es[0]), es[1..], t)
  }

  ghost predicate EagerRun(s: Eager, es: seq<Event>, t: Eager)
    decreases |es|
  {
    if es == [] then s == t else EagerEnabled(s, es[0]) && EagerRun(EagerApply(s, es[0]), es[1..], t)
  }

  /** The invariant: the pending deadline of a live watchdog never lies after lastTick + timeout. */
  ghost predicate LazyOk(l: Lazy) {
    && (l.timeout <= 0 ==> l.timer == None && !l.done && l.cancelledAt == None)
    && (l.done ==> l.timer == None)
    && (l.timeout > 0 && !l.done ==>
          && l.cancelledAt == None && l.timer.Some?
          && l.lastTick <= l.now <= l.timer.value <= l.lastTick + l.timeout)
    && (l.cancelledAt.Some? ==> l.cancelledAt.value == l.lastTick + l.timeout && l.timeout > 0)
  }

  /** The simulation relation: the eager timer of a live watchdog stands at lastTick + timeout. */
  ghost predicate Related(l: Lazy, e: Eager) {
    && LazyOk(l)
    && l.timeout == e.timeout && l.now == e.now && l.done == e.done && l.cancelledAt == e.cancelledAt
    && e.timer == if l.timeout > 0 && !l.done then Some(l.lastTick + l.timeout) else None
  }

  /** A firing that finds a fresh timestamp; the only step the eager watchdog does not have. */
  predicate Rearms(s: Lazy, e: Event) {
    e == Fire && !s.done && s.now - s.lastTick < s.timeout
  }

  /** The events an observer of the watchdog sees, in order: everything but the re-arming firings. */
  function Erase(s: Lazy, es: seq<Event>): seq<Event>
    decreases |es|
  {
    if es == [] then []
    else
      var rest := Erase(LazyApply(s, es[0]), es[1..]);
      if Rearms(s, es[0]) then rest else [es[0]] + rest
  }

  function Later(now: int, e: Event): int {
    if e.Advance? then now + e.delta else now
  }

  function Clock(now: int, es: seq<Event>): int
    decreases |es|
  {
    if es == [] then now else Clock(Later(now, es[0]), es[1..])
  }

  function Call(now: int, e: Event): seq<(int, Event)> {
    if e.Reset? || e.Stop? then [(now, e)] else []
  }

  /** The Resets and Stops of a run that starts at now, each with its time. */
  function Calls(now: int, es: seq<Event>): seq<(int, Event)>
    decreases |es|
  {
    if es == [] then [] else Call(now, es[0]) + Calls(Later(now, es[0]), es[1..])
  }

  lemma {:induction false} CallsConcat(now: int, es: seq<Event>, fs: seq<Event>)
    ensures Calls(now, es + fs) == Calls(now, es) + Calls(Clock(now, es), fs)
    decreases |es|
  {
    var all := es + fs;
    if es == [] {
      assert all == fs;
    } else {
      var rest := Later(now, es[0]);
      CallsConcat(rest, es[1..], fs);
      assert all[0] == es[0] && all[1..] == es[1..] + fs;
      assert Calls(now, all) == Call(now, es[0]) + Calls(rest, all[1..]);
      assert Calls(now, es) == Call(now, es[0]) + Calls(rest, es[1..]);
      assert Clock(now, es) == Clock(rest, es[1..]);
      hide Calls, Call, Clock, Later;
    }
  }

  lemma {:induction false} RunClock(l: Lazy, es: seq<Event>, m: Lazy)
    requires LazyRun(l, es, m)
    ensures m.now == Clock(l.now, es)
    decreases |es|
  {
    if es != [] {
      RunClock(LazyApply(l, es[0]), es[1..], m);
    }
  }

  lemma CallsAppend(l: Lazy, es: seq<Event>, m: Lazy, fs: seq<Event>)
    requires LazyRun(l, es, m)
    ensures Calls(l.now, es + fs) == Calls(l.now, es) + Calls(m.now, fs)
  {
    RunClock(l, es, m);
    CallsConcat(l.now, es, fs);
  }

  lemma {:induction false} Simulate(l: Lazy, es: seq<Event>, l': Lazy, e: Eager) returns (e': Eager)
    requires Related(l, e) && LazyRun(l, es, l')
    ensures EagerRun(e, Erase(l, es), e') && Related(l', e')
    ensures Calls(e.now, Erase(l, es)) == Calls(l.now, es)
    decreases |es|
  {
    if es == [] {
      e' := e;
    } else if Rearms(l, es[0]) {
      e' := Simulate(LazyApply(l, es[0]), es[1..], l', e);
    } else {
      assert Related(LazyApply(l, es[0]), EagerApply(e, es[0]));
      e' := Simulate(LazyApply(l, es[0]), es[1..], l', EagerApply(e, es[0]));
      var rest := Erase(LazyApply(l, es[0]), es[1..]);
      assert Erase(l, es) == [es[0]] + rest;
      assert Erase(l, es)[0] == es[0] && Erase(l, es)[1..] == rest;
    }
  }

  /** Every run of the lazy watchdog is a run of the eager one with the same Resets and Stops at the
      same times, and with the same cancellation at the same instant. */
  lemma LazyRefinesEager(timeout: int, start: int, es: seq<Event>, l: Lazy) returns (e: Eager)
    requires LazyRun(LazyInit(timeout, start), es, l)
    ensures EagerRun(EagerInit(timeout, start), Erase(LazyInit(timeout, start), es), e)
    ensures Calls(start, Erase(LazyInit(timeout, start), es)) == Calls(start, es)
    ensures e.now == l.now && e.done == l.done && e.cancelledAt == l.cancelledAt
  {
    e := Simulate(LazyInit(timeout, start), es, l, EagerInit(timeout, start));
  }

  /** What the lazy watchdog does while the eager one takes one step: when its own deadline falls
      inside a span of time, it fires there, re-arms, and waits for the rest. */
  function Schedule(l: Lazy, ev: Event): seq<Event> {
    if ev.Advance? && l.timer.Some? && l.timer.value < l.now + ev.delta && l.now <= l.timer.value then
      [Advance(l.timer.value - l.now), Fire, Advance(l.now + ev.delta - l.timer.value)]
    else [ev]
  }

  lemma {:induction false} RunAppend(s: Lazy, es: seq<Event>, t: Lazy, fs: seq<Event>, u: Lazy)
    requires LazyRun(s, es, t) && LazyRun(t, fs, u)
    ensures LazyRun(s, es + fs, u)
    decreases |es|
  {
    if es == [] {
      assert es + fs == fs;
    } else {
      RunAppend(LazyApply(s, es[0]), es[1..], t, fs, u);
      assert (es + fs)[1..] == es[1..] + fs;
    }
  }

  lemma {:induction false} QuietSteps(now: int, es: seq<Event>)
    requires forall k :: 0 <= k < |es| ==> es[k].Advance? || es[k].Fire?
    ensures Calls(now, es) == []
    decreases |es|
  {
    if es != [] {
      QuietSteps(Later(now, es[0]), es[1..]);
    }
  }

  lemma {:induction false} FollowStep(l: Lazy, e: Eager, ev: Event) returns (l': Lazy)
    requires Related(l, e) && EagerEnabled(e, ev)
    ensures LazyRun(l, Schedule(l, ev), l') && Related(l', EagerApply(e, ev))
    ensures Calls(l.now, Schedule(l, ev)) == Calls(l.now, [ev])
  {
    var steps := Schedule(l, ev);
    if |steps| == 1 {
      l' := LazyApply(l, ev);
      assert LazyRun(l', [], l') && steps[1..] == [];
    } else {
      var a := LazyApply(l, steps[0]);
      var b := LazyApply(a, Fire);
      l' := LazyApply(b, steps[2]);
      assert LazyRun(l', [], l') && steps[2..][1..] == [];
      assert steps[1..][1..] == steps[2..];
      assert LazyRun(b, steps[2..], l');
      assert LazyRun(a, steps[1..], l');
      QuietSteps(l.now, steps);
      QuietSteps(l.now, [ev]);
    }
  }

  lemma FirstCall(now: int, es: seq<Event>)
    requires es != []
    ensures Calls(now, es) == Calls(now, [es[0]]) + Calls(Later(now, es[0]), es[1..])
  {
    var one := [es[0]];
    assert Clock(now, one) == Later(now, es[0]) by { assert one[1..] == []; }
    hide Calls, Clock, Later;
    CallsConcat(now, one, es[1..]);
    assert one + es[1..] == es;
  }

  lemma {:induction false} Follow(l: Lazy, e: Eager, evs: seq<Event>, e': Eager) returns (ls: seq<Event>, l': Lazy)
    requires Related(l, e) && EagerRun(e, evs, e')
    ensures LazyRun(l, ls, l') && Related(l', e')
    ensures Calls(l.now, ls) == Calls(e.now, evs)
    decreases |evs|
  {
    if evs == [] {
      ls, l' := [], l;
    } else {
      var mid := FollowStep(l, e, evs[0]);
      var rest;
      rest, l' := Follow(mid, EagerApply(e, evs[0]), evs[1..], e');
      RunAppend(l, Schedule(l, evs[0]), mid, rest, l');
      CallsAppend(l, Schedule(l, evs[0]), mid, rest);
      FirstCall(e.now, evs);
      ls := Schedule(l, evs[0]) + rest;
    }
  }

  /** Conversely, whatever the eager watchdog can do the lazy one can do, with the same Resets and Stops
      at the same times and the same outcome at the same time: saving the timer restarts loses no cancellation. */
  lemma EagerRefinesLazy(timeout: int, start: int, evs: seq<Event>, e: Eager) returns (ls: seq<Event>, l: Lazy)
    requires EagerRun(EagerInit(timeout, start), evs, e)
    ensures LazyRun(LazyInit(timeout, start), ls, l) && Calls(start, ls) == Calls(start, evs)
    ensures l.now == e.now && l.done == e.done && l.cancelledAt == e.cancelledAt
  {
    ls, l := Follow(LazyInit(timeout, start), EagerInit(timeout, start), evs, e);
  }

  /** A cancellation comes exactly timeout after the last timestamp, time never passes that instant
      uncancelled, and a disabled watchdog never cancels. */
  lemma CancelInstant(timeout: int, start: int, es: seq<Event>, l: Lazy)
    requires LazyRun(LazyInit(timeout, start), es, l)
    ensures l.cancelledAt.Some? ==> l.cancelledAt.value == l.lastTick + timeout && l.done
    ensures timeout > 0 && !l.done ==> l.now <= l.lastTick + timeout && l.cancelledAt == None
    ensures timeout <= 0 ==> l.cancelledAt == None && l.timer == None
  {
    var e := Simulate(LazyInit(timeout, start), es, l, EagerInit(timeout, start));
    TimeoutKept(LazyInit(timeout, start), es, l);
    CancelMeansDone(LazyInit(timeout, start), es, l);
  }

  lemma {:induction false} TimeoutKept(s: Lazy, es: seq<Event>, t: Lazy)
    requires LazyRun(s, es, t)
    ensures s.timeout == t.timeout
    decreases |es|
  {
    if es != [] {
      TimeoutKept(LazyApply(s, es[0]), es[1..], t);
    }
  }

  lemma {:induction false} CancelMeansDone(s: Lazy, es: seq<Event>, t: Lazy)
    requires LazyRun(s, es, t) && (s.cancelledAt.Some? ==> s.done)
    ensures t.cancelledAt.Some? ==> t.done
    decreases |es|
  {
    if es != [] {
      CancelMeansDone(LazyApply(s, es[0]), es[1..], t);
    }
  }

  // ----- A closed form

  /** Resets and Stops at times that do not decrease, between start and end. */
  ghost predicate IsScript(start: int, script: seq<(int, Event)>, end: int) {
    && start <= end
    && (forall k :: 0 <= k < |script| ==> start <= script[k].0 <= end && (script[k].1.Reset? || script[k].1.Stop?))
    && (forall j, k :: 0 <= j < k < |script| ==> script[j].0 <= script[k].0)
  }

  /** The first instant up to end at which nothing has been heard for a whole timeout, unless a Stop
      comes before it; at a tie the timer is first. */
  function Silence(timeout: int, last: int, script: seq<(int, Event)>, end: int): Option<int>
    decreases |script|
  {
    if script == [] then if last + timeout <= end then Some(last + timeout) else None
    else if last + timeout <= script[0].0 then Some(last + timeout)
    else if script[0].1.Stop? then None
    else Silence(timeout, script[0].0, script[1..], end)
  }

  // ----- The class itself

  /** idleWatchdog.  The clock is an argument of each call; cancel is the write to cancelledAt. */
  class IdleWatchdog {
    const timeout: int
    var lastTick: int
    var done: bool
    var timer: Option<int>
    var cancelledAt: Option<int>

    function View(now: int): Lazy
      reads this
    {
      Lazy(timeout, now, lastTick, done, timer, cancelledAt)
    }

    constructor (timeout: int, now: int)
      ensures this.timeout == timeout && View(now) == LazyInit(timeout, now)
    {
      this.timeout := timeout;
      lastTick, done, timer, cancelledAt := now, false, None, None;
      new;
      if timeout <= 0 {
        return;
      }
      timer := Some(now + timeout);
    }

    method Tickle(now: int)
      modifies this`lastTick
      ensures View(now) == LazyApply(old(View(now)), Reset)
    {
      if timeout <= 0 || done {
        return;
      }
      lastTick := now;
    }

    method Disarm(now: int)
      modifies this`done, this`timer
      ensures View(now) == LazyApply(old(View(now)), Stop)
    {
      if timeout <= 0 || done {
        return;
      }
      done := true;
      timer := None;
    }

    method TimerFires(now: int)
      requires LazyEnabled(View(now), Fire)
      modifies this
      ensures View(now) == LazyApply(old(View(now)), Fire)
    {
      timer := None;
      if done {
        return;
      }
      var elapsed := now - lastTick;
      if elapsed >= timeout {
        done := true;
        cancelledAt := Some(now);
        return;
      }
      timer := Some(now + (timeout - elapsed));
    }

    ghost predicate Valid(now: int)
      reads this
    {
      LazyOk(View(now))
    }

    /** Time passes, and the timer goroutine runs whenever the timer is due. */
    method Await(from: int, to: int) returns (ghost steps: seq<Event>)
      requires Valid(from) && from <= to
      modifies this
      ensures Valid(to) && LazyRun(old(View(from)), steps, View(to)) && Calls(from, steps) == []
      ensures lastTick == old(lastTick) && (timer.Some? ==> to < timer.value)
      ensures var expired := timeout > 0 && !old(done) && lastTick + timeout <= to;
        && done == (old(done) || expired)
        && cancelledAt == if expired then Some(lastTick + timeout) else old(cancelledAt)
    {
      hide Calls;
      steps := [];
      var now := from;
      ghost var begin := View(from);
      while timer.Some? && timer.value <= to
        invariant Valid(now) && now <= to && LazyRun(begin, steps, View(now))
        invariant lastTick == old(lastTick)
        invariant || (done == old(done) && cancelledAt == old(cancelledAt))
                  || (done && !old(done) && 0 < timeout <= to - lastTick && cancelledAt == Some(lastTick + timeout))
        invariant forall k :: 0 <= k < |steps| ==> steps[k].Advance? || steps[k].Fire?
        decreases if timer.Some? then to - timer.value + 1 else 0
      {
        ghost var before := View(now);
        ghost var wait := [Advance(timer.value - now), Fire];
        now := timer.value;
        TimerFires(now);
        TwoSteps(before, wait[0], wait[1], View(now));
        RunAppend(begin, steps, before, wait, View(now));
        steps := steps + wait;
      }
      ghost var pass := [Advance(to - now)];
      OneStep(View(now), pass[0], View(to));
      RunAppend(begin, steps, View(now), pass, View(to));
      steps := steps + pass;
      QuietSteps(from, steps);
    }

    /** One call at its time. */
    method Serve(from: int, call: (int, Event)) returns (ghost steps: seq<Event>)
      requires Valid(from) && from <= call.0 && (call.1.Reset? || call.1.Stop?)
      modifies this
      ensures Valid(call.0) && LazyRun(old(View(from)), steps, View(call.0)) && Calls(from, steps) == [call]
      ensures var expired := timeout > 0 && !old(done) && old(lastTick) + timeout <= call.0;
        && cancelledAt == (if expired then Some(old(lastTick) + timeout) else old(cancelledAt))
        && (timeout > 0 ==> done == (old(done) || expired || call.1.Stop?))
        && (timeout > 0 && !done ==> lastTick == call.0)
    {
      hide LazyRun, Calls, LazyApply;
      ghost var begin := View(from);
      steps := Await(from, call.0);
      ghost var before := View(call.0);
      if call.1.Reset? {
        Tickle(call.0);
      } else {
        Disarm(call.0);
      }
      Called(before, call.1, View(call.0));
      RunAppend(begin, steps, before, [call.1], View(call.0));
      CallsAppend(begin, steps, before, [call.1]);
      steps := steps + [call.1];
    }

    /** What is still to come, from a script of which some calls have been served. */
    ghost predicate OnCourse(outcome: Option<int>, rest: seq<(int, Event)>, end: int)
      reads this
    {
      timeout > 0 ==> outcome == if done then cancelledAt else Silence(timeout, lastTick, rest, end)
    }

    /** The watchdog under any script of calls.  Each call waits for its time; what happens is a run of
        the lazy watchdog with exactly these calls, and cancel comes at the first silence, if any. */
    method Play(start: int, script: seq<(int, Event)>, end: int) returns (ghost es: seq<Event>)
      requires View(start) == LazyInit(timeout, start) && IsScript(start, script, end)
      modifies this
      ensures LazyRun(LazyInit(timeout, start), es, View(end)) && Calls(start, es) == script
      ensures cancelledAt == if timeout > 0 then Silence(timeout, start, script, end) else None
    {
      hide LazyRun, Calls;
      var now := start;
      ghost var begin, outcome := View(start), Silence(timeout, start, script, end);
      es := [];
      Nothing(begin);
      for k := 0 to |script|
        invariant Valid(now) && IsScript(now, script[k..], end) && OnCourse(outcome, script[k..], end)
        invariant LazyRun(begin, es, View(now)) && Calls(start, es) == script[..k]
      {
        ghost var before := View(now);
        assert script[k..][0] == script[k] && script[k..][1..] == script[k + 1..];
        ghost var steps := Serve(now, script[k]);
        now := script[k].0;
        RunAppend(begin, es, before, steps, View(now));
        CallsAppend(begin, es, before, steps);
        es := es + steps;
      }
      ghost var before := View(now);
      ghost var steps := Await(now, end);
      RunAppend(begin, es, before, steps, View(end));
      CallsAppend(begin, es, before, steps);
      es := es + steps;
    }
  }

  lemma Nothing(l: Lazy)
    ensures LazyRun(l, [], l) && Calls(l.now, []) == []
  {
  }

  lemma OneStep(l: Lazy, e: Event, m: Lazy)
    requires LazyEnabled(l, e) && m == LazyApply(l, e)
    ensures LazyRun(l, [e], m)
  {
    assert [e][1..] == [] && LazyRun(m, [], m);
  }

  lemma TwoSteps(l: Lazy, e: Event, f: Event, m: Lazy)
    requires LazyEnabled(l, e) && LazyEnabled(LazyApply(l, e), f) && m == LazyApply(LazyApply(l, e), f)
    ensures LazyRun(l, [e, f], m)
  {
    OneStep(LazyApply(l, e), f, m);
    assert [e, f][1..] == [f];
  }

  lemma Called(l: Lazy, e: Event, m: Lazy)
    requires LazyOk(l) && (e.Reset? || e.Stop?) && m == LazyApply(l, e)
    ensures LazyRun(l, [e], m) && Calls(l.now, [e]) == [(l.now, e)] && LazyOk(m)
    ensures m.now == l.now && m.timeout == l.timeout && m.cancelledAt == l.cancelledAt
    ensures l.timeout > 0 && !l.done ==> m.done == e.Stop? && (e.Reset? ==> m.lastTick == l.now)
    ensures l.timeout > 0 && l.done ==> m.done
  {
    OneStep(l, e, m);
    assert [e][1..] == [];
    assert Calls(l.now, []) == [];
  }
}
