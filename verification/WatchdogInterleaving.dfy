/** idleWatchdog at the granularity of its atomic operations: any number of concurrent Reset and Stop
    calls and every timer goroutine interleave freely between a done-load, a clock read, a tick load
    or store, a compare-and-swap, a timer operation and the cancel call.  The clock is monotone.  The
    watchdog is one with a positive timeout; with any other, Reset, Stop and the timer do nothing. */
module WatchdogInterleaving {
  import opened Octets

  /** Program counters, with the values already read. */
  datatype FirePc = FStart | FLoaded | FClocked(clock: int) | FTicked(clock: int, tick: int) | FWon(clock: int, tick: int) | FEnd

  datatype ResetPc = RStart | RLoaded | RClocked(clock: int) | REnd

  datatype StopPc = SStart | SWon | SEnd

  datatype Winner = Nobody | Firing | Stopping

  /** A moment of a run: the clock, the latest timestamp any Reset had stored by then, and the timestamps
      stored since a fire last loaded its tick, in order. */
  datatype Moment = Moment(at: int, latest: int, stored: seq<int>)

  /** From winner on the fields are histories: who won the done flag, the (clock, tick) pairs of the
      cancel calls, how often the timer was re-armed after done was set, the latest clock value that any
      Reset has stored, that value when a fire last loaded its tick, what was stored since, and the
      moments at which a fire won the flag and at which it called cancel. */
  datatype State = State(
    timeout: int,
    now: int,
    lastTick: int,
    done: bool,
    timer: Option<int>,
    fires: seq<FirePc>,
    resets: seq<ResetPc>,
    stops: seq<StopPc>,
    winner: Winner,
    cancels: seq<(int, int)>,
    rearmsAfterDone: nat,
    latest: int,
    latestSeen: int,
    stored: seq<int>,
    flag: Option<Moment>,
    call: Option<Moment>)

  datatype Event =
    | Tick(delta: nat)
    | Expire
    | FireStep(k: nat)
    | CallReset
    | ResetStep(k: nat)
    | CallStop
    | StopStep(k: nat)

  function Init(timeout: int, start: int): State {
    State(timeout, start, start, false, Some(start + timeout), [], [], [], Nobody, [], 0, start, start,
          [], None, None)
  }

  function Fire(s: State, k: nat): State
    requires k < |s.fires|
  {
    match s.fires[k]
    case FStart => s.(fires := s.fires[k := if s.done then FEnd else FLoaded])
    case FLoaded => s.(fires := s.fires[k := FClocked(s.now)])
    case FClocked(clock) => s.(fires := s.fires[k := FTicked(clock, s.lastTick)], latestSeen := s.latest, stored := [])
    case FTicked(clock, tick) =>
      if clock - tick >= s.timeout then
        if s.done then s.(fires := s.fires[k := FEnd])
        else s.(done := true, winner := Firing, fires := s.fires[k := FWon(clock, tick)],
                flag := Some(Moment(s.now, s.latest, s.stored)))
      else
        s.(timer := Some(s.now + (s.timeout - (clock - tick))),
           rearmsAfterDone := s.rearmsAfterDone + (if s.done then 1 else 0),
           fires := s.fires[k := FEnd])
    case FWon(clock, tick) =>
      s.(cancels := s.cancels + [(clock, tick)], fires := s.fires[k := FEnd],
         call := Some(Moment(s.now, s.latest, s.stored)))
    case FEnd => s
  }

  function Reset(s: State, k: nat): State
    requires k < |s.resets|
  {
    match s.resets[k]
    case RStart => s.(resets := s.resets[k := if s.done then REnd else RLoaded])
    case RLoaded => s.(resets := s.resets[k := RClocked(s.now)])
    case RClocked(clock) =>
      s.(lastTick := clock, resets := s.resets[k := REnd], latest := if clock > s.latest then clock else s.latest,
         stored := s.stored + [clock])
    case REnd => s
  }

  function Stop(s: State, k: nat): State
    requires k < |s.stops|
  {
    match s.stops[k]
    case SStart =>
      if s.done then s.(stops := s.stops[k := SEnd])
      else s.(done := true, winner := Stopping, stops := s.stops[k := SWon])
    case SWon => s.(timer := None, stops := s.stops[k := SEnd])
    case SEnd => s
  }

  /** A step that is not enabled changes nothing. */
  function Step(s: State, e: Event): State {
    match e
    case Tick(delta) => s.(now := s.now + delta)
    case Expire =>
      if s.timer.Some? && s.timer.value <= s.now then s.(timer := None, fires := s.fires + [FStart]) else s
    case FireStep(k) => if k < |s.fires| then Fire(s, k) else s
    case CallReset => s.(resets := s.resets + [RStart])
    case ResetStep(k) => if k < |s.resets| then Reset(s, k) else s
    case CallStop => s.(stops := s.stops + [SStart])
    case StopStep(k) => if k < |s.stops| then Stop(s, k) else s
  }

  function Exec(timeout: int, start: int, es: seq<Event>): State {
    if es == [] then Init(timeout, start)
    else Step(Exec(timeout, start, es[..|es| - 1]), es[|es| - 1])
  }

  // ----- The invariant

  /** The timer goroutine that may still act, if any. */
  function Active(s: State): FirePc {
    if s.fires == [] then FEnd else s.fires[|s.fires| - 1]
  }

  /** A fire arms the timer only with its last action, so fires never overlap. */
  ghost predicate OneFire(s: State) {
    && (forall k :: 0 <= k < |s.fires| - 1 ==> s.fires[k] == FEnd)
    && (s.timer.Some? ==> Active(s) == FEnd)
  }

  /** Past the done-load and before the verdict. */
  predicate Deciding(pc: FirePc) {
    pc.FLoaded? || pc.FClocked? || pc.FTicked?
  }

  ghost predicate FlagOk(s: State) {
    && (s.done <==> s.winner != Nobody)
    && (s.winner == Firing ==> |s.cancels| + (if Active(s).FWon? then 1 else 0) == 1)
    && (s.winner == Firing ==> s.timer.None? && (Active(s).FWon? || Active(s).FEnd?))
    && (s.winner != Firing ==> s.cancels == [] && !Active(s).FWon?)
    && (!s.done ==> s.rearmsAfterDone == 0)
    && s.rearmsAfterDone + (if s.done && Deciding(Active(s)) then 1 else 0) <= 1
  }

  ghost predicate ReadingsOk(s: State) {
    && (Active(s).FWon? ==> Active(s).clock - Active(s).tick >= s.timeout)
    && (forall k :: 0 <= k < |s.cancels| ==> s.cancels[k].0 - s.cancels[k].1 >= s.timeout)
  }

  ghost predicate Inv(s: State) {
    OneFire(s) && FlagOk(s) && ReadingsOk(s)
  }

  lemma FireInv(s: State, k: nat)
    requires Inv(s) && k < |s.fires|
    ensures Inv(Fire(s, k)) && Fire(s, k).timeout == s.timeout
  {
    if k < |s.fires| - 1 {
      assert Fire(s, k) == s;
    }
  }

  lemma StepInv(s: State, e: Event)
    requires Inv(s)
    ensures Inv(Step(s, e)) && Step(s, e).timeout == s.timeout
  {
    if e.FireStep? {
      if e.k < |s.fires| {
        FireInv(s, e.k);
      }
    } else {
      OtherInv(s, e);
    }
  }

  lemma OtherInv(s: State, e: Event)
    requires Inv(s) && !e.FireStep?
    ensures Inv(Step(s, e)) && Step(s, e).timeout == s.timeout
  {
    if e.Expire? {
      ExpireInv(s);
    } else {
      assert Step(s, e).fires == s.fires;
    }
  }

  lemma ExpireInv(s: State)
    requires Inv(s)
    ensures Inv(Step(s, Expire)) && Step(s, Expire).timeout == s.timeout
  {
    assert s.fires != [] ==> s.fires[|s.fires| - 1] == Active(s);
  }

  lemma {:induction false} ExecInv(timeout: int, start: int, es: seq<Event>)
    ensures Inv(Exec(timeout, start, es)) && Exec(timeout, start, es).timeout == timeout
  {
    if es != [] {
      ExecInv(timeout, start, es[..|es| - 1]);
      StepInv(Exec(timeout, start, es[..|es| - 1]), es[|es| - 1]);
    }
  }

  // ----- Safety over every interleaving

  /** cancel is called at most once, never when a Stop won the flag, and only by a fire whose tick
      was at least timeout older than its clock. */
  lemma CancelSafety(timeout: int, start: int, es: seq<Event>)
    ensures var s := Exec(timeout, start, es);
      && |s.cancels| <= 1
      && (s.winner == Stopping ==> s.cancels == [])
      && (s.cancels != [] ==> s.winner == Firing && s.done)
      && (forall k :: 0 <= k < |s.cancels| ==> s.cancels[k].0 - s.cancels[k].1 >= timeout)
  {
    ExecInv(timeout, start, es);
  }

  lemma {:induction false} WinnerIsFinal(timeout: int, start: int, es: seq<Event>, fs: seq<Event>)
    requires Exec(timeout, start, es).winner != Nobody
    ensures Exec(timeout, start, es + fs).winner == Exec(timeout, start, es).winner
    decreases |fs|
  {
    if fs == [] {
      assert es + fs == es;
    } else {
      var rest := fs[..|fs| - 1];
      WinnerIsFinal(timeout, start, es, rest);
      assert (es + fs)[..|es + fs| - 1] == es + rest;
      ExecInv(timeout, start, es + rest);
    }
  }

  /** Once a Stop has won the flag no continuation ever cancels, even when a fire that had passed its
      done-load re-arms the timer after that Stop; and it can do that only once. */
  lemma StopIsPermanent(timeout: int, start: int, es: seq<Event>, fs: seq<Event>)
    requires Exec(timeout, start, es).winner == Stopping
    ensures Exec(timeout, start, es + fs).cancels == []
    ensures Exec(timeout, start, es + fs).rearmsAfterDone <= 1
  {
    WinnerIsFinal(timeout, start, es, fs);
    ExecInv(timeout, start, es + fs);
  }

  /** Timer goroutines never overlap, and none runs while the timer is armed. */
  lemma FiresNeverOverlap(timeout: int, start: int, es: seq<Event>, j: nat, k: nat)
    requires j < k < |Exec(timeout, start, es).fires|
    ensures Exec(timeout, start, es).fires[j] == FEnd
    ensures Exec(timeout, start, es).timer.Some? ==> Exec(timeout, start, es).fires[k] == FEnd
  {
    ExecInv(timeout, start, es);
  }

  // ----- A live watchdog is never deaf

  /** Someone will look at the timestamp again, unless the flag is set. */
  ghost predicate Alive(s: State) {
    && (!s.done ==> s.timer.Some? || Active(s) != FEnd)
    && (forall k :: 0 <= k < |s.stops| && s.stops[k] == SWon ==> s.done)
  }

  lemma AliveStep(s: State, e: Event)
    requires Inv(s) && Alive(s)
    ensures Alive(Step(s, e))
  {
    if e.FireStep? && e.k < |s.fires| - 1 {
      assert Step(s, e) == s;
    }
  }

  lemma {:induction false} NeverDeaf(timeout: int, start: int, es: seq<Event>)
    ensures Alive(Exec(timeout, start, es))
  {
    if es != [] {
      NeverDeaf(timeout, start, es[..|es| - 1]);
      ExecInv(timeout, start, es[..|es| - 1]);
      AliveStep(Exec(timeout, start, es[..|es| - 1]), es[|es| - 1]);
      hide Alive, Inv, Step;
    }
  }

  // ----- Did the fire that cancels see the right timestamp?

  /** The fire that cancelled was misled: when it loaded its tick, a timestamp less than timeout old had
      been stored. */
  predicate Misled(s: State) {
    s.cancels != [] && s.cancels[0].0 - s.latestSeen < s.timeout
  }

  /** Resets that do not overlap, as when they come from the serial Reads of one body. */
  ghost predicate SerialResets(timeout: int, start: int, es: seq<Event>) {
    forall i :: 0 <= i < |es| && es[i] == CallReset ==> NoResetActive(Exec(timeout, start, es[..i]))
  }

  ghost predicate NoResetActive(s: State) {
    forall k :: 0 <= k < |s.resets| ==> s.resets[k] == REnd
  }

  ghost predicate TicksOk(s: State) {
    && s.lastTick == s.latest <= s.now
    && (forall k :: 0 <= k < |s.resets| - 1 ==> s.resets[k] == REnd)
    && (s.resets != [] && s.resets[|s.resets| - 1].RClocked? ==>
          s.latest <= s.resets[|s.resets| - 1].clock <= s.now)
    && (Active(s).FTicked? || Active(s).FWon? ==> Active(s).tick == s.latestSeen)
    && (s.cancels != [] ==> |s.cancels| == 1 && s.cancels[0].1 == s.latestSeen && s.done)
  }

  lemma TicksFire(s: State, k: nat)
    requires Inv(s) && TicksOk(s) && k < |s.fires|
    ensures TicksOk(Fire(s, k))
  {
    if k < |s.fires| - 1 {
      assert Fire(s, k) == s;
    }
  }

  lemma TicksReset(s: State, k: nat)
    requires Inv(s) && TicksOk(s) && k < |s.resets|
    ensures TicksOk(Reset(s, k))
  {
    hide Inv;
    if k < |s.resets| - 1 {
      assert Reset(s, k) == s;
    }
  }

  lemma TicksStep(s: State, e: Event)
    requires Inv(s) && TicksOk(s) && (e == CallReset ==> NoResetActive(s))
    ensures TicksOk(Step(s, e))
  {
    match e
    case FireStep(k) =>
      if k < |s.fires| {
        TicksFire(s, k);
      }
    case ResetStep(k) =>
      if k < |s.resets| {
        TicksReset(s, k);
      }
    case _ => TicksOther(s, e);
  }

  lemma TicksOther(s: State, e: Event)
    requires Inv(s) && TicksOk(s) && !e.FireStep? && !e.ResetStep? && (e == CallReset ==> NoResetActive(s))
    ensures TicksOk(Step(s, e))
  {
    hide Inv;
  }

  lemma {:induction false} TicksExec(timeout: int, start: int, es: seq<Event>)
    requires SerialResets(timeout, start, es)
    ensures TicksOk(Exec(timeout, start, es))
  {
    if es != [] {
      var rest := es[..|es| - 1];
      assert forall i :: 0 <= i < |rest| ==> rest[..i] == es[..i];
      TicksExec(timeout, start, rest);
      ExecInv(timeout, start, rest);
      TicksStep(Exec(timeout, start, rest), es[|es| - 1]);
    }
  }

  /** Serial Resets never mislead a fire: when it loads its tick, the latest timestamp stored is the one
      it finds, so a fire that cancels had looked when that was at least timeout old. */
  lemma NeverMisled(timeout: int, start: int, es: seq<Event>)
    requires SerialResets(timeout, start, es)
    ensures !Misled(Exec(timeout, start, es))
  {
    TicksExec(timeout, start, es);
    CancelSafety(timeout, start, es);
    ExecInv(timeout, start, es);
  }

  // ----- Was the stream idle when the flag was won, and when cancel was called?

  predicate TooSoon(m: Moment, timeout: int) {
    m.at - m.latest < timeout
  }

  /** A fire won the flag less than timeout after a timestamp that had been stored by then. */
  predicate EarlyAtFlag(s: State) {
    s.flag.Some? && TooSoon(s.flag.value, s.timeout)
  }

  /** The same of the call of cancel. */
  predicate EarlyAtCall(s: State) {
    s.call.Some? && TooSoon(s.call.value, s.timeout)
  }

  /** latest is the maximum of seen and what was stored since. */
  ghost predicate IsLatest(latest: int, seen: int, stored: seq<int>) {
    && seen <= latest && (forall k :: 0 <= k < |stored| ==> stored[k] <= latest)
    && (latest == seen || latest in stored)
  }

  ghost predicate FlagMoment(s: State) {
    && (s.flag.Some? <==> s.winner == Firing)
    && (s.flag.Some? ==>
          && IsLatest(s.flag.value.latest, s.latestSeen, s.flag.value.stored)
          && s.flag.value.at <= s.now && s.flag.value.stored <= s.stored)
  }

  ghost predicate CallMoment(s: State) {
    && (s.call.Some? <==> s.cancels != [])
    && (s.call.Some? ==>
          && s.flag.Some? && IsLatest(s.call.value.latest, s.latestSeen, s.call.value.stored)
          && s.flag.value.at <= s.call.value.at && s.flag.value.stored <= s.call.value.stored)
  }

  ghost predicate ReadingsInOrder(s: State) {
    && (Active(s).FClocked? || Active(s).FTicked? ==> Active(s).clock <= s.now)
    && (Active(s).FWon? ==> s.flag.Some? && Active(s).clock <= s.flag.value.at)
    && (s.cancels != [] ==> s.flag.Some? && s.cancels[0].0 <= s.flag.value.at)
  }

  ghost predicate MomentsOk(s: State) {
    IsLatest(s.latest, s.latestSeen, s.stored) && FlagMoment(s) && CallMoment(s) && ReadingsInOrder(s)
  }

  lemma StoreIsLatest(latest: int, seen: int, stored: seq<int>, clock: int)
    requires IsLatest(latest, seen, stored)
    ensures IsLatest(if clock > latest then clock else latest, seen, stored + [clock])
  {
    assert (stored + [clock])[|stored|] == clock;
    if latest in stored {
      var k :| 0 <= k < |stored| && stored[k] == latest;
      assert (stored + [clock])[k] == latest;
    }
  }

  lemma NothingStored(seen: int)
    ensures IsLatest(seen, seen, [])
  {
  }

  lemma MomentsFire(s: State, k: nat)
    requires Inv(s) && MomentsOk(s) && k < |s.fires|
    ensures MomentsOk(Fire(s, k))
  {
    hide IsLatest;
    if k < |s.fires| - 1 {
      assert Fire(s, k) == s;
    } else {
      NothingStored(s.latest);
    }
  }

  lemma MomentsStep(s: State, e: Event)
    requires Inv(s) && MomentsOk(s)
    ensures MomentsOk(Step(s, e))
  {
    hide IsLatest;
    match e
    case FireStep(k) =>
      if k < |s.fires| {
        MomentsFire(s, k);
      }
    case ResetStep(k) =>
      if k < |s.resets| && s.resets[k].RClocked? {
        StoreIsLatest(s.latest, s.latestSeen, s.stored, s.resets[k].clock);
      }
    case _ => MomentsOther(s, e);
  }

  lemma MomentsOther(s: State, e: Event)
    requires Inv(s) && MomentsOk(s) && !e.FireStep? && !e.ResetStep?
    ensures MomentsOk(Step(s, e))
  {
    hide IsLatest;
    if e.Expire? {
      assert s.timer.Some? ==> s.winner != Firing;
    } else {
      assert Step(s, e).fires == s.fires;
    }
  }

  lemma {:induction false} MomentsExec(timeout: int, start: int, es: seq<Event>)
    ensures MomentsOk(Exec(timeout, start, es))
  {
    if es == [] {
      NothingStored(start);
    } else {
      MomentsExec(timeout, start, es[..|es| - 1]);
      ExecInv(timeout, start, es[..|es| - 1]);
      MomentsStep(Exec(timeout, start, es[..|es| - 1]), es[|es| - 1]);
      hide MomentsOk, Inv, Step;
    }
  }

  /** Some timestamp stored since the look was less than timeout old at the moment. */
  ghost predicate MissedStore(m: Moment, timeout: int) {
    exists k :: 0 <= k < |m.stored| && m.at - m.stored[k] < timeout
  }

  lemma TooSoonIff(m: Moment, seen: int, timeout: int)
    requires IsLatest(m.latest, seen, m.stored)
    ensures TooSoon(m, timeout) <==> m.at - seen < timeout || MissedStore(m, timeout)
  {
    if m.latest in m.stored {
      var k :| 0 <= k < |m.stored| && m.stored[k] == m.latest;
    }
  }

  /** Exactly when the flag is won too soon, and exactly when cancel is called too soon: the fire had
      seen a fresh timestamp stored, or one was stored between its look and that moment. */
  lemma {:induction false} EarlyIff(timeout: int, start: int, es: seq<Event>)
    ensures var s := Exec(timeout, start, es);
      && (s.flag.Some? ==>
            (EarlyAtFlag(s) <==> s.flag.value.at - s.latestSeen < timeout || MissedStore(s.flag.value, timeout)))
      && (s.call.Some? ==>
            (EarlyAtCall(s) <==> s.call.value.at - s.latestSeen < timeout || MissedStore(s.call.value, timeout)))
  {
    var s := Exec(timeout, start, es);
    MomentsExec(timeout, start, es);
    ExecInv(timeout, start, es);
    hide Exec, IsLatest, MissedStore;
    if s.flag.Some? {
      TooSoonIff(s.flag.value, s.latestSeen, timeout);
    }
    if s.call.Some? {
      TooSoonIff(s.call.value, s.latestSeen, timeout);
    }
  }

  /** With serial Resets only the second can happen: the cancellation is too soon iff a timestamp less
      than timeout old was stored after the fire had loaded its tick and before it won the flag, or
      before it called cancel. */
  lemma {:induction false} SerialEarlyIff(timeout: int, start: int, es: seq<Event>)
    requires SerialResets(timeout, start, es)
    ensures var s := Exec(timeout, start, es);
      && (s.flag.Some? ==> (EarlyAtFlag(s) <==> MissedStore(s.flag.value, timeout)))
      && (s.call.Some? ==> (EarlyAtCall(s) <==> MissedStore(s.call.value, timeout)))
  {
    var s := Exec(timeout, start, es);
    EarlyIff(timeout, start, es);
    TicksExec(timeout, start, es);
    MomentsExec(timeout, start, es);
    ExecInv(timeout, start, es);
    hide Exec, IsLatest, MissedStore;
    assert s.flag.Some? ==> s.flag.value.at - s.latestSeen >= timeout;
  }

  // ----- Continuations

  /** No timestamp lies in the future. */
  ghost predicate ClockOk(s: State) {
    && s.lastTick <= s.now && s.latest <= s.now
    && (forall k :: 0 <= k < |s.resets| && s.resets[k].RClocked? ==> s.resets[k].clock <= s.now)
  }

  lemma ClockStep(s: State, e: Event)
    requires ClockOk(s)
    ensures ClockOk(Step(s, e))
  {
  }

  lemma {:induction false} ClockExec(timeout: int, start: int, es: seq<Event>)
    ensures ClockOk(Exec(timeout, start, es))
  {
    if es != [] {
      ClockExec(timeout, start, es[..|es| - 1]);
      ClockStep(Exec(timeout, start, es[..|es| - 1]), es[|es| - 1]);
      hide ClockOk, Step;
    }
  }

  /** The state after some more events. */
  function Continue(s: State, fs: seq<Event>): State
    decreases |fs|
  {
    if fs == [] then s else Step(Continue(s, fs[..|fs| - 1]), fs[|fs| - 1])
  }

  lemma {:induction false} ExecContinue(timeout: int, start: int, es: seq<Event>, fs: seq<Event>)
    ensures Exec(timeout, start, es + fs) == Continue(Exec(timeout, start, es), fs)
    decreases |fs|
  {
    hide Step;
    if fs == [] {
      assert es + fs == es;
    } else {
      ExecContinue(timeout, start, es, fs[..|fs| - 1]);
      assert (es + fs)[..|es + fs| - 1] == es + fs[..|fs| - 1];
    }
  }

  predicate NoCalls(fs: seq<Event>) {
    forall k :: 0 <= k < |fs| ==> fs[k] != CallReset
  }

  predicate TimerEvent(e: Event) {
    e.Tick? || e.Expire? || e.FireStep?
  }

  /** Time passes and timer goroutines run; no call makes a step. */
  predicate TimerOnly(fs: seq<Event>) {
    forall k :: 0 <= k < |fs| ==> TimerEvent(fs[k])
  }

  /** What every reachable state satisfies, of a watchdog with this timeout. */
  ghost predicate Sound(s: State, timeout: int) {
    Inv(s) && ClockOk(s) && Alive(s) && s.timeout == timeout
  }

  lemma SoundExec(timeout: int, start: int, es: seq<Event>)
    ensures Sound(Exec(timeout, start, es), timeout)
  {
    ExecInv(timeout, start, es);
    ClockExec(timeout, start, es);
    NeverDeaf(timeout, start, es);
  }

  lemma SoundStep(s: State, e: Event)
    requires Sound(s, s.timeout)
    ensures Sound(Step(s, e), s.timeout)
  {
    hide Inv, Alive, ClockOk, Step;
    StepInv(s, e);
    AliveStep(s, e);
    ClockStep(s, e);
  }

  /** One more event at the end of a continuation. */
  lemma Then(s: State, fs: seq<Event>, e: Event) returns (gs: seq<Event>, u: State)
    requires Sound(Continue(s, fs), s.timeout) && NoCalls(fs) && e != CallReset
    ensures gs == fs + [e] && u == Continue(s, gs) == Step(Continue(s, fs), e)
    ensures Sound(u, s.timeout) && NoCalls(gs) && (TimerOnly(fs) && TimerEvent(e) ==> TimerOnly(gs))
  {
    gs := fs + [e];
    u := Step(Continue(s, fs), e);
    assert gs[..|gs| - 1] == fs;
    hide Step, Sound;
    SoundStep(Continue(s, fs), e);
  }

  /** The timer goroutine is about to win the flag. */
  predicate AboutToWin(s: State) {
    Active(s).FTicked? && Active(s).clock - Active(s).tick >= s.timeout && !s.done
  }

  /** t is s later, by time and timer alone. */
  ghost predicate Later(s: State, fs: seq<Event>, t: State) {
    && t == Continue(s, fs) && Sound(t, s.timeout) && TimerOnly(fs) && NoCalls(fs)
    && t.resets == s.resets && t.done == s.done
  }

  lemma TimerStep(s: State, fs: seq<Event>, t: State, e: Event) returns (gs: seq<Event>, u: State)
    requires Later(s, fs, t) && TimerEvent(e) && !t.done && !AboutToWin(t)
    ensures Later(s, gs, u) && u == Step(t, e)
  {
    assert t.timeout == s.timeout;
    hide Sound, Continue;
    gs, u := Then(s, fs, e);
    QuietStep(t, e);
  }

  /** Until a fire wins, the timer changes neither the flag nor the Resets. */
  lemma QuietStep(t: State, e: Event)
    requires Sound(t, t.timeout) && TimerEvent(e) && !t.done && !AboutToWin(t)
    ensures Step(t, e).resets == t.resets && !Step(t, e).done
  {
    if e.FireStep? && e.k < |t.fires| - 1 {
      assert Step(t, e) == t;
    }
  }

  /** A timer goroutine that has not read the clock yet looks at a stale timestamp. */
  lemma LookWhenStale(s: State, fs: seq<Event>, t: State) returns (gs: seq<Event>, u: State)
    requires Later(s, fs, t) && !t.done && s.timeout > 0 && t.now - t.lastTick >= s.timeout
    requires Active(t).FStart? || Active(t).FLoaded?
    ensures Later(s, gs, u) && AboutToWin(u) && u.now == t.now && u.lastTick == t.lastTick && u.latest == t.latest
    ensures u.latestSeen == t.latest && u.stored == [] && Active(u) == FTicked(t.now, t.lastTick)
  {
    assert t.timeout == s.timeout;
    hide Continue, Sound;
    var k := |t.fires| - 1;
    gs, u := fs, t;
    if Active(t).FStart? {
      gs, u := TimerStep(s, gs, u, FireStep(k));
    }
    gs, u := TimerStep(s, gs, u, FireStep(k));
    gs, u := TimerStep(s, gs, u, FireStep(k));
  }

  /** The same from an armed timer that is due. */
  lemma FireWhenStale(s: State, fs: seq<Event>, t: State) returns (gs: seq<Event>, u: State)
    requires Later(s, fs, t) && !t.done && s.timeout > 0 && t.now - t.lastTick >= s.timeout
    requires t.timer.Some? && t.timer.value <= t.now
    ensures Later(s, gs, u) && AboutToWin(u) && u.now == t.now && u.lastTick == t.lastTick && u.latest == t.latest
    ensures u.latestSeen == t.latest && u.stored == [] && Active(u) == FTicked(t.now, t.lastTick)
  {
    assert Active(t) == FEnd;
    hide Continue, Sound;
    gs, u := TimerStep(s, fs, t, Expire);
    gs, u := LookWhenStale(s, gs, u);
  }

  /** The same from any armed timer, after a wait. */
  lemma WaitAndFire(s: State, fs: seq<Event>, t: State) returns (gs: seq<Event>, u: State)
    requires Later(s, fs, t) && !t.done && s.timeout > 0 && t.timer.Some?
    ensures Later(s, gs, u) && AboutToWin(u)
  {
    assert t.lastTick <= t.now && t.timeout == s.timeout && Active(t) == FEnd;
    hide Continue, Sound;
    gs, u := TimerStep(s, fs, t, Tick(if t.timer.value - t.now > s.timeout then t.timer.value - t.now else s.timeout));
    gs, u := FireWhenStale(s, gs, u);
  }

  /** A live watchdog, in whatever state, comes to the point of winning the flag if nothing resets it. */
  lemma ComeToWin(s: State) returns (fs: seq<Event>, t: State)
    requires Sound(s, s.timeout) && !s.done && s.timeout > 0
    ensures Later(s, fs, t) && AboutToWin(t)
  {
    fs, t := [], s;
    assert Continue(s, []) == s;
    var k, pc := |s.fires| - 1, Active(s);
    assert s.timer.Some? || pc != FEnd;
    assert s.lastTick <= s.now && (s.winner != Firing ==> !pc.FWon?) && s.winner == Nobody;
    hide Continue, Sound;
    if s.timer.None? && (pc.FStart? || pc.FLoaded?) {
      fs, t := TimerStep(s, fs, t, Tick(s.timeout));
      fs, t := LookWhenStale(s, fs, t);
    } else if s.timer.None? {
      if pc.FClocked? {
        fs, t := TimerStep(s, fs, t, FireStep(k));
      }
      if !AboutToWin(t) {
        fs, t := TimerStep(s, fs, t, FireStep(k));
        fs, t := WaitAndFire(s, fs, t);
      }
    } else {
      fs, t := WaitAndFire(s, fs, t);
    }
  }

  /** The last two steps: the flag, then cancel. */
  lemma WinAndCancel(s: State, fs: seq<Event>, t: State) returns (gs: seq<Event>, u: State)
    requires t == Continue(s, fs) && Sound(t, s.timeout) && NoCalls(fs) && AboutToWin(t)
    ensures u == Continue(s, gs) && Sound(u, s.timeout) && NoCalls(gs) && (TimerOnly(fs) ==> TimerOnly(gs))
    ensures u.cancels == [(Active(t).clock, Active(t).tick)] && u.latestSeen == t.latestSeen && u.timeout == t.timeout && u.now == t.now
    ensures u.flag == u.call == Some(Moment(t.now, t.latest, t.stored))
  {
    assert t.cancels == [] && t.timeout == s.timeout;
    var k := |t.fires| - 1;
    hide Continue, Sound, Step;
    WinStep(t, k);
    gs, u := Then(s, fs, FireStep(k));
    CancelStep(u, k);
    gs, u := Then(s, gs, FireStep(k));
  }

  lemma WinStep(s: State, k: nat)
    requires AboutToWin(s) && k == |s.fires| - 1
    ensures var pc := Active(s);
      Step(s, FireStep(k)) == s.(done := true, winner := Firing, fires := s.fires[k := FWon(pc.clock, pc.tick)],
                                 flag := Some(Moment(s.now, s.latest, s.stored)))
  {
  }

  lemma CancelStep(s: State, k: nat)
    requires k < |s.fires| && s.fires[k].FWon?
    ensures var pc := s.fires[k];
      Step(s, FireStep(k)) == s.(cancels := s.cancels + [(pc.clock, pc.tick)], fires := s.fires[k := FEnd],
                                 call := Some(Moment(s.now, s.latest, s.stored)))
  {
  }

  /** In every reachable state of a live watchdog, time and the timer alone lead to cancel. */
  lemma {:induction false} StillCancels(timeout: int, start: int, es: seq<Event>) returns (fs: seq<Event>)
    requires timeout > 0 && !Exec(timeout, start, es).done
    ensures TimerOnly(fs) && |Exec(timeout, start, es + fs).cancels| == 1
  {
    hide Exec;
    SoundExec(timeout, start, es);
    var s := Exec(timeout, start, es);
    assert s.timeout == timeout;
    var t;
    hide Sound, Continue;
    fs, t := ComeToWin(s);
    fs, t := WinAndCancel(s, fs, t);
    ExecContinue(timeout, start, es, fs);
  }

  // ----- Overlapping Resets mislead

  /** The steps of one Reset up to the reading of a clock no later than now. */
  lemma ReadClock(s: State, i: nat) returns (fs: seq<Event>, t: State, clock: int)
    requires Sound(s, s.timeout) && i < |s.resets| && s.resets[i] != REnd && !s.done
    ensures t == Continue(s, fs) && NoCalls(fs) && Sound(t, s.timeout)
    ensures clock <= s.now && t == s.(resets := s.resets[i := RClocked(clock)])
  {
    assert Continue(s, []) == s;
    assert s.resets[i].RClocked? ==> s.resets[i].clock <= s.now;
    hide Continue, Sound, Step;
    fs, t, clock := [], s, if s.resets[i].RClocked? then s.resets[i].clock else s.now;
    if s.resets[i] == RStart {
      ReadStep(s, i);
      fs, t := Then(s, fs, ResetStep(i));
    }
    if t.resets[i] == RLoaded {
      ReadStep(t, i);
      fs, t := Then(s, fs, ResetStep(i));
    }
    assert t.resets == s.resets[i := RClocked(clock)];
  }

  lemma ReadStep(s: State, i: nat)
    requires i < |s.resets| && !s.done
    ensures s.resets[i] == RStart ==> Step(s, ResetStep(i)) == s.(resets := s.resets[i := RLoaded])
    ensures s.resets[i] == RLoaded ==> Step(s, ResetStep(i)) == s.(resets := s.resets[i := RClocked(s.now)])
  {
  }

  lemma StoreStep(s: State, i: nat)
    requires i < |s.resets| && s.resets[i].RClocked?
    ensures var clock := s.resets[i].clock;
      Step(s, ResetStep(i)) == s.(lastTick := clock, resets := s.resets[i := REnd],
                                  latest := if clock > s.latest then clock else s.latest, stored := s.stored + [clock])
  {
  }

  lemma TickStep(s: State, d: nat)
    ensures Step(s, Tick(d)) == s.(now := s.now + d)
  {
  }

  /** A Reset that has just been called runs through: now is stored. */
  lemma StoreNow(s: State, fs: seq<Event>, t: State, j: nat) returns (gs: seq<Event>, u: State)
    requires t == Continue(s, fs) && Sound(t, s.timeout) && NoCalls(fs) && !t.done
    requires j < |t.resets| && t.resets[j] == RStart
    ensures u == Continue(s, gs) && Sound(u, s.timeout) && NoCalls(gs)
    ensures u == t.(resets := t.resets[j := REnd], lastTick := t.now, latest := t.now, stored := t.stored + [t.now])
  {
    assert t.latest <= t.now;
    hide Continue, Sound, Step;
    ReadStep(t, j);
    gs, u := Then(s, fs, ResetStep(j));
    ReadStep(u, j);
    gs, u := Then(s, gs, ResetStep(j));
    StoreStep(u, j);
    gs, u := Then(s, gs, ResetStep(j));
    assert u.resets == t.resets[j := REnd];
  }

  /** Any overlap can mislead, at every positive timeout: from every reachable state in which the
      watchdog is armed and a Reset has just been called while another one is under way, the calls
      already made and the passing of time can cancel the stream at the very instant at which a
      timestamp was stored, by a fire that looked after that. */
  lemma {:induction false} OverlapCanMislead(timeout: int, start: int, es: seq<Event>, i: nat, j: nat)
    returns (fs: seq<Event>)
    requires timeout > 0
    requires var s := Exec(timeout, start, es);
      && !s.done && s.timer.Some? && i < |s.resets| && j < |s.resets| && i != j
      && s.resets[i] != REnd && s.resets[j] == RStart
    ensures NoCalls(fs) && Misled(Exec(timeout, start, es + fs))
    ensures EarlyAtFlag(Exec(timeout, start, es + fs)) && EarlyAtCall(Exec(timeout, start, es + fs))
  {
    var s := Exec(timeout, start, es);
    hide Exec;
    SoundExec(timeout, start, es);
    assert s.timeout == timeout;
    hide Continue, Sound, Step;
    var t, stale;
    fs, t, stale := ReadClock(s, i);
    var wait := if s.timer.value - s.now > timeout then s.timer.value - s.now else timeout;
    TickStep(t, wait);
    fs, t := Then(s, fs, Tick(wait));
    fs, t := StoreNow(s, fs, t, j);
    StoreStep(t, i);
    fs, t := Then(s, fs, ResetStep(i));
    assert t.lastTick == stale && t.latest == t.now;
    var gs, u := FireFrom(t);
    ContinueSplit(s, fs, gs);
    fs := fs + gs;
    ExecContinue(timeout, start, es, fs);
  }

  /** A due timer finds a stale timestamp and cancels. */
  lemma FireFrom(s: State) returns (fs: seq<Event>, t: State)
    requires Sound(s, s.timeout) && !s.done && s.timeout > 0 && s.now - s.lastTick >= s.timeout
    requires s.timer.Some? && s.timer.value <= s.now
    ensures t == Continue(s, fs) && NoCalls(fs) && t.timeout == s.timeout
    ensures t.cancels == [(s.now, s.lastTick)] && t.latestSeen == s.latest
    ensures t.flag == t.call == Some(Moment(s.now, s.latest, []))
  {
    assert Continue(s, []) == s;
    hide Continue, Sound;
    fs, t := FireWhenStale(s, [], s);
    fs, t := WinAndCancel(s, fs, t);
  }

  lemma {:induction false} ContinueSplit(s: State, fs: seq<Event>, gs: seq<Event>)
    ensures Continue(s, fs + gs) == Continue(Continue(s, fs), gs)
    decreases |gs|
  {
    hide Step;
    if gs == [] {
      assert fs + gs == fs;
    } else {
      ContinueSplit(s, fs, gs[..|gs| - 1]);
      assert (fs + gs)[..|fs + gs| - 1] == fs + gs[..|gs| - 1];
    }
  }

  lemma SerialExtends(timeout: int, start: int, es: seq<Event>, fs: seq<Event>)
    requires SerialResets(timeout, start, es) && NoResetActive(Exec(timeout, start, es)) && NoCalls(fs)
    ensures SerialResets(timeout, start, es + [CallReset] + fs)
  {
    hide Exec, NoResetActive;
    var all := es + [CallReset] + fs;
    assert forall k :: |es| < k < |all| ==> all[k] == fs[k - |es| - 1];
    forall k | 0 <= k < |all| && all[k] == CallReset ensures NoResetActive(Exec(timeout, start, all[..k])) {
      assert k <= |es| && all[..k] == es[..k];
      assert k == |es| ==> es[..k] == es;
    }
  }

  lemma CallStep(timeout: int, start: int, es: seq<Event>)
    ensures Exec(timeout, start, es + [CallReset]) == Step(Exec(timeout, start, es), CallReset)
  {
    assert (es + [CallReset])[..|es + [CallReset]| - 1] == es;
  }

  /** Exactly when one more Reset can mislead.  After a run with serial Resets that left the watchdog
      armed, a new Reset can lead, with no further call, to a cancellation by a misled fire iff another
      Reset is under way. */
  lemma {:induction false} ResetCanMisleadIff(timeout: int, start: int, es: seq<Event>)
    requires timeout > 0 && SerialResets(timeout, start, es)
    requires !Exec(timeout, start, es).done && Exec(timeout, start, es).timer.Some?
    ensures NoResetActive(Exec(timeout, start, es)) <==>
              forall fs :: NoCalls(fs) ==> !Misled(Exec(timeout, start, es + [CallReset] + fs))
  {
    var s, next := Exec(timeout, start, es), es + [CallReset];
    CallStep(timeout, start, es);
    hide Exec;
    if NoResetActive(s) {
      forall fs | NoCalls(fs) ensures !Misled(Exec(timeout, start, next + fs)) {
        SerialExtends(timeout, start, es, fs);
        NeverMisled(timeout, start, next + fs);
      }
    } else {
      var i: nat :| i < |s.resets| && s.resets[i] != REnd;
      var fs := OverlapCanMislead(timeout, start, next, i, |s.resets|);
    }
  }

  /** For example two overlapping Resets at the start, whatever the timeout. */
  lemma {:induction false} TwoResetsCanMislead(timeout: int, start: int) returns (es: seq<Event>)
    requires timeout > 0
    ensures |es| >= 2 && es[..2] == [CallReset, CallReset] && NoCalls(es[2..])
    ensures Misled(Exec(timeout, start, es)) && !SerialResets(timeout, start, es)
  {
    var calls := [CallReset, CallReset];
    assert calls[..1] == [CallReset] && calls[..1][..0] == [];
    assert Exec(timeout, start, []) == Init(timeout, start);
    assert Exec(timeout, start, calls[..1]) == Init(timeout, start).(resets := [RStart]);
    assert Exec(timeout, start, calls) == Init(timeout, start).(resets := [RStart, RStart]);
    hide Exec;
    var fs := OverlapCanMislead(timeout, start, calls, 0, 1);
    es := calls + fs;
    assert es[2..] == fs;
    if SerialResets(timeout, start, es) {
      NeverMisled(timeout, start, es);
    }
  }

  // ----- A lone Reset can be lost

  lemma {:induction false} FlagIsFinal(timeout: int, start: int, es: seq<Event>, fs: seq<Event>)
    requires Exec(timeout, start, es).done
    ensures Exec(timeout, start, es + fs).done && Exec(timeout, start, es + fs).flag == Exec(timeout, start, es).flag
    decreases |fs|
  {
    if fs == [] {
      assert es + fs == es;
    } else {
      FlagIsFinal(timeout, start, es, fs[..|fs| - 1]);
      assert (es + fs)[..|es + fs| - 1] == es + fs[..|fs| - 1];
    }
  }

  /** From every reachable state of a live watchdog, a new Reset can be lost: it runs through, and the
      stream is cancelled at the very instant of its timestamp.  The Resets are still serial if they
      were. */
  lemma {:induction false} ResetCanBeLost(timeout: int, start: int, es: seq<Event>) returns (fs: seq<Event>)
    requires timeout > 0 && !Exec(timeout, start, es).done
    ensures var s := Exec(timeout, start, es + [CallReset] + fs);
      && NoCalls(fs) && EarlyAtFlag(s) && EarlyAtCall(s) && |s.cancels| == 1
      && s.flag.value.at == s.flag.value.latest == s.call.value.at == s.now
    ensures SerialResets(timeout, start, es) && NoResetActive(Exec(timeout, start, es)) ==>
              SerialResets(timeout, start, es + [CallReset] + fs)
  {
    var next := es + [CallReset];
    CallStep(timeout, start, es);
    var s, j := Exec(timeout, start, next), |Exec(timeout, start, es).resets|;
    SoundExec(timeout, start, next);
    assert s.timeout == timeout && s.resets[j] == RStart;
    hide Exec, Sound, Continue;
    var t;
    fs, t := ComeToWin(s);
    fs, t := StoreNow(s, fs, t, j);
    fs, t := WinAndCancel(s, fs, t);
    ExecContinue(timeout, start, next, fs);
    if SerialResets(timeout, start, es) && NoResetActive(Exec(timeout, start, es)) {
      SerialExtends(timeout, start, es, fs);
    }
  }

  /** So a new Reset, serial or not, is sure not to be followed by a flag won within the timeout of a
      stored timestamp iff the flag is set already. */
  lemma {:induction false} ResetIsSafeIff(timeout: int, start: int, es: seq<Event>)
    requires timeout > 0 && !EarlyAtFlag(Exec(timeout, start, es))
    ensures Exec(timeout, start, es).done <==>
              forall fs :: NoCalls(fs) ==> !EarlyAtFlag(Exec(timeout, start, es + [CallReset] + fs))
  {
    hide Exec;
    if Exec(timeout, start, es).done {
      forall fs | NoCalls(fs) ensures !EarlyAtFlag(Exec(timeout, start, es + [CallReset] + fs)) {
        assert es + [CallReset] + fs == es + ([CallReset] + fs);
        FlagIsFinal(timeout, start, es, [CallReset] + fs);
        ExecInv(timeout, start, es);
        ExecInv(timeout, start, es + [CallReset] + fs);
      }
    } else {
      var fs := ResetCanBeLost(timeout, start, es);
    }
  }
}
