/** The staggered dial race of dialApprovedAddresses: one coordinator, one goroutine per started
    address, a buffered result channel, a fallback timer, a cancellable context and a background
    drainer, as a step system over every interleaving.

    The dial contract is part of the model: a dial that returns yields a connection or an error,
    never both.  Addresses are named by their index in the approved list. */
module DialRace {
  import Pigeonhole

  /** 250 milliseconds, in nanoseconds. */
  const FALLBACK_DELAY: int := 250_000_000

  /** Where the goroutine of one address is: not started, inside dial, holding the outcome
      before the channel send, or finished. */
  datatype Phase = Idle | Dialing | Ready(ok: bool) | Sent(ok: bool)

  /** A dialResult, tagged with the address it belongs to. */
  datatype Result = Result(addr: nat, ok: bool)

  datatype Timer = Off | Armed(deadline: int)

  datatype Outcome = Connected(addr: nat) | Cancelled | AllFailed(errs: seq<nat>)

  datatype Coordinator = Selecting | Returned(outcome: Outcome)

  /** One entry of the dial log: which address, when, and how many failures had been received. */
  datatype Start = Start(addr: nat, at: int, failures: nat)

  /** `sent` and `starts` are histories; everything else is state of the program. */
  datatype State = State(
    phases: seq<Phase>,
    results: seq<Result>,
    started: nat,
    completed: nat,
    errs: seq<nat>,
    timer: Timer,
    now: int,
    ctxDone: bool,
    coord: Coordinator,
    quota: nat,
    drained: nat,
    closes: seq<nat>,
    sent: seq<Result>,
    starts: seq<Start>)

  datatype Event =
    | DialReturns(addr: nat, ok: bool)
    | Send(addr: nat)
    | CallerCancels
    | Tick(delta: nat)
    | SelectDone
    | SelectResult
    | SelectTimer
    | Drain

  // ----- The step function

  function StartNext(s: State): State
    requires s.started < |s.phases|
  {
    s.(phases := s.phases[s.started := Dialing],
       started := s.started + 1,
       starts := s.starts + [Start(s.started, s.now, |s.errs|)])
  }

  function Rearm(s: State): State {
    s.(timer := Armed(s.now + FALLBACK_DELAY))
  }

  /** Leaving the function: the deferred timer stop, and a drainer for what is outstanding. */
  function Return(s: State, outcome: Outcome, quota: nat): State {
    s.(coord := Returned(outcome), timer := Off, quota := quota)
  }

  predicate Enabled(s: State, e: Event) {
    match e
    case DialReturns(i, _) => i < |s.phases| && s.phases[i] == Dialing
    case Send(i) => i < |s.phases| && s.phases[i].Ready? && |s.results| < |s.phases|
    case CallerCancels => !s.ctxDone
    case Tick(_) => true
    case SelectDone => s.coord.Selecting? && s.ctxDone && s.completed <= s.started
    case SelectResult => s.coord.Selecting? && s.results != [] && s.completed < s.started
    case SelectTimer => s.coord.Selecting? && s.timer.Armed? && s.timer.deadline <= s.now
    case Drain => s.coord.Returned? && s.quota > 0 && s.results != [] && s.results[0].addr < |s.closes|
  }

  function Apply(s: State, e: Event): State
    requires Enabled(s, e)
  {
    match e
    case DialReturns(i, ok) => s.(phases := s.phases[i := Ready(ok)])
    case Send(i) =>
      var r := Result(i, s.phases[i].ok);
      s.(phases := s.phases[i := Sent(r.ok)], results := s.results + [r], sent := s.sent + [r])
    case CallerCancels => s.(ctxDone := true)
    case Tick(delta) => s.(now := s.now + delta)
    case SelectDone => Return(s, Cancelled, s.started - s.completed)
    case SelectResult => ReceiveResult(s)
    case SelectTimer =>
      var s := s.(timer := Off);
      var s := if s.started < |s.phases| then StartNext(s) else s;
      if s.started < |s.phases| then Rearm(s) else s
    case Drain =>
      var r := s.results[0];
      s.(results := s.results[1..],
         quota := s.quota - 1,
         drained := s.drained + 1,
         closes := if r.ok then s.closes[r.addr := s.closes[r.addr] + 1] else s.closes)
  }

  function AfterFailure(s: State, addr: nat): State {
    var s := s.(errs := s.errs + [addr]);
    if s.started < |s.phases| && s.completed == s.started then Rearm(StartNext(s)) else s
  }

  function ReceiveResult(s: State): State
    requires Enabled(s, SelectResult)
  {
    var r := s.results[0];
    var s := s.(results := s.results[1..], completed := s.completed + 1);
    if r.ok then Return(s, Connected(r.addr), s.started - s.completed)
    else
      var s := AfterFailure(s, r.addr);
      if s.completed < |s.phases| then s else Return(s, AllFailed(s.errs), 0)
  }

  /** A scheduler may ask for a step that is not enabled; nothing happens then. */
  function Step(s: State, e: Event): State {
    if Enabled(s, e) then Apply(s, e) else s
  }

  lemma ResultStep(s: State)
    requires Enabled(s, SelectResult)
    ensures Step(s, SelectResult) == ReceiveResult(s)
  {
  }

  /** The state after the first address was started and the timer created. */
  function Init(n: nat): State
    requires n > 0
  {
    Rearm(StartNext(State(seq(n, _ => Idle), [], 0, 0, [], Off, 0, false, Selecting, 0, 0,
                          seq(n, _ => 0), [], [])))
  }

  /** Every reachable state is Exec(n, es) for some schedule es, and conversely. */
  function Exec(n: nat, es: seq<Event>): State
    requires n > 0
  {
    if es == [] then Init(n) else Step(Exec(n, es[..|es| - 1]), es[|es| - 1])
  }

  // ----- The invariant

  function DialingSet(phases: seq<Phase>): set<nat> {
    set i: nat | i < |phases| && phases[i] == Dialing
  }

  function ReadySet(phases: seq<Phase>): set<nat> {
    set i: nat | i < |phases| && phases[i].Ready?
  }

  /** No address sent twice. */
  ghost predicate OnePerAddress(rs: seq<Result>) {
    forall j, k :: 0 <= j < k < |rs| ==> rs[j].addr != rs[k].addr
  }

  /** Exactly the first `started` addresses were started, and each of them is running or has sent. */
  ghost predicate PhasesOk(phases: seq<Phase>, started: nat, sent: nat) {
    && 1 <= started <= |phases|
    && (forall i :: 0 <= i < |phases| ==> (phases[i].Idle? <==> started <= i))
    && |DialingSet(phases)| + |ReadySet(phases)| + sent == started
  }

  /** The send history has one message for each goroutine that finished, with its outcome. */
  ghost predicate SentOk(phases: seq<Phase>, sent: seq<Result>) {
    && OnePerAddress(sent)
    && (forall j :: 0 <= j < |sent| ==>
          sent[j].addr < |phases| && phases[sent[j].addr] == Sent(sent[j].ok))
    && (forall i :: 0 <= i < |phases| && phases[i].Sent? ==> Result(i, phases[i].ok) in sent)
  }

  /** The coordinator has taken a prefix of the messages: failures, then at most one winner. */
  ghost predicate ErrsOk(sent: seq<Result>, errs: seq<nat>, completed: nat, coord: Coordinator) {
    && |errs| <= completed <= |sent|
    && (forall j :: 0 <= j < |errs| ==> sent[j] == Result(errs[j], false))
    && (match coord
        case Returned(Connected(w)) => completed == |errs| + 1 && sent[|errs|] == Result(w, true)
        case _ => completed == |errs|)
  }

  /** A connection was closed iff it is among the messages the drainer took. */
  ghost predicate ClosesOk(closes: seq<nat>, taken: seq<Result>) {
    && (forall i :: 0 <= i < |closes| ==> closes[i] == if Result(i, true) in taken then 1 else 0)
    && (forall j :: 0 <= j < |taken| ==> taken[j].addr < |closes|)
  }

  ghost predicate PacingOk(starts: seq<Start>, errs: seq<nat>) {
    && (forall k :: 0 <= k < |starts| ==> starts[k].addr == k && starts[k].failures <= |errs|)
    && (forall k :: 0 < k < |starts| ==>
          starts[k - 1].at + FALLBACK_DELAY <= starts[k].at || starts[k].failures == k)
    // The failures received before the start of address k concern addresses started before it.
    && (forall k, j :: 0 <= k < |starts| && 0 <= j < starts[k].failures && j < |errs| ==> errs[j] < k)
  }

  ghost predicate TimerOk(s: State) {
    && 1 <= |s.starts| == s.started
    && s.starts[|s.starts| - 1].at <= s.now
    && (s.coord.Selecting? && s.started < |s.phases| ==>
          s.timer == Armed(s.starts[|s.starts| - 1].at + FALLBACK_DELAY))
  }

  ghost predicate CoordinatorOk(s: State) {
    && (s.coord.Selecting? ==> s.quota == 0 && s.drained == 0 && s.completed < s.started)
    && (s.coord.Returned? ==> s.timer.Off? && s.completed + s.drained + s.quota == s.started)
    && (s.coord == Returned(Cancelled) ==> s.ctxDone)
    && (s.coord.Returned? && s.coord.outcome.AllFailed? ==>
          s.coord.outcome.errs == s.errs && |s.errs| == |s.phases|)
  }

  /** Messages leave the channel in the order they were sent: first to the coordinator, then to the
      drainer; the rest is still buffered. */
  ghost predicate Inv(s: State) {
    && PhasesOk(s.phases, s.started, |s.sent|)
    && SentOk(s.phases, s.sent)
    && ErrsOk(s.sent, s.errs, s.completed, s.coord)
    && s.completed + s.drained <= |s.sent|
    && s.results == s.sent[s.completed + s.drained..]
    && |s.closes| == |s.phases|
    && ClosesOk(s.closes, s.sent[s.completed..s.completed + s.drained])
    && CoordinatorOk(s)
    && TimerOk(s)
    && PacingOk(s.starts, s.errs)
  }

  // ----- Every step keeps the invariant

  lemma InitInv(n: nat)
    requires n > 0
    ensures Inv(Init(n)) && |Init(n).phases| == n
  {
    var s := Init(n);
    assert DialingSet(s.phases) == {0};
    assert ReadySet(s.phases) == {};
    assert s.sent[0..0] == [];
  }

  lemma DialReturnsPhases(phases: seq<Phase>, started: nat, sent: seq<Result>, i: nat, ok: bool)
    requires PhasesOk(phases, started, |sent|) && SentOk(phases, sent)
    requires i < |phases| && phases[i] == Dialing
    ensures PhasesOk(phases[i := Ready(ok)], started, |sent|) && SentOk(phases[i := Ready(ok)], sent)
  {
    var phases' := phases[i := Ready(ok)];
    assert DialingSet(phases) == DialingSet(phases') + {i};
    assert ReadySet(phases') == ReadySet(phases) + {i};
  }

  lemma SendPhases(phases: seq<Phase>, started: nat, sent: seq<Result>, i: nat)
    requires PhasesOk(phases, started, |sent|) && SentOk(phases, sent)
    requires i < |phases| && phases[i].Ready?
    ensures PhasesOk(phases[i := Sent(phases[i].ok)], started, |sent| + 1)
    ensures SentOk(phases[i := Sent(phases[i].ok)], sent + [Result(i, phases[i].ok)])
    ensures |sent| < started
  {
    var phases' := phases[i := Sent(phases[i].ok)];
    var sent' := sent + [Result(i, phases[i].ok)];
    assert DialingSet(phases') == DialingSet(phases);
    assert ReadySet(phases) == ReadySet(phases') + {i};
    forall k | 0 <= k < |phases'| && phases'[k].Sent? ensures Result(k, phases'[k].ok) in sent' {
      if k == i {
        assert sent'[|sent|] == Result(i, phases[i].ok);
      } else {
        assert Result(k, phases[k].ok) in sent;
      }
    }
  }

  lemma StartPhases(phases: seq<Phase>, started: nat, sent: seq<Result>)
    requires PhasesOk(phases, started, |sent|) && SentOk(phases, sent) && started < |phases|
    ensures PhasesOk(phases[started := Dialing], started + 1, |sent|) && SentOk(phases[started := Dialing], sent)
  {
    var phases' := phases[started := Dialing];
    assert DialingSet(phases') == DialingSet(phases) + {started};
    assert ReadySet(phases') == ReadySet(phases);
  }

  lemma SendErrs(s: State, r: Result)
    requires ErrsOk(s.sent, s.errs, s.completed, s.coord)
    ensures ErrsOk(s.sent + [r], s.errs, s.completed, s.coord)
  {
  }

  lemma SendInv(s: State, i: nat)
    requires Inv(s) && Enabled(s, Send(i))
    ensures Inv(Apply(s, Send(i)))
  {
    hide PhasesOk, SentOk, ErrsOk, ClosesOk, PacingOk;
    var s' := Apply(s, Send(i));
    var lo, hi := s.completed, s.completed + s.drained;
    SendPhases(s.phases, s.started, s.sent, i);
    SendErrs(s, Result(i, s.phases[i].ok));
    assert s'.sent[lo..hi] == s.sent[lo..hi];
  }

  lemma DialReturnsInv(s: State, i: nat, ok: bool)
    requires Inv(s) && Enabled(s, DialReturns(i, ok))
    ensures Inv(Apply(s, DialReturns(i, ok)))
  {
    hide PhasesOk, SentOk, ErrsOk, ClosesOk, PacingOk;
    DialReturnsPhases(s.phases, s.started, s.sent, i, ok);
  }

  lemma SilentInv(s: State, e: Event)
    requires Inv(s) && Enabled(s, e) && (e.CallerCancels? || e.Tick? || e.SelectDone?)
    ensures Inv(Apply(s, e))
  {
    hide PhasesOk, SentOk, ErrsOk, ClosesOk, PacingOk;
    if e.SelectDone? {
      CancelErrs(s);
    }
  }

  lemma CancelErrs(s: State)
    requires Inv(s) && s.coord.Selecting?
    ensures ErrsOk(s.sent, s.errs, s.completed, Returned(Cancelled))
  {
  }

  /** The failures known when an address is started concern earlier addresses. */
  lemma StartPacing(s: State)
    requires SentOk(s.phases, s.sent) && PhasesOk(s.phases, s.started, |s.sent|)
    requires ErrsAreFirst(s.sent, s.errs)
    requires PacingOk(s.starts, s.errs) && |s.starts| == s.started < |s.phases|
    requires s.starts[s.started - 1].at + FALLBACK_DELAY <= s.now || |s.errs| == s.started
    ensures PacingOk(StartNext(s).starts, s.errs)
  {
    var starts' := StartNext(s).starts;
    forall k, j | 0 <= k < |starts'| && 0 <= j < starts'[k].failures && j < |s.errs|
      ensures s.errs[j] < k
    {
      if k == s.started {
        assert !s.phases[s.errs[j]].Idle?;
      }
    }
  }

  lemma TimerInv(s: State)
    requires Inv(s) && Enabled(s, SelectTimer)
    ensures Inv(Apply(s, SelectTimer))
  {
    hide PhasesOk, SentOk, ErrsOk, ClosesOk, PacingOk;
    if s.started < |s.phases| {
      ErrsAreSent(s.sent, s.errs, s.completed, s.coord);
      StartPhases(s.phases, s.started, s.sent);
      StartPacing(s.(timer := Off));
    }
  }

  lemma ReceivePacing(starts: seq<Start>, errs: seq<nat>, addr: nat)
    requires PacingOk(starts, errs)
    ensures PacingOk(starts, errs + [addr])
  {
  }

  lemma ReceiveErrs(s: State)
    requires Inv(s) && s.coord.Selecting? && s.results != []
    ensures s.results[0] == s.sent[s.completed]
    ensures s.results[0].ok ==>
              ErrsOk(s.sent, s.errs, s.completed + 1, Returned(Connected(s.results[0].addr)))
    ensures !s.results[0].ok ==>
              && ErrsOk(s.sent, s.errs + [s.results[0].addr], s.completed + 1, Selecting)
              && ErrsOk(s.sent, s.errs + [s.results[0].addr], s.completed + 1,
                        Returned(AllFailed(s.errs + [s.results[0].addr])))
  {
  }

  ghost predicate ErrsAreFirst(sent: seq<Result>, errs: seq<nat>) {
    |errs| <= |sent| && forall j :: 0 <= j < |errs| ==> sent[j].addr == errs[j]
  }

  /** The errors received so far are the addresses of the first messages. */
  lemma ErrsAreSent(sent: seq<Result>, errs: seq<nat>, completed: nat, coord: Coordinator)
    requires ErrsOk(sent, errs, completed, coord)
    ensures ErrsAreFirst(sent, errs)
  {
  }

  lemma ReceiveInv(s: State)
    requires Inv(s) && Enabled(s, SelectResult)
    ensures Inv(Apply(s, SelectResult))
  {
    hide Inv, Apply;
    if s.results[0].ok {
      WinInv(s);
    } else {
      FailureInv(s);
    }
  }

  /** The first message leaves the channel. */
  lemma OneReceived(s: State)
    requires Inv(s) && s.coord.Selecting? && s.results != []
    ensures s.results[1..] == s.sent[s.completed + 1..] && s.completed == |s.errs| < |s.sent| <= s.started <= |s.phases|
    ensures s.drained == 0 && s.sent[s.completed + 1..s.completed + 1] == [] && ClosesOk(s.closes, [])
  {
    hide PhasesOk, SentOk, ErrsOk, ClosesOk, PacingOk;
    SentBound(s);
    assert s.sent[s.completed..s.completed] == [];
  }

  lemma WinInv(s: State)
    requires Inv(s) && Enabled(s, SelectResult) && s.results[0].ok
    ensures Inv(Apply(s, SelectResult))
  {
    hide PhasesOk, SentOk, ErrsOk, ClosesOk, PacingOk;
    ReceiveErrs(s);
    OneReceived(s);
  }

  lemma FailureInv(s: State)
    requires Inv(s) && Enabled(s, SelectResult) && !s.results[0].ok
    ensures Inv(Apply(s, SelectResult))
  {
    hide Inv, Apply;
    if s.completed + 1 < s.started {
      EarlyFailureInv(s);
    } else if s.started < |s.phases| {
      NextStartsInv(s);
    } else {
      LastFailureInv(s);
    }
  }

  /** Other attempts are still out. */
  lemma EarlyFailureInv(s: State)
    requires Inv(s) && Enabled(s, SelectResult) && !s.results[0].ok && s.completed + 1 < s.started
    ensures Inv(Apply(s, SelectResult))
  {
    hide PhasesOk, SentOk, ErrsOk, ClosesOk, PacingOk;
    ReceiveErrs(s);
    OneReceived(s);
    ReceivePacing(s.starts, s.errs, s.results[0].addr);
  }

  /** All started attempts have failed and the next one starts. */
  lemma NextStartsInv(s: State)
    requires Inv(s) && Enabled(s, SelectResult) && !s.results[0].ok && s.completed + 1 >= s.started && s.started < |s.phases|
    ensures Inv(Apply(s, SelectResult))
  {
    hide PhasesOk, SentOk, ErrsOk, ClosesOk, PacingOk;
    ReceiveErrs(s);
    OneReceived(s);
    ReceiveAndStart(s);
  }

  /** Every attempt has failed. */
  lemma LastFailureInv(s: State)
    requires Inv(s) && Enabled(s, SelectResult) && !s.results[0].ok && s.completed + 1 >= s.started && s.started >= |s.phases|
    ensures Inv(Apply(s, SelectResult))
  {
    hide PhasesOk, SentOk, ErrsOk, ClosesOk, PacingOk;
    ReceiveErrs(s);
    OneReceived(s);
    ReceivePacing(s.starts, s.errs, s.results[0].addr);
  }

  lemma ReceiveAndStart(s: State)
    requires Inv(s) && Enabled(s, SelectResult) && !s.results[0].ok
    requires s.completed + 1 == s.started < |s.phases|
    ensures PhasesOk(s.phases[s.started := Dialing], s.started + 1, |s.sent|)
    ensures SentOk(s.phases[s.started := Dialing], s.sent)
    ensures PacingOk(s.starts + [Start(s.started, s.now, s.started)], s.errs + [s.results[0].addr])
  {
    hide PhasesOk, SentOk, ErrsOk, ClosesOk, PacingOk;
    ReceiveErrs(s);
    SentBound(s);
    ReceivePacing(s.starts, s.errs, s.results[0].addr);
    StartPhases(s.phases, s.started, s.sent);
    var mid := s.(completed := s.completed + 1, errs := s.errs + [s.results[0].addr]);
    ErrsAreSent(s.sent, mid.errs, mid.completed, Selecting);
    StartPacing(mid);
  }

  lemma SentBound(s: State)
    requires Inv(s)
    ensures |s.sent| <= s.started <= |s.phases|
    ensures s.coord.Selecting? ==> s.completed == |s.errs|
  {
  }

  lemma DrainInv(s: State)
    requires Inv(s) && Enabled(s, Drain)
    ensures Inv(Apply(s, Drain))
  {
    hide PhasesOk, SentOk, ErrsOk, ClosesOk, PacingOk;
    var lo, hi := s.completed, s.completed + s.drained;
    var r := s.results[0];
    assert r == s.sent[hi];
    assert s.results[1..] == s.sent[hi + 1..];
    DrainCloses(s.closes, s.sent[lo..hi], r, s.phases, s.sent, hi);
    assert s.sent[lo..hi + 1] == s.sent[lo..hi] + [r];
  }

  lemma DrainCloses(closes: seq<nat>, taken: seq<Result>, r: Result, phases: seq<Phase>, sent: seq<Result>, hi: nat)
    requires SentOk(phases, sent) && |closes| == |phases|
    requires hi < |sent| && sent[hi] == r && |taken| <= hi && taken == sent[hi - |taken|..hi]
    requires ClosesOk(closes, taken)
    ensures r.addr < |closes|
    ensures ClosesOk(if r.ok then closes[r.addr := closes[r.addr] + 1] else closes, taken + [r])
  {
    assert Result(r.addr, true) !in taken by {
      if Result(r.addr, true) in taken {
        assert false;
      }
    }
  }

  lemma StepInv(s: State, e: Event)
    requires Inv(s) && Enabled(s, e)
    ensures Inv(Apply(s, e))
  {
    hide Inv, Apply;
    match e
    case DialReturns(i, ok) => DialReturnsInv(s, i, ok);
    case Send(i) => SendInv(s, i);
    case SelectResult => ReceiveInv(s);
    case SelectTimer => TimerInv(s);
    case Drain => DrainInv(s);
    case _ => SilentInv(s, e);
  }

  lemma {:induction false} ExecInv(n: nat, es: seq<Event>)
    requires n > 0
    ensures Inv(Exec(n, es))
  {
    hide Inv, Apply, Enabled, Init;
    if es == [] {
      InitInv(n);
    } else {
      var s, e := Exec(n, es[..|es| - 1]), es[|es| - 1];
      ExecInv(n, es[..|es| - 1]);
      if Enabled(s, e) {
        StepInv(s, e);
      }
    }
  }

  lemma StepSize(s: State, e: Event)
    ensures |Step(s, e).phases| == |s.phases| && |Step(s, e).closes| == |s.closes|
  {
  }

  lemma {:induction false} ExecSize(n: nat, es: seq<Event>)
    requires n > 0
    ensures |Exec(n, es).phases| == |Exec(n, es).closes| == n
  {
    if es != [] {
      ExecSize(n, es[..|es| - 1]);
      StepSize(Exec(n, es[..|es| - 1]), es[|es| - 1]);
      hide Step;
    }
  }

  // ----- Nothing happens without its cause

  /** An attempt that is through had its dial return, with that outcome, and a context that is done was
      cancelled. */
  ghost predicate CausedBy(s: State, es: seq<Event>) {
    && (forall i :: 0 <= i < |s.phases| ==>
          (s.phases[i].Ready? || s.phases[i].Sent? ==> DialReturns(i, s.phases[i].ok) in es))
    && (s.ctxDone ==> CallerCancels in es)
  }

  lemma CauseStep(s: State, es: seq<Event>, e: Event)
    requires CausedBy(s, es)
    ensures CausedBy(Step(s, e), es + [e])
  {
    assert (es + [e])[|es|] == e;
  }

  lemma {:induction false} Causes(n: nat, es: seq<Event>)
    requires 0 < n
    ensures CausedBy(Exec(n, es), es)
  {
    if es != [] {
      var rest, e := es[..|es| - 1], es[|es| - 1];
      Causes(n, rest);
      CauseStep(Exec(n, rest), rest, e);
      assert es == rest + [e];
      hide Step, CausedBy;
    } else {
      hide Step;
    }
  }

  // ----- Ownership of connections

  ghost predicate Opened(s: State, i: nat)
    requires i < |s.phases|
  {
    s.phases[i] == Ready(true) || s.phases[i] == Sent(true)
  }

  /** How many parties hold connection i: its goroutine, the channel, the caller, or the closed pile. */
  ghost function Owners(s: State, i: nat): nat
    requires i < |s.phases| == |s.closes|
  {
    (if s.phases[i] == Ready(true) then 1 else 0)
    + multiset(s.results)[Result(i, true)]
    + (if s.coord == Returned(Connected(i)) then 1 else 0)
    + s.closes[i]
  }

  lemma {:induction false} Multiplicity(rs: seq<Result>, r: Result)
    requires OnePerAddress(rs)
    ensures multiset(rs)[r] == if r in rs then 1 else 0
  {
    if rs != [] {
      var n := |rs| - 1;
      Multiplicity(rs[..n], r);
      assert rs == rs[..n] + [rs[n]];
    }
  }

  /** In every reachable state an opened connection has exactly one owner, and nothing else has any. */
  lemma {:induction false} ConnectionHasOneOwner(n: nat, es: seq<Event>, i: nat)
    requires 0 < n && i < n
    ensures |Exec(n, es).phases| == |Exec(n, es).closes| == n
    ensures Owners(Exec(n, es), i) == if Opened(Exec(n, es), i) then 1 else 0
  {
    ExecSize(n, es);
    ExecInv(n, es);
    OwnersCount(Exec(n, es), i);
  }

  /** A message is in exactly one of the three stretches of the send history. */
  lemma Located(sent: seq<Result>, c: nat, d: nat, r: Result)
    requires OnePerAddress(sent) && c <= d <= |sent|
    ensures (if r in sent[..c] then 1 else 0) + (if r in sent[c..d] then 1 else 0)
            + (if r in sent[d..] then 1 else 0) == if r in sent then 1 else 0
  {
    Multiplicity(sent, r);
    Multiplicity(sent[..c], r);
    Multiplicity(sent[c..d], r);
    Multiplicity(sent[d..], r);
    assert sent == sent[..c] + sent[c..d] + sent[d..];
  }

  lemma CallerHolds(sent: seq<Result>, errs: seq<nat>, completed: nat, coord: Coordinator, i: nat)
    requires ErrsOk(sent, errs, completed, coord)
    ensures coord == Returned(Connected(i)) <==> Result(i, true) in sent[..completed]
  {
    if coord == Returned(Connected(i)) {
      assert sent[..completed][|errs|] == Result(i, true);
    }
  }

  lemma SentMeans(phases: seq<Phase>, sent: seq<Result>, i: nat)
    requires SentOk(phases, sent) && i < |phases|
    ensures OnePerAddress(sent) && (phases[i] == Sent(true) <==> Result(i, true) in sent)
  {
  }

  lemma OwnersCount(s: State, i: nat)
    requires Inv(s) && i < |s.phases|
    ensures Owners(s, i) == if Opened(s, i) then 1 else 0
  {
    hide PhasesOk, SentOk, ErrsOk, PacingOk, TimerOk, CoordinatorOk, OnePerAddress;
    var c, d := s.completed, s.completed + s.drained;
    SentMeans(s.phases, s.sent, i);
    CallerHolds(s.sent, s.errs, c, s.coord, i);
    Located(s.sent, c, d, Result(i, true));
    DistinctSuffix(s.sent, d);
    Multiplicity(s.results, Result(i, true));
  }

  lemma DistinctSuffix(sent: seq<Result>, d: nat)
    requires OnePerAddress(sent) && d <= |sent|
    ensures OnePerAddress(sent[d..])
  {
  }

  // ----- No deadlock, no blocked send, bounded work

  /** Queued messages and running attempts together never exceed the capacity of the channel, so a
      send never blocks; the receiving sides never underflow their counters. */
  lemma SendNeverBlocks(n: nat, es: seq<Event>)
    requires 0 < n
    ensures var s := Exec(n, es);
      && |s.results| + |DialingSet(s.phases)| + |ReadySet(s.phases)| <= n
      && (forall i :: 0 <= i < n && i < |s.phases| && s.phases[i].Ready? ==> Enabled(s, Send(i)))
      && (s.ctxDone && s.coord.Selecting? ==> Enabled(s, SelectDone))
      && (s.results != [] && s.coord.Selecting? ==> Enabled(s, SelectResult))
      && (s.results != [] && s.coord.Returned? ==> Enabled(s, Drain))
  {
    ExecInv(n, es);
    ExecSize(n, es);
    var s := Exec(n, es);
    forall i | 0 <= i < n && i < |s.phases| && s.phases[i].Ready? ensures Enabled(s, Send(i)) {
      SendPhases(s.phases, s.started, s.sent, i);
    }
    if s.results != [] {
      SentBound(s);
      assert s.results[0] == s.sent[s.completed + s.drained];
    }
  }

  /** A running attempt always has a step to take. */
  lemma AttemptCanProceed(n: nat, es: seq<Event>, i: nat)
    requires i < n
    ensures |Exec(n, es).phases| == n
    ensures Exec(n, es).phases[i] == Dialing ==> Enabled(Exec(n, es), DialReturns(i, true))
    ensures Exec(n, es).phases[i].Ready? ==> Enabled(Exec(n, es), Send(i))
  {
    ExecSize(n, es);
    SendNeverBlocks(n, es);
  }

  /** The select loop never waits with nothing outstanding. */
  lemma NeverWaitsForNothing(n: nat, es: seq<Event>)
    requires 0 < n
    ensures var s := Exec(n, es);
      s.coord.Selecting? ==>
        && s.completed < s.started
        && (s.results != [] || DialingSet(s.phases) != {} || ReadySet(s.phases) != {})
  {
    ExecInv(n, es);
    hide SentOk, ClosesOk, PacingOk;
    var s := Exec(n, es);
    if s.coord.Selecting? && s.results == [] {
      assert |s.sent| <= s.completed + s.drained;
    }
  }

  predicate IsCoordinator(e: Event) {
    e.SelectDone? || e.SelectResult? || e.SelectTimer?
  }

  function Measure(s: State): int {
    if s.coord.Returned? then 0
    else 2 * |s.phases| - s.started - s.completed + (if s.timer.Armed? then 1 else 0)
  }

  lemma {:induction false} CoordinatorDecreases(s: State, e: Event)
    requires Inv(s) && Enabled(s, e)
    ensures 0 <= Measure(Apply(s, e)) <= Measure(s)
    ensures IsCoordinator(e) ==> Measure(Apply(s, e)) < Measure(s)
  {
    SentBound(s);
    if e.SelectResult? {
      ReceiveDecreases(s);
    } else {
      hide PhasesOk, SentOk, ClosesOk, PacingOk, ErrsOk, TimerOk;
    }
  }

  lemma ReceiveDecreases(s: State)
    requires Inv(s) && Enabled(s, SelectResult)
    ensures 0 <= Measure(Apply(s, SelectResult)) < Measure(s)
  {
    SentBound(s);
    hide PhasesOk, SentOk, ClosesOk, PacingOk, ErrsOk, TimerOk;
  }

  /** How many select cases the coordinator runs along a schedule. */
  function CoordinatorSteps(n: nat, es: seq<Event>): nat
    requires n > 0
  {
    if es == [] then 0
    else
      var rest, e := es[..|es| - 1], es[|es| - 1];
      CoordinatorSteps(n, rest) + if IsCoordinator(e) && Enabled(Exec(n, rest), e) then 1 else 0
  }

  lemma {:induction false} CoordinatorReturnsSoon(n: nat, es: seq<Event>)
    requires 0 < n
    ensures CoordinatorSteps(n, es) + Measure(Exec(n, es)) <= 2 * n
    ensures CoordinatorSteps(n, es) <= 2 * n
  {
    hide Inv, Apply, Enabled;
    if es == [] {
    } else {
      var rest, e := es[..|es| - 1], es[|es| - 1];
      CoordinatorReturnsSoon(n, rest);
      ExecInv(n, rest);
      if Enabled(Exec(n, rest), e) {
        CoordinatorDecreases(Exec(n, rest), e);
      }
    }
    MeasureNonNegative(n, es);
  }

  /** While the coordinator is still selecting, it has run fewer than 2n cases. */
  lemma StillWaiting(n: nat, es: seq<Event>)
    requires 0 < n && Exec(n, es).coord.Selecting?
    ensures CoordinatorSteps(n, es) < 2 * n
  {
    hide Exec;
    CoordinatorReturnsSoon(n, es);
    ExecInv(n, es);
    ExecSize(n, es);
    SentBound(Exec(n, es));
  }

  lemma StepTaken(n: nat, es: seq<Event>, e: Event)
    requires 0 < n && IsCoordinator(e) && Enabled(Exec(n, es), e)
    ensures CoordinatorSteps(n, es + [e]) == CoordinatorSteps(n, es) + 1
  {
    assert (es + [e])[..|es + [e]| - 1] == es;
  }

  lemma {:induction false} StepsKept(n: nat, es: seq<Event>, fs: seq<Event>)
    requires 0 < n && forall k :: 0 <= k < |fs| ==> !IsCoordinator(fs[k])
    ensures CoordinatorSteps(n, es + fs) == CoordinatorSteps(n, es)
    decreases |fs|
  {
    hide Exec;
    if fs == [] {
      assert es + fs == es;
    } else {
      StepsKept(n, es, fs[..|fs| - 1]);
      assert (es + fs)[..|es + fs| - 1] == es + fs[..|fs| - 1];
    }
  }

  lemma MeasureNonNegative(n: nat, es: seq<Event>)
    requires 0 < n
    ensures Measure(Exec(n, es)) >= 0
  {
    ExecInv(n, es);
    hide SentOk, ClosesOk, PacingOk, ErrsOk;
  }

  /** Work left for the coordinator, the goroutines and the drainer together. */
  function Work(s: State): int {
    5 * (|s.phases| - s.started) + 3 * |DialingSet(s.phases)| + 2 * |ReadySet(s.phases)| + |s.results|
    + (if s.timer.Armed? then 1 else 0) + (if s.coord.Selecting? then 1 else 0) + (if s.ctxDone then 0 else 1)
  }

  lemma WorkDecreases(s: State, e: Event)
    requires Inv(s) && Enabled(s, e) && !e.Tick?
    ensures Work(Apply(s, e)) < Work(s)
  {
    hide SentOk, ClosesOk, PacingOk, ErrsOk, DialingSet, ReadySet;
    var p := s.phases;
    match e
    case DialReturns(i, ok) => LeaveDialing(p, i, ok);
    case Send(i) => LeaveReady(p, i);
    case SelectResult => ReceiveWork(s);
    case SelectTimer => StartSets(p, s.started);
    case _ =>
  }

  lemma ReceiveWork(s: State)
    requires Inv(s) && Enabled(s, SelectResult)
    ensures Work(Apply(s, SelectResult)) < Work(s)
  {
    hide SentOk, ClosesOk, PacingOk, ErrsOk, DialingSet, ReadySet, TimerOk, CoordinatorOk;
    StartSets(s.phases, s.started);
  }

  lemma LeaveDialing(p: seq<Phase>, i: nat, ok: bool)
    requires i < |p| && p[i] == Dialing
    ensures |DialingSet(p[i := Ready(ok)])| == |DialingSet(p)| - 1
    ensures |ReadySet(p[i := Ready(ok)])| == |ReadySet(p)| + 1
  {
    var p' := p[i := Ready(ok)];
    assert DialingSet(p) == DialingSet(p') + {i} && ReadySet(p') == ReadySet(p) + {i};
  }

  lemma LeaveReady(p: seq<Phase>, i: nat)
    requires i < |p| && p[i].Ready?
    ensures DialingSet(p[i := Sent(p[i].ok)]) == DialingSet(p)
    ensures |ReadySet(p[i := Sent(p[i].ok)])| == |ReadySet(p)| - 1
  {
    var p' := p[i := Sent(p[i].ok)];
    assert ReadySet(p) == ReadySet(p') + {i};
  }

  lemma StartSets(p: seq<Phase>, started: nat)
    ensures started < |p| && p[started].Idle? ==>
              && |DialingSet(p[started := Dialing])| == |DialingSet(p)| + 1
              && ReadySet(p[started := Dialing]) == ReadySet(p)
  {
    if started < |p| && p[started].Idle? {
      assert DialingSet(p[started := Dialing]) == DialingSet(p) + {started};
    }
  }

  function EffectiveSteps(n: nat, es: seq<Event>): nat
    requires n > 0
  {
    if es == [] then 0
    else
      var rest, e := es[..|es| - 1], es[|es| - 1];
      EffectiveSteps(n, rest) + if !e.Tick? && Enabled(Exec(n, rest), e) then 1 else 0
  }

  /** All goroutines, the drainer included, come to rest after at most 5n + 1 steps. */
  lemma {:induction false} EveryoneTerminates(n: nat, es: seq<Event>)
    requires 0 < n
    ensures 0 <= Work(Exec(n, es)) <= 5 * n + 1 - EffectiveSteps(n, es)
  {
    if es == [] {
      InitInv(n);
      assert DialingSet(Init(n).phases) == {0};
      assert ReadySet(Init(n).phases) == {};
    } else {
      var rest, e := es[..|es| - 1], es[|es| - 1];
      EveryoneTerminates(n, rest);
      ExecInv(n, rest);
      ExecInv(n, es);
      WorkStep(Exec(n, rest), e);
      WorkBound(Exec(n, es));
    }
  }

  lemma WorkStep(s: State, e: Event)
    requires Inv(s)
    ensures Work(Step(s, e)) <= Work(s) - if !e.Tick? && Enabled(s, e) then 1 else 0
  {
    hide Inv;
    if Enabled(s, e) && !e.Tick? {
      hide Apply;
      WorkDecreases(s, e);
    }
  }

  lemma WorkBound(s: State)
    requires Inv(s)
    ensures Work(s) >= 0
  {
    hide SentOk, ClosesOk, PacingOk, ErrsOk;
  }

  /** Nothing but the clock can move. */
  ghost predicate Quiescent(s: State) {
    forall e: Event :: Enabled(s, e) ==> e.Tick? || e.CallerCancels?
  }

  /** At rest, no goroutine is left behind: the coordinator has returned, the drainer is done, the
      channel is empty, and every connection except the returned one has been closed exactly once. */
  lemma RestIsClean(n: nat, es: seq<Event>)
    requires 0 < n && Quiescent(Exec(n, es))
    ensures var s := Exec(n, es);
      && s.coord.Returned? && s.quota == 0 && s.results == [] && |s.phases| == |s.closes| == n
      && (forall i :: 0 <= i < n ==> s.phases[i].Idle? || s.phases[i].Sent?)
      && (forall i :: 0 <= i < n ==>
            s.closes[i] == if s.phases[i] == Sent(true) && s.coord != Returned(Connected(i)) then 1 else 0)
  {
    var s := Exec(n, es);
    ExecSize(n, es);
    NeverWaitsForNothing(n, es);
    SendNeverBlocks(n, es);
    Settled(n, es);
    ExecInv(n, es);
    QuotaIsOutstanding(s);
    forall i | 0 <= i < n
      ensures s.closes[i] == if s.phases[i] == Sent(true) && s.coord != Returned(Connected(i)) then 1 else 0
    {
      ConnectionHasOneOwner(n, es, i);
    }
  }

  lemma Settled(n: nat, es: seq<Event>)
    requires 0 < n && Quiescent(Exec(n, es))
    ensures var p := Exec(n, es).phases;
      |p| == n && DialingSet(p) == {} == ReadySet(p) && forall i :: 0 <= i < n ==> p[i].Idle? || p[i].Sent?
  {
    var s := Exec(n, es);
    ExecSize(n, es);
    SendNeverBlocks(n, es);
    forall i | 0 <= i < n ensures s.phases[i].Idle? || s.phases[i].Sent? {
      AttemptCanProceed(n, es, i);
    }
  }

  lemma QuotaIsOutstanding(s: State)
    requires Inv(s)
    ensures s.coord.Returned? ==>
      s.quota == |DialingSet(s.phases)| + |ReadySet(s.phases)| + |s.results|
  {
    hide SentOk, ClosesOk, PacingOk, ErrsOk;
  }

  /** As soon as the drainer has nothing left to wait for, all is clean, whether or not anyone else can
      still move. */
  lemma DrainedIsClean(n: nat, es: seq<Event>)
    requires 0 < n && Exec(n, es).coord.Returned? && Exec(n, es).quota == 0
    ensures var s := Exec(n, es);
      && s.results == [] && |s.phases| == |s.closes| == n
      && (forall i :: 0 <= i < n ==> s.phases[i].Idle? || s.phases[i].Sent?)
      && (forall i :: 0 <= i < n ==>
            s.closes[i] == if s.phases[i] == Sent(true) && s.coord != Returned(Connected(i)) then 1 else 0)
  {
    hide Exec;
    var s := Exec(n, es);
    ExecSize(n, es);
    ExecInv(n, es);
    QuotaIsOutstanding(s);
    forall i | 0 <= i < n
      ensures s.phases[i].Idle? || s.phases[i].Sent?
      ensures s.closes[i] == if s.phases[i] == Sent(true) && s.coord != Returned(Connected(i)) then 1 else 0
    {
      NobodyRuns(s, i);
      hide Inv;
      ConnectionHasOneOwner(n, es, i);
    }
  }

  lemma NobodyRuns(s: State, i: nat)
    requires i < |s.phases| && DialingSet(s.phases) == {} == ReadySet(s.phases)
    ensures s.phases[i].Idle? || s.phases[i].Sent?
  {
    assert i !in DialingSet(s.phases) && i !in ReadySet(s.phases);
  }

  // ----- Pacing

  /** The first k addresses are all among the failures. */
  ghost predicate FirstFailed(errs: seq<nat>, k: nat) {
    forall a: nat :: a < k ==> a in errs
  }

  /** Addresses start in list order, and the next one starts only when all started so far have
      failed or the previous one has had its full head start. */
  lemma Pacing(n: nat, es: seq<Event>)
    requires 0 < n
    ensures var s := Exec(n, es);
      && |s.starts| == s.started
      && (forall k :: 0 <= k < s.started ==> s.starts[k].addr == k && s.starts[k].failures <= |s.errs|)
      && (forall k :: 0 < k < s.started ==>
            || s.starts[k - 1].at + 250_000_000 <= s.starts[k].at
            || FirstFailed(s.errs[..s.starts[k].failures], k))
  {
    ExecInv(n, es);
    var s := Exec(n, es);
    forall k | 0 < k < s.started && s.starts[k].at < s.starts[k - 1].at + 250_000_000
      ensures FirstFailed(s.errs[..s.starts[k].failures], k)
    {
      AllFailedBefore(s, k);
    }
  }

  lemma AllFailedBefore(s: State, k: nat)
    requires ErrsOk(s.sent, s.errs, s.completed, s.coord) && OnePerAddress(s.sent) && PacingOk(s.starts, s.errs)
    requires 0 < k < |s.starts| && s.starts[k].failures == k
    ensures FirstFailed(s.errs[..k], k)
  {
    forall i, j | 0 <= i < j < k ensures s.errs[..k][i] != s.errs[..k][j] {
      assert s.sent[i].addr != s.sent[j].addr;
    }
    Pigeonhole.Covers(s.errs[..k], k);
  }

  /** While addresses remain, the timer runs, and fires no later than one delay after the last
      start: a dial that hangs cannot hold up the next one. */
  lemma {:induction false} HungDialCannotBlock(n: nat, es: seq<Event>)
    requires 0 < n
    ensures |Exec(n, es).phases| == n && HeadStartEnds(Exec(n, es))
  {
    ExecInv(n, es);
    ExecSize(n, es);
    TimerRuns(Exec(n, es));
  }

  ghost predicate HeadStartEnds(s: State) {
    s.coord.Selecting? && s.started < |s.phases| ==>
      && 0 < s.started == |s.starts|
      && s.timer == Armed(s.starts[s.started - 1].at + 250_000_000)
      && (s.starts[s.started - 1].at + 250_000_000 <= s.now ==> Enabled(s, SelectTimer))
  }

  lemma TimerRuns(s: State)
    requires Inv(s)
    ensures HeadStartEnds(s)
  {
    hide PhasesOk, SentOk, ClosesOk, PacingOk, ErrsOk;
  }

  // ----- What the race returns

  /** The three results and what each one means. */
  lemma OutcomeMeaning(n: nat, es: seq<Event>)
    requires 0 < n
    ensures |Exec(n, es).phases| == n
    ensures var s := Exec(n, es); s.coord.Returned? ==>
      && (s.coord.outcome.Connected? ==> s.coord.outcome.addr < n && s.phases[s.coord.outcome.addr] == Sent(true))
      && (s.coord.outcome.Cancelled? ==> s.ctxDone)
      && (s.coord.outcome.AllFailed? ==>
            && |s.coord.outcome.errs| == n
            && (forall i: nat :: i < n ==> i in s.coord.outcome.errs && s.phases[i] == Sent(false)))
  {
    ExecInv(n, es);
    ExecSize(n, es);
    var s := Exec(n, es);
    if s.coord.Returned? && s.coord.outcome.AllFailed? {
      EveryAddressFailed(s);
    }
  }

  /** What holds the moment the function has returned. */
  lemma Left(n: nat, es: seq<Event>)
    requires 0 < n && Exec(n, es).coord.Returned?
    ensures var s := Exec(n, es);
      && |s.phases| == n && s.timer.Off? && s.quota == |DialingSet(s.phases)| + |ReadySet(s.phases)| + |s.results|
      && (s.coord.outcome.Connected? ==> s.coord.outcome.addr < n && s.phases[s.coord.outcome.addr] == Sent(true))
      && (s.coord.outcome.Cancelled? ==> s.ctxDone)
      && (s.coord.outcome.AllFailed? ==>
            && s.coord.outcome.errs == s.errs && |s.errs| == n
            && (forall i: nat :: i < n ==> i in s.errs && s.phases[i] == Sent(false)))
  {
    hide Exec, DialingSet, ReadySet;
    OutcomeMeaning(n, es);
    ExecInv(n, es);
    QuotaIsOutstanding(Exec(n, es));
    hide PhasesOk, SentOk, ErrsOk, ClosesOk, PacingOk, TimerOk;
  }

  lemma EveryAddressFailed(s: State)
    requires Inv(s) && s.coord.Returned? && s.coord.outcome.AllFailed?
    ensures forall i: nat :: i < |s.phases| ==> i in s.errs && s.phases[i] == Sent(false)
  {
    hide PhasesOk, ClosesOk, PacingOk, TimerOk;
    forall i, j | 0 <= i < j < |s.errs| ensures s.errs[i] != s.errs[j] {
      assert s.sent[i].addr != s.sent[j].addr;
    }
    forall x | x in s.errs ensures x < |s.phases| && s.phases[x] == Sent(false) {
      var j :| 0 <= j < |s.errs| && s.errs[j] == x;
      assert s.sent[j] == Result(x, false);
    }
    Pigeonhole.Covers(s.errs, |s.phases|);
  }

  // ----- A race against a fixed network

  /** The network decides which addresses answer; it binds dials only while the race is on, because
      a dial may do anything once its context is cancelled. */
  ghost predicate Respects(n: nat, es: seq<Event>, good: seq<bool>)
    requires 0 < n == |good|
  {
    forall k :: 0 <= k < |es| && es[k].DialReturns? && es[k].addr < n && Exec(n, es[..k]).coord.Selecting?
                ==> es[k].ok == good[es[k].addr]
  }

  predicate PhaseAgrees(p: Phase, good: bool) {
    (p.Ready? ==> p.ok == good) && (p.Sent? ==> p.ok == good)
  }

  ghost predicate Agrees(s: State, good: seq<bool>) {
    && |s.phases| == |good|
    && (s.coord.Selecting? ==> forall i :: 0 <= i < |good| ==> PhaseAgrees(s.phases[i], good[i]))
    && (s.coord.Returned? && s.coord.outcome.Connected? ==>
          s.coord.outcome.addr < |good| && good[s.coord.outcome.addr])
    && (s.coord.Returned? && s.coord.outcome.AllFailed? ==> forall i :: 0 <= i < |good| ==> !good[i])
  }

  lemma AgreesReceive(s: State, good: seq<bool>)
    requires Inv(s) && Agrees(s, good) && Enabled(s, SelectResult)
    ensures Agrees(Apply(s, SelectResult), good)
  {
    var s' := Apply(s, SelectResult);
    assert s.results[0].addr < |good| && s.results[0].ok == good[s.results[0].addr] by {
      ReceivedAgrees(s, good);
    }
    if s'.coord.Returned? && s'.coord.outcome.AllFailed? {
      AllFailedAgrees(s, good);
    }
  }

  lemma ReceivedAgrees(s: State, good: seq<bool>)
    requires Inv(s) && Agrees(s, good) && Enabled(s, SelectResult)
    ensures s.results[0].addr < |good| && s.results[0].ok == good[s.results[0].addr]
  {
    hide PhasesOk, ClosesOk, PacingOk, ErrsOk, TimerOk;
    assert s.results[0] == s.sent[s.completed];
    assert s.phases[s.results[0].addr] == Sent(s.results[0].ok);
  }

  lemma AllFailedAgrees(s: State, good: seq<bool>)
    requires Inv(s) && Agrees(s, good) && Enabled(s, SelectResult)
    requires Apply(s, SelectResult).coord.Returned? && Apply(s, SelectResult).coord.outcome.AllFailed?
    ensures forall i :: 0 <= i < |good| ==> !good[i]
  {
    hide Inv;
    StepInv(s, SelectResult);
    SentBound(s);
    EveryAddressFailed(Apply(s, SelectResult));
    assert Apply(s, SelectResult).phases == s.phases;
    forall i | 0 <= i < |good| ensures !good[i] {
      assert PhaseAgrees(s.phases[i], good[i]);
    }
  }

  lemma AgreesStep(s: State, e: Event, good: seq<bool>)
    requires Inv(s) && Agrees(s, good) && Enabled(s, e)
    requires e.DialReturns? && s.coord.Selecting? ==> e.addr < |good| && e.ok == good[e.addr]
    ensures Agrees(Apply(s, e), good)
  {
    if e == SelectResult {
      AgreesReceive(s, good);
    } else {
      hide Inv;
    }
  }

  lemma {:induction false} AgreesExec(n: nat, es: seq<Event>, good: seq<bool>)
    requires 0 < n == |good| && Respects(n, es, good)
    ensures Agrees(Exec(n, es), good)
  {
    if es != [] {
      var rest, e := es[..|es| - 1], es[|es| - 1];
      assert forall k :: 0 <= k <= |rest| ==> rest[..k] == es[..k];
      AgreesExec(n, rest, good);
      ExecInv(n, rest);
      ExecSize(n, rest);
      if Enabled(Exec(n, rest), e) {
        AgreesStep(Exec(n, rest), e, good);
      }
    }
  }

  /** Without cancellation the race fails iff every address fails, and a winner really answers. */
  lemma FailsIffAllFail(n: nat, es: seq<Event>, good: seq<bool>)
    requires 0 < n == |good| && Respects(n, es, good)
    requires Exec(n, es).coord.Returned? && !Exec(n, es).ctxDone
    ensures Exec(n, es).coord.outcome.AllFailed? <==> forall i :: 0 <= i < n ==> !good[i]
    ensures Exec(n, es).coord.outcome.Connected? ==>
              Exec(n, es).coord.outcome.addr < n && good[Exec(n, es).coord.outcome.addr]
  {
    AgreesExec(n, es, good);
    ExecInv(n, es);
  }
}
