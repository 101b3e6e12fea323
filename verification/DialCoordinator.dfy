/** dialApprovedAddresses as the code that runs: shared variables, the select loop, the goroutines of
    the attempts and the drainer, all updating one object in place.  Every step extends a history of
    events, so the theorems of DialRace about schedules hold of the object's own fields. */
module DialCoordinator {
  import opened DialRace
  import opened Octets

  /** One turn of the select loop: what the others do while the coordinator waits, and the case it then
      looks at. */
  datatype Turn = Turn(meanwhile: seq<Event>, choice: Event)

  ghost predicate Others(es: seq<Event>) {
    forall k :: 0 <= k < |es| ==> !IsCoordinator(es[k]) && !es[k].Drain?
  }

  /** The environment did e in one of the turns. */
  ghost predicate Happened(turns: seq<Turn>, e: Event) {
    exists k :: 0 <= k < |turns| && e in turns[k].meanwhile
  }

  lemma InTurn(turns: seq<Turn>, k: nat)
    requires k < |turns|
    ensures forall e :: e in turns[k].meanwhile ==> Happened(turns, e)
  {
  }

  class Race {
    const n: nat
    var phases: seq<Phase>
    var results: seq<Result>
    var started: nat
    var completed: nat
    var errs: seq<nat>
    var timer: Timer
    var now: int
    var ctxDone: bool
    var coord: Coordinator
    var quota: nat
    var closes: seq<nat>
    ghost var drained: nat
    ghost var sent: seq<Result>
    ghost var starts: seq<Start>
    ghost var history: seq<Event>

    ghost function View(): State
      reads this
    {
      State(phases, results, started, completed, errs, timer, now, ctxDone, coord, quota, drained,
            closes, sent, starts)
    }

    /** The object is where its history leads. */
    ghost predicate Valid()
      reads this
    {
      0 < n && View() == Exec(n, history)
    }

    /** Every connection that was opened is with exactly one of its goroutine, the channel, the caller
        and the closed pile. */
    ghost predicate OneOwnerEach()
      reads this
    {
      && |phases| == |closes| == n
      && forall i :: 0 <= i < n ==>
           (if phases[i] == Ready(true) then 1 else 0) + multiset(results)[Result(i, true)]
           + (if coord == Returned(Connected(i)) then 1 else 0) + closes[i]
           == if phases[i] == Ready(true) || phases[i] == Sent(true) then 1 else 0
    }

    /** Addresses were started in order, each after the head start of the one before or after all
        earlier ones had failed. */
    ghost predicate Paced()
      reads this
    {
      && |starts| == started <= n
      && (forall k :: 0 <= k < started ==> starts[k].addr == k && starts[k].failures <= |errs|)
      && forall k :: 0 < k < started ==>
           || starts[k - 1].at + 250_000_000 <= starts[k].at
           || FirstFailed(errs[..starts[k].failures], k)
    }

    /** What the function leaves behind when it returns the outcome: the timer is off, the drainer expects
        exactly the attempts still running and the results still queued, a returned connection was
        opened, a cancellation needs a done context, and a failure joins one error of each address. */
    ghost predicate Meant(outcome: Outcome)
      reads this
    {
      && |phases| == n && timer.Off? && quota == |DialingSet(phases)| + |ReadySet(phases)| + |results|
      && (outcome.Connected? ==> outcome.addr < n && phases[outcome.addr] == Sent(true))
      && (outcome.Cancelled? ==> ctxDone)
      && (outcome.AllFailed? ==>
            && outcome.errs == errs && |errs| == n
            && forall i: nat :: i < n ==> i in errs && phases[i] == Sent(false))
    }

    lemma Finished()
      requires Valid() && coord.Returned?
      ensures Meant(coord.outcome)
    {
      Left(n, history);
    }

    /** The history consists of the coordinator's cases and of what happened in the turns. */
    ghost predicate Recounts(turns: seq<Turn>)
      reads this
    {
      forall e :: e in history ==> IsCoordinator(e) || Happened(turns, e)
    }

    /** Every dial that is through returned in one of the turns, and a done context was cancelled in one. */
    ghost predicate Caused(turns: seq<Turn>)
      reads this
    {
      && (forall i :: 0 <= i < |phases| && (phases[i].Ready? || phases[i].Sent?) ==>
            Happened(turns, DialReturns(i, phases[i].ok)))
      && (ctxDone ==> Happened(turns, CallerCancels))
    }

    lemma AllCaused(turns: seq<Turn>)
      requires Valid() && Recounts(turns)
      ensures Caused(turns)
    {
      hide Happened, Exec;
      Causes(n, history);
      forall i | 0 <= i < |phases| && (phases[i].Ready? || phases[i].Sent?)
        ensures Happened(turns, DialReturns(i, phases[i].ok))
      {
        assert DialReturns(i, View().phases[i].ok) in history;
      }
    }

    lemma Safe()
      requires Valid()
      ensures OneOwnerEach() && Paced()
      ensures |phases| == n && (coord.Selecting? ==> completed < started <= n)
    {
      hide Exec, FirstFailed;
      NeverWaitsForNothing(n, history);
      Pacing(n, history);
      ExecSize(n, history);
      ExecInv(n, history);
      SentBound(View());
      hide Inv;
      forall i | 0 <= i < n
        ensures Owners(View(), i) == if phases[i] == Ready(true) || phases[i] == Sent(true) then 1 else 0
      {
        ConnectionHasOneOwner(n, history, i);
      }
    }

    /** The addresses started are the first ones, without gaps, and there is at least one. */
    lemma Prefix()
      requires Valid()
      ensures 0 < started <= n && |starts| == started && forall k :: 0 <= k < started ==> starts[k].addr == k
      ensures |phases| == n && forall i :: 0 <= i < n ==> (phases[i].Idle? <==> started <= i)
    {
      hide Exec;
      Safe();
      ExecInv(n, history);
    }

    // ----- The steps

    constructor (n: nat)
      requires 0 < n
      ensures Valid() && history == [] && this.n == n
    {
      this.n := n;
      phases, closes := seq(n, _ => Idle), seq(n, _ => 0);
      results, errs, sent, starts, history := [], [], [], [], [];
      started, completed, drained, quota, now := 0, 0, 0, 0, 0;
      ctxDone, coord, timer := false, Selecting, Off;
      new;
      StartAttempt();
      ResetTimer();
    }

    method StartAttempt()
      requires started < |phases|
      modifies this`phases, this`started, this`starts
      ensures View() == StartNext(old(View()))
    {
      starts := starts + [Start(started, now, |errs|)];
      phases := phases[started := Dialing];
      started := started + 1;
    }

    method Leave(outcome: Outcome, outstanding: nat)
      modifies this`coord, this`timer, this`quota
      ensures View() == Return(old(View()), outcome, outstanding) && coord == Returned(outcome)
    {
      coord, timer, quota := Returned(outcome), Off, outstanding;
    }

    /** timer.Reset with the head start. */
    method ResetTimer()
      modifies this`timer
      ensures View() == Rearm(old(View()))
    {
      timer := Armed(now + FALLBACK_DELAY);
    }

    /** A dial failed: once all started ones have, the next address starts at once. */
    method OnFailure(addr: nat)
      modifies this`errs, this`phases, this`started, this`starts, this`timer
      ensures View() == AfterFailure(old(View()), addr)
    {
      hide StartNext, Rearm;
      errs := errs + [addr];
      if started < |phases| && completed == started {
        StartAttempt();
        ResetTimer();
      }
    }

    /** case result := <-results, and the test of the loop condition that follows it. */
    method OnResult()
      requires Enabled(View(), SelectResult)
      modifies this
      ensures View() == Step(old(View()), SelectResult) && history == old(history)
      ensures coord.Returned? ==>
                if old(results)[0].ok then coord.outcome == Connected(old(results)[0].addr) else coord.outcome == AllFailed(errs)
      ensures coord.Selecting? <==> completed < |phases| && !old(results)[0].ok
      ensures coord.Returned? && coord.outcome.AllFailed? ==> completed >= |phases|
    {
      ResultStep(View());
      hide AfterFailure, Return, Step, Apply;
      var result := results[0];
      results, completed := results[1..], completed + 1;
      if result.ok {
        Leave(Connected(result.addr), started - completed);
      } else {
        OnFailure(result.addr);
        if completed >= |phases| {
          Leave(AllFailed(errs), 0);
        }
      }
    }

    /** case <-timer.C */
    method OnTimer()
      requires Enabled(View(), SelectTimer)
      modifies this
      ensures View() == Step(old(View()), SelectTimer) && history == old(history)
      ensures coord == old(coord) && completed == old(completed) && |phases| == |old(phases)|
    {
      timer := Off;
      if started < |phases| {
        StartAttempt();
      }
      if started < |phases| {
        ResetTimer();
      }
    }

    /** case <-ctx.Done() */
    method OnDone()
      requires Enabled(View(), SelectDone)
      modifies this
      ensures View() == Step(old(View()), SelectDone) && history == old(history) && coord == Returned(Cancelled)
    {
      Leave(Cancelled, started - completed);
    }

    /** The select statement, once it looks at one case: a case that is not ready changes nothing. */
    method Select(choice: Event) returns (ready: bool)
      requires Valid() && IsCoordinator(choice) && coord.Selecting?
      modifies this
      ensures Valid() && (ready <==> Enabled(old(View()), choice))
      ensures history == if ready then old(history) + [choice] else old(history)
      ensures coord.Selecting? && old(completed) < |old(phases)| ==> completed < |phases|
      ensures coord.Returned? && coord.outcome.AllFailed? ==> coord.outcome.errs == errs && completed >= |phases|
    {
      Safe();
      hide Exec, OneOwnerEach, Paced, Step;
      match choice {
        case SelectDone =>
          ready := ctxDone;
          if ready {
            OnDone();
          }
        case SelectResult =>
          ready := results != [];
          if ready {
            OnResult();
          }
        case SelectTimer =>
          ready := timer.Armed? && timer.deadline <= now;
          if ready {
            OnTimer();
          }
      }
      if ready {
        Recorded(old(View()), choice);
      }
    }

    ghost method Recorded(before: State, e: Event)
      requires 0 < n && before == Exec(n, history) && View() == Step(before, e)
      modifies this`history
      ensures Valid() && history == old(history) + [e]
    {
      hide Step;
      history := history + [e];
      assert history[..|history| - 1] == old(history);
    }

    /** results <- dialResult{...}, in the goroutine of address i. */
    method OnSend(i: nat)
      requires Enabled(View(), Send(i))
      modifies this`phases, this`results, this`sent
      ensures View() == Apply(old(View()), Send(i))
    {
      var result := Result(i, phases[i].ok);
      results, sent := results + [result], sent + [result];
      phases := phases[i := Sent(result.ok)];
    }

    /** One turn of the drainer. */
    method OnDrain()
      requires Enabled(View(), Drain)
      modifies this`results, this`quota, this`drained, this`closes
      ensures View() == Apply(old(View()), Drain)
    {
      var result := results[0];
      results, quota, drained := results[1..], quota - 1, drained + 1;
      if result.ok {
        closes := closes[result.addr := closes[result.addr] + 1];
      }
    }

    /** One step of an attempt, the caller's context or the clock; a step that cannot be taken changes
        nothing. */
    method Move(e: Event)
      requires Valid() && !IsCoordinator(e) && !e.Drain?
      modifies this
      ensures Valid() && history == old(history) + [e]
      ensures coord == old(coord) && completed == old(completed) && quota == old(quota) && closes == old(closes)
    {
      hide Exec;
      match e {
        case DialReturns(i, ok) =>
          if i < |phases| && phases[i] == Dialing {
            phases := phases[i := Ready(ok)];
          }
        case Send(i) =>
          if i < |phases| && phases[i].Ready? && |results| < |phases| {
            OnSend(i);
          }
        case CallerCancels =>
          ctxDone := true;
        case Tick(delta) =>
          now := now + delta;
      }
      Recorded(old(View()), e);
    }

    /** What goes on besides the coordinator and the drainer. */
    method Meanwhile(es: seq<Event>)
      requires Valid() && Others(es)
      modifies this
      ensures Valid() && history == old(history) + es
      ensures coord == old(coord) && completed == old(completed) && quota == old(quota) && closes == old(closes)
    {
      hide Exec;
      for k := 0 to |es|
        invariant Valid() && history == old(history) + es[..k]
        invariant coord == old(coord) && completed == old(completed) && quota == old(quota) && closes == old(closes)
      {
        assert es[..k + 1] == es[..k] + [es[k]];
        Move(es[k]);
      }
      assert es[..|es|] == es;
    }

    // ----- The function

    /** dialApprovedAddresses from the start of the loop, against any environment and any choice among
        the ready cases.  No outcome means that it still waits after the given turns; waited counts the
        turns whose case was not ready. */
    method Dial(turns: seq<Turn>) returns (outcome: Option<Outcome>, waited: nat)
      requires Valid() && history == []
      requires forall k :: 0 <= k < |turns| ==> Others(turns[k].meanwhile) && IsCoordinator(turns[k].choice)
      modifies this
      ensures Valid() && OneOwnerEach() && Paced() && Caused(turns)
      ensures outcome.None? ==> coord.Selecting? && |turns| < 2 * n + waited
      ensures outcome.Some? ==> Returned(outcome.value) == coord && Meant(outcome.value)
    {
      assert coord.Selecting?;
      hide Exec, OneOwnerEach, Paced, Meant, Caused, Happened, CoordinatorSteps;
      waited := 0;
      var turn := 0;
      Safe();
      while completed < |phases|
        invariant turn <= |turns| && Valid() && OneOwnerEach() && Paced() && |phases| == n
        invariant Recounts(turns)
        invariant coord == if completed < |phases| then Selecting else Returned(AllFailed(errs))
        invariant turn <= CoordinatorSteps(n, history) + waited
        decreases |turns| - turn
      {
        if turn == |turns| {
          StillWaiting(n, history);
          AllCaused(turns);
          return None, waited;
        }
        ghost var before := history;
        InTurn(turns, turn);
        Meanwhile(turns[turn].meanwhile);
        StepsKept(n, before, turns[turn].meanwhile);
        before := history;
        var ready := Select(turns[turn].choice);
        Safe();
        if ready {
          StepTaken(n, before, turns[turn].choice);
        } else {
          waited := waited + 1;
        }
        if coord.Returned? && !coord.outcome.AllFailed? {
          Finished();
          AllCaused(turns);
          return Some(coord.outcome), waited;
        }
        turn := turn + 1;
      }
      Finished();
      AllCaused(turns);
      outcome := Some(AllFailed(errs));
    }

    /** The drainer goroutine: it takes what is outstanding and closes the connections that come; waited
        counts the turns that found the channel empty.  When it is done, no goroutine is left, and every connection but the returned one was closed once. */
    method DrainOutstanding(turns: seq<seq<Event>>) returns (finished: bool, waited: nat)
      requires Valid() && coord.Returned?
      requires forall k :: 0 <= k < |turns| ==> Others(turns[k])
      modifies this
      ensures Valid() && OneOwnerEach() && coord == old(coord)
      ensures finished ==>
                && results == []
                && (forall i :: 0 <= i < n ==> phases[i].Idle? || phases[i].Sent?)
                && (forall i :: 0 <= i < n ==>
                      closes[i] == if phases[i] == Sent(true) && coord != Returned(Connected(i)) then 1 else 0)
      ensures !finished ==> quota > 0 && |turns| < waited + old(quota)
    {
      hide Exec, OneOwnerEach;
      waited := 0;
      var turn := 0;
      Safe();
      while quota > 0
        invariant turn <= |turns| && Valid() && OneOwnerEach() && coord == old(coord)
        invariant turn + quota <= old(quota) + waited
        decreases |turns| - turn
      {
        if turn == |turns| {
          return false, waited;
        }
        Meanwhile(turns[turn]);
        if results != [] {
          SendNeverBlocks(n, history);
          ghost var before := View();
          OnDrain();
          Recorded(before, Drain);
        } else {
          waited := waited + 1;
        }
        Safe();
        turn := turn + 1;
      }
      DrainedIsClean(n, history);
      finished := true;
    }
  }
}
