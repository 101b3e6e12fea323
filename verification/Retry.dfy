/** retryTransport.RoundTrip: bounded attempts, body replay, draining, waiting and the observer, for
    every sequence of outcomes and cancellations. */
module Retry {
  import opened Arithmetic
  import opened Octets
  import Backoff

  const MAX_DRAIN: int := 65536

  // ----- Request bodies

  /** A request body: none, a reader over bytes in memory, or a stream that can be read once and may
      break after its data or fail to close. */
  datatype Body = NoBody | Reader(content: seq<Byte>, pos: nat) | Stream(data: seq<Byte>, broken: bool, closeFails: bool)

  /** GetBody.  By its contract every call returns a new, unread body with the original content. */
  datatype GetBody = GetNothing | GetBytes(content: seq<Byte>)

  function Fresh(g: GetBody): Body {
    match g
    case GetNothing => NoBody
    case GetBytes(content) => Reader(content, 0)
  }

  datatype BodyError = ReadError | CloseError | TooLarge

  datatype Buffered = Rejected(error: BodyError) | Accepted(content: seq<Byte>)

  /** io.ReadAll through io.LimitReader(_, limit): a limit that is not positive reads as the end. */
  function LimitedRead(data: seq<Byte>, broken: bool, limit: int): (seq<Byte>, bool) {
    if limit <= 0 then ([], false)
    else if limit <= |data| then (data[..limit], false)
    else (data, broken)
  }

  /** Reading a stream into memory; maxBytes + 1 is int64 arithmetic. */
  function Buffer(data: seq<Byte>, broken: bool, closeFails: bool, maxBytes: int): Buffered {
    var (body, failed) :=
      if maxBytes > 0 then LimitedRead(data, broken, Wrap64(maxBytes + 1)) else (data, broken);
    if failed then Rejected(ReadError)
    else if closeFails then Rejected(CloseError)
    else if maxBytes > 0 && |body| > maxBytes then Rejected(TooLarge)
    else Accepted(body)
  }

  /** Within the ordinary range of the limit a stream is accepted iff it reads and closes cleanly and
      is at most maxBytes long, and the buffer then is the whole stream. */
  lemma BufferedIff(data: seq<Byte>, broken: bool, closeFails: bool, maxBytes: int)
    requires maxBytes < TWO_63 - 1
    ensures var r := Buffer(data, broken, closeFails, maxBytes);
      var long := maxBytes > 0 && |data| > maxBytes;
      && (r.Accepted? <==> !closeFails && !long && !broken)
      && (r.Accepted? ==> r.content == data)
      && (r == Rejected(TooLarge) <==> long && !closeFails)
      && (r == Rejected(ReadError) <==> broken && !long)
  {
  }

  /** At the largest limit maxBytes + 1 wraps to a negative number and nothing is read: the request is
      accepted with an empty body. */
  lemma LargestLimitReadsNothing(data: seq<Byte>, broken: bool)
    ensures Buffer(data, broken, false, TWO_63 - 1) == Accepted([])
  {
  }

  /** So an accepted buffer is the complete stream iff the limit is not the largest one or the stream
      is empty. */
  lemma CompleteIff(data: seq<Byte>, broken: bool, closeFails: bool, maxBytes: int)
    requires IsInt64(maxBytes) && Buffer(data, broken, closeFails, maxBytes).Accepted?
    ensures Buffer(data, broken, closeFails, maxBytes).content == data <==> maxBytes != TWO_63 - 1 || data == []
  {
    if maxBytes != TWO_63 - 1 {
      BufferedIff(data, broken, closeFails, maxBytes);
    }
  }

  // ----- Requests

  class Request {
    var body: Body
    var getBody: Option<GetBody>
    var contentLength: int

    constructor (body: Body, getBody: Option<GetBody>, contentLength: int)
      ensures this.body == body && this.getBody == getBody && this.contentLength == contentLength
    {
      this.body, this.getBody, this.contentLength := body, getBody, contentLength;
    }

    /** prepareBody */
    method Prepare(maxBytes: int) returns (err: Option<BodyError>, get: Option<GetBody>)
      modifies this
      ensures old(body).NoBody? ==> err == None && get == Some(GetNothing) && unchanged(this)
      ensures !old(body).NoBody? && old(getBody).Some? ==> err == None && get == old(getBody) && unchanged(this)
      ensures old(body).Stream? && old(getBody).None? ==>
                match Buffer(old(body).data, old(body).broken, old(body).closeFails, maxBytes)
                case Rejected(e) => err == Some(e) && get == None
                case Accepted(content) =>
                  && err == None && get == Some(GetBytes(content)) == getBody
                  && body == Reader(content, 0) && contentLength == |content|
      ensures old(body).Reader? && old(getBody).None? ==>
                match Buffer(Unread(old(body)), false, false, maxBytes)
                case Rejected(e) => err == Some(e) && get == None
                case Accepted(content) =>
                  && err == None && get == Some(GetBytes(content)) == getBody
                  && body == Reader(content, 0) && contentLength == |content|
    {
      if body.NoBody? {
        return None, Some(GetNothing);
      }
      if getBody.Some? {
        return None, getBody;
      }
      var data, broken, closeFails :=
        Unread(body), body.Stream? && body.broken, body.Stream? && body.closeFails;
      match Buffer(data, broken, closeFails, maxBytes)
      case Rejected(e) =>
        return Some(e), None;
      case Accepted(content) =>
        contentLength := |content|;
        getBody := Some(GetBytes(content));
        body := Fresh(getBody.value);
        return None, getBody;
    }
  }

  function Unread(b: Body): seq<Byte> {
    match b
    case NoBody => []
    case Reader(content, pos) => if pos <= |content| then content[pos..] else []
    case Stream(data, _, _) => data
  }

  // ----- What to retry

  /** What errors.Is and errors.As say about a transport error. */
  datatype Failure = Failure(
    canceled: bool, deadlineExceeded: bool, bodyIdle: bool, eof: bool, connection: bool, timeout: bool,
    dns: Option<bool>)

  /** isRetryableError; dns carries IsNotFound. */
  predicate IsRetryable(e: Failure) {
    if e.canceled || e.deadlineExceeded then false
    else e.bodyIdle || e.eof || e.connection || e.timeout || (e.dns.Some? && !e.dns.value)
  }

  datatype Response = Response(status: int, headers: Backoff.Headers, bodyLength: nat)

  datatype Outcome = Failed(failure: Failure) | Got(response: Response)

  datatype Config = Config(
    maxRetries: nat, waits: Backoff.Config, maxBodyBytes: int, codes: set<int>, methodRetryable: bool, custom: bool)

  /** One attempt and the wait after it, as the environment decides them: the outcome, the answer of
      a custom checkRetry, how much of the request body the transport read, whether the context is done
      before or during the sleep, whether rewinding fails, the clock and the random draw. */
  datatype Turn = Turn(
    outcome: Outcome, checkRetry: bool, consumed: nat, ctxDone: bool, interrupted: bool, rewindFails: bool,
    now: int, jitter: nat)

  predicate ShouldRetry(cfg: Config, t: Turn) {
    if !cfg.methodRetryable then false
    else if cfg.custom then t.checkRetry
    else match t.outcome
      case Failed(e) => IsRetryable(e)
      case Got(r) => r.status in cfg.codes
  }

  function WaitAfter(cfg: Config, k: nat, t: Turn): int {
    Backoff.Wait(cfg.waits, k, if t.outcome.Got? then Some(t.outcome.response.headers) else None, t.now, t.jitter)
  }

  predicate Retries(cfg: Config, k: nat, t: Turn) {
    ShouldRetry(cfg, t) && k != cfg.maxRetries
  }

  predicate WaitSucceeds(t: Turn) {
    !t.ctxDone && !t.interrupted && !t.rewindFails
  }

  // ----- Traces

  datatype Action =
    | Dispatch(attempt: nat, body: Body)
    | Observe(attempt: nat)
    | Drain(attempt: nat, bytes: nat)
    | Close(attempt: nat)
    | Sleep(duration: int)

  datatype Result =
    | Refused(error: BodyError)
    | Returned(attempt: nat)
    | Abandoned(attempt: nat)

  function Discard(k: nat, t: Turn): seq<Action> {
    match t.outcome
    case Failed(_) => []
    case Got(r) => [Drain(k, Min(r.bodyLength, MAX_DRAIN)), Close(k)]
  }

  /** Everything up to and including the dispatch of attempt m, when all earlier attempts are retried:
      observe, discard, sleep, then dispatch with a fresh body. */
  function Upto(cfg: Config, turns: seq<Turn>, first: Body, get: GetBody, m: nat): seq<Action>
    requires m <= |turns|
  {
    if m == 0 then [Dispatch(0, first)]
    else
      Upto(cfg, turns, first, get, m - 1) + [Observe(m - 1)] + Turnaround(cfg, m - 1, turns[m - 1])
      + [Dispatch(m, Fresh(get))]
  }

  /** Between two attempts. */
  function Turnaround(cfg: Config, k: nat, t: Turn): seq<Action> {
    Discard(k, t) + [Sleep(WaitAfter(cfg, k, t))]
  }

  /** What follows the dispatch of attempt m when the wait after it fails. */
  function Abandon(cfg: Config, m: nat, t: Turn): seq<Action> {
    [Observe(m)] + if t.ctxDone then Discard(m, t) else Turnaround(cfg, m, t)
  }

  ghost predicate AllRetried(cfg: Config, turns: seq<Turn>, m: nat) {
    m <= |turns| && forall j :: 0 <= j < m ==> Retries(cfg, j, turns[j]) && WaitSucceeds(turns[j])
  }

  function Consume(b: Body, n: nat): Body {
    match b
    case Reader(content, pos) => Reader(content, pos + n)
    case _ => b
  }

  /** drainAndClose */
  method DrainAndClose(k: nat, t: Turn, trace: seq<Action>) returns (trace': seq<Action>)
    ensures trace' == trace + Discard(k, t)
  {
    trace' := trace;
    if t.outcome.Got? {
      var drained := if t.outcome.response.bodyLength < MAX_DRAIN then t.outcome.response.bodyLength else MAX_DRAIN;
      trace' := trace' + [Drain(k, drained), Close(k)];
    }
  }

  /** waitForRetry: the sleep and the rewind. */
  method WaitForRetry(cfg: Config, req: Request, get: Option<GetBody>, k: nat, t: Turn, trace: seq<Action>)
    returns (ok: bool, trace': seq<Action>)
    requires get.None? ==> !t.rewindFails
    modifies req
    ensures trace' == trace + if t.ctxDone then [] else [Sleep(WaitAfter(cfg, k, t))]
    ensures ok <==> WaitSucceeds(t)
    ensures ok && get.Some? ==> req.body == Fresh(get.value)
  {
    trace' := trace;
    if t.ctxDone {
      return false, trace';
    }
    trace' := trace' + [Sleep(WaitAfter(cfg, k, t))];
    if t.interrupted {
      return false, trace';
    }
    if get.Some? {
      if t.rewindFails {
        return false, trace';
      }
      req.body := Fresh(get.value);
    }
    return true, trace';
  }

  /** The retry loop.  The result tells which attempt was the last, the trace what happened. */
  method RoundTrip(cfg: Config, req: Request, turns: seq<Turn>) returns (result: Result, trace: seq<Action>)
    requires |turns| == cfg.maxRetries + 1
    modifies req
    ensures (var prepared := Prepared(cfg, old(req.body), old(req.getBody));
             if prepared.Rejected? then result == Refused(prepared.error) && trace == []
             else IsRun(cfg, turns, FirstBody(cfg, old(req.body), old(req.getBody)),
                        Replay(cfg, old(req.body), old(req.getBody)), result, trace))
  {
    hide AllRetried, Prepared, FirstBody, Replay;
    var err, get := Gate(cfg, req);
    if err.Some? {
      return Refused(err.value), [];
    }
    result, trace := Attempts(cfg, req, get, turns, Replay(cfg, old(req.body), old(req.getBody)));
  }

  /** Only a request that could be retried has its body made replayable. */
  method Gate(cfg: Config, req: Request) returns (err: Option<BodyError>, get: Option<GetBody>)
    modifies req
    ensures (var prepared := Prepared(cfg, old(req.body), old(req.getBody));
             err == if prepared.Rejected? then Some(prepared.error) else None)
    ensures err.None? ==> req.body == FirstBody(cfg, old(req.body), old(req.getBody))
    ensures err.None? ==>
              get == if cfg.maxRetries > 0 && cfg.methodRetryable then Some(Replay(cfg, old(req.body), old(req.getBody)))
                     else None
  {
    err, get := None, None;
    if cfg.maxRetries > 0 && cfg.methodRetryable {
      err, get := req.Prepare(cfg.maxBodyBytes);
    }
  }

  method Attempts(cfg: Config, req: Request, get: Option<GetBody>, turns: seq<Turn>, ghost replay: GetBody)
    returns (result: Result, trace: seq<Action>)
    requires |turns| == cfg.maxRetries + 1
    requires get == if cfg.maxRetries > 0 && cfg.methodRetryable then Some(replay) else None
    modifies req
    ensures IsRun(cfg, turns, old(req.body), replay, result, trace)
  {
    hide WaitAfter, Discard;
    ghost var first := req.body;
    trace := [];
    var attempt := 0;
    while true
      invariant 0 <= attempt <= cfg.maxRetries
      invariant AllRetried(cfg, turns, Max(attempt - 1, 0))
      invariant attempt == 0 ==> trace == [] && req.body == first
      invariant attempt > 0 ==> Retries(cfg, attempt - 1, turns[attempt - 1])
      invariant attempt > 0 ==> trace == Upto(cfg, turns, first, replay, attempt - 1) + [Observe(attempt - 1)]
      decreases cfg.maxRetries - attempt
    {
      var t := turns[attempt];
      if attempt > 0 {
        var ok;
        trace := DrainAndClose(attempt - 1, turns[attempt - 1], trace);
        ok, trace := WaitForRetry(cfg, req, get, attempt - 1, turns[attempt - 1], trace);
        if !ok {
          AbandonTrace(cfg, turns, first, replay, attempt - 1, trace);
          return Abandoned(attempt - 1), trace;
        }
        UptoTrace(cfg, turns, first, replay, attempt, trace);
      }
      trace := trace + [Dispatch(attempt, req.body)];
      req.body := Consume(req.body, t.consumed);
      if !ShouldRetry(cfg, t) || attempt == cfg.maxRetries {
        return Returned(attempt), trace;
      }
      trace := trace + [Observe(attempt)];
      attempt := attempt + 1;
    }
  }

  lemma UptoTrace(cfg: Config, turns: seq<Turn>, first: Body, get: GetBody, m: nat, trace: seq<Action>)
    requires 0 < m <= |turns|
    requires trace == Upto(cfg, turns, first, get, m - 1) + [Observe(m - 1)] + Discard(m - 1, turns[m - 1])
                      + [Sleep(WaitAfter(cfg, m - 1, turns[m - 1]))]
    ensures trace + [Dispatch(m, Fresh(get))] == Upto(cfg, turns, first, get, m)
  {
    hide WaitAfter, Discard;
  }

  lemma AbandonTrace(cfg: Config, turns: seq<Turn>, first: Body, get: GetBody, m: nat, trace: seq<Action>)
    requires m < |turns|
    requires trace == Upto(cfg, turns, first, get, m) + [Observe(m)] + Discard(m, turns[m])
                      + if turns[m].ctxDone then [] else [Sleep(WaitAfter(cfg, m, turns[m]))]
    ensures trace == Upto(cfg, turns, first, get, m) + Abandon(cfg, m, turns[m])
  {
    hide WaitAfter, Discard, Upto;
  }

  /** The two ways a run ends, and its trace. */
  ghost predicate IsRun(cfg: Config, turns: seq<Turn>, first: Body, get: GetBody, result: Result, trace: seq<Action>)
    requires |turns| == cfg.maxRetries + 1
  {
    match result
    case Refused(_) => false
    case Returned(m) =>
      && m <= cfg.maxRetries && AllRetried(cfg, turns, m) && !Retries(cfg, m, turns[m])
      && trace == Upto(cfg, turns, first, get, m)
    case Abandoned(m) =>
      && m < cfg.maxRetries && AllRetried(cfg, turns, m) && Retries(cfg, m, turns[m]) && !WaitSucceeds(turns[m])
      && trace == Upto(cfg, turns, first, get, m) + Abandon(cfg, m, turns[m])
  }

  /** What preparing the body comes to. */
  function Prepared(cfg: Config, body: Body, getBody: Option<GetBody>): Buffered {
    if cfg.maxRetries == 0 || !cfg.methodRetryable || body.NoBody? || getBody.Some? then Accepted(Unread(body))
    else Buffer(Unread(body), body.Stream? && body.broken, body.Stream? && body.closeFails, cfg.maxBodyBytes)
  }

  /** The body of the first attempt. */
  function FirstBody(cfg: Config, body: Body, getBody: Option<GetBody>): Body {
    if cfg.maxRetries == 0 || !cfg.methodRetryable || body.NoBody? || getBody.Some? then body
    else match Prepared(cfg, body, getBody)
      case Accepted(content) => Reader(content, 0)
      case Rejected(_) => body
  }

  /** Where the bodies of the later attempts come from. */
  function Replay(cfg: Config, body: Body, getBody: Option<GetBody>): GetBody {
    if body.NoBody? then GetNothing
    else if getBody.Some? then getBody.value
    else match Prepared(cfg, body, getBody)
      case Accepted(content) => GetBytes(content)
      case Rejected(_) => GetNothing
  }

  // ----- Accounting for whole runs

  /** The attempts dispatched, reported to the observer and closed, each in order, and the sleeping
      time requested. */
  datatype Tally = Tally(dispatched: seq<nat>, observed: seq<nat>, closed: seq<nat>, slept: int)

  const NOTHING: Tally := Tally([], [], [], 0)

  function Plus(x: Tally, y: Tally): Tally {
    Tally(x.dispatched + y.dispatched, x.observed + y.observed, x.closed + y.closed, x.slept + y.slept)
  }

  function Unit(a: Action): Tally {
    match a
    case Dispatch(k, _) => NOTHING.(dispatched := [k])
    case Observe(k) => NOTHING.(observed := [k])
    case Drain(_, _) => NOTHING
    case Close(k) => NOTHING.(closed := [k])
    case Sleep(d) => NOTHING.(slept := d)
  }

  function Count(trace: seq<Action>): Tally {
    if trace == [] then NOTHING else Plus(Count(trace[..|trace| - 1]), Unit(trace[|trace| - 1]))
  }

  lemma PlusLaws(x: Tally, y: Tally, z: Tally)
    ensures Plus(x, NOTHING) == x == Plus(NOTHING, x)
    ensures Plus(Plus(x, y), z) == Plus(x, Plus(y, z))
  {
  }

  lemma {:induction false} Append(a: seq<Action>, b: seq<Action>)
    ensures Count(a + b) == Plus(Count(a), Count(b))
  {
    hide Plus, Unit;
    if b == [] {
      assert a + b == a;
      PlusLaws(Count(a), NOTHING, NOTHING);
    } else {
      var n := |b| - 1;
      Append(a, b[..n]);
      assert (a + b)[..|a + b| - 1] == a + b[..n];
      PlusLaws(Count(a), Count(b[..n]), Unit(b[n]));
    }
  }

  /** The attempts below n that got a response. */
  function Responded(turns: seq<Turn>, n: nat): seq<nat>
    requires n <= |turns|
  {
    if n == 0 then [] else Responded(turns, n - 1) + if turns[n - 1].outcome.Got? then [n - 1] else []
  }

  lemma One(a: Action)
    ensures Count([a]) == Unit(a)
  {
    assert [a][..0] == [];
  }

  lemma AppendRound(front: seq<Action>, a: Action, between: seq<Action>, b: Action)
    ensures Count(front + [a] + between + [b]) == Plus(Plus(Plus(Count(front), Unit(a)), Count(between)), Unit(b))
  {
    One(a);
    One(b);
    hide Count, Plus, Unit;
    Append(front, [a]);
    Append(front + [a], between);
    Append(front + [a] + between, [b]);
  }

  lemma Two(a: Action, b: Action)
    ensures Count([a, b]) == Plus(Unit(a), Unit(b))
  {
    One(a);
    One(b);
    hide Count, Plus, Unit;
    Append([a], [b]);
    assert [a, b] == [a] + [b];
  }

  lemma DiscardCounts(k: nat, t: Turn)
    ensures Count(Discard(k, t)) == NOTHING.(closed := if t.outcome.Got? then [k] else [])
  {
    if t.outcome.Got? {
      hide Count;
      var bytes := Min(t.outcome.response.bodyLength, MAX_DRAIN);
      assert Discard(k, t) == [Drain(k, bytes), Close(k)];
      Two(Drain(k, bytes), Close(k));
      hide Min, Discard;
    }
  }

  lemma TurnaroundCounts(cfg: Config, k: nat, t: Turn)
    ensures Count(Turnaround(cfg, k, t)) == Tally([], [], if t.outcome.Got? then [k] else [], WaitAfter(cfg, k, t))
  {
    hide WaitAfter;
    DiscardCounts(k, t);
    One(Sleep(WaitAfter(cfg, k, t)));
    Append(Discard(k, t), [Sleep(WaitAfter(cfg, k, t))]);
  }

  /** The longest single wait the configuration allows. */
  function LongestWait(cfg: Config): int {
    Max(cfg.waits.waitMax, cfg.waits.maxRetryAfter)
  }

  ghost predicate FairDraws(cfg: Config, turns: seq<Turn>) {
    cfg.waits.Normal() && forall k :: 0 <= k < |turns| ==> Backoff.JitterOk(cfg.waits, k, turns[k].jitter)
  }

  lemma WaitAfterRange(cfg: Config, turns: seq<Turn>, k: nat)
    requires FairDraws(cfg, turns) && k < |turns|
    ensures 0 < WaitAfter(cfg, k, turns[k]) <= LongestWait(cfg)
  {
    var t := turns[k];
    Backoff.WaitRange(cfg.waits, k, if t.outcome.Got? then Some(t.outcome.response.headers) else None, t.now, t.jitter);
  }

  /** One more round, added up. */
  lemma RoundTally(m: nat, body: Body, closed: seq<nat>, here: seq<nat>, slept: int, wait: int)
    requires m > 0
    ensures Plus(Plus(Plus(Tally(UpTo(m), UpTo(m - 1), closed, slept), Unit(Observe(m - 1))),
                      Tally([], [], here, wait)), Unit(Dispatch(m, body)))
            == Tally(UpTo(m + 1), UpTo(m), closed + here, slept + wait)
  {
    assert UpTo(m + 1) == UpTo(m) + [m] && UpTo(m) == UpTo(m - 1) + [m - 1];
  }

  /** The sleeps after the first m attempts. */
  function Waits(cfg: Config, turns: seq<Turn>, m: nat): int
    requires m <= |turns|
  {
    if m == 0 then 0 else Waits(cfg, turns, m - 1) + WaitAfter(cfg, m - 1, turns[m - 1])
  }

  lemma {:induction false} WaitsBounded(cfg: Config, turns: seq<Turn>, m: nat)
    requires m <= |turns| && FairDraws(cfg, turns)
    ensures m <= Waits(cfg, turns, m) <= m * LongestWait(cfg)
  {
    hide WaitAfter, LongestWait, FairDraws;
    if m > 0 {
      WaitsBounded(cfg, turns, m - 1);
      WaitAfterRange(cfg, turns, m - 1);
      Accumulate(m, LongestWait(cfg));
    }
  }

  lemma {:induction false} UptoCounts(cfg: Config, turns: seq<Turn>, first: Body, get: GetBody, m: nat)
    requires m < |turns|
    ensures Count(Upto(cfg, turns, first, get, m))
            == Tally(UpTo(m + 1), UpTo(m), Responded(turns, m), Waits(cfg, turns, m))
  {
    hide WaitAfter, Turnaround, Count;
    if m == 0 {
      One(Dispatch(0, first));
      assert UpTo(1) == [0];
    } else {
      hide Plus, Unit, UpTo;
      var front := Upto(cfg, turns, first, get, m - 1);
      var t := turns[m - 1];
      UptoCounts(cfg, turns, first, get, m - 1);
      TurnaroundCounts(cfg, m - 1, t);
      AppendRound(front, Observe(m - 1), Turnaround(cfg, m - 1, t), Dispatch(m, Fresh(get)));
      RoundTally(m, Fresh(get), Responded(turns, m - 1), if t.outcome.Got? then [m - 1] else [],
                 Waits(cfg, turns, m - 1), WaitAfter(cfg, m - 1, t));
    }
  }

  lemma Accumulate(m: nat, w: int)
    ensures (m - 1) * w + w == m * w
  {
  }

  lemma AbandonCounts(cfg: Config, m: nat, t: Turn)
    ensures Count(Abandon(cfg, m, t))
            == Tally([], [m], if t.outcome.Got? then [m] else [], if t.ctxDone then 0 else WaitAfter(cfg, m, t))
  {
    hide WaitAfter, Turnaround, Discard, Count;
    TurnaroundCounts(cfg, m, t);
    DiscardCounts(m, t);
    One(Observe(m));
    Append([Observe(m)], if t.ctxDone then Discard(m, t) else Turnaround(cfg, m, t));
  }

  /** For every sequence of outcomes and cancellations: the attempts are 0, 1, ... and at most
      maxRetries + 1; the observer is told of every attempt but the returned one; and the responses
      closed are exactly the superseded ones, once each and in order, so a returned response is open. */
  lemma {:induction false} Accounting(
    cfg: Config, turns: seq<Turn>, first: Body, get: GetBody, result: Result, trace: seq<Action>)
    requires |turns| == cfg.maxRetries + 1 && IsRun(cfg, turns, first, get, result, trace)
    ensures result.Returned? || result.Abandoned?
    ensures var m := result.attempt;
      && m + 1 <= cfg.maxRetries + 1 && Count(trace).dispatched == UpTo(m + 1)
      && (result.Returned? ==> Count(trace).observed == UpTo(m) && Count(trace).closed == Responded(turns, m))
      && (result.Abandoned? ==>
            Count(trace).observed == UpTo(m + 1) && Count(trace).closed == Responded(turns, m + 1))
  {
    hide Abandon, Upto, Count, WaitAfter, Waits;
    var m := result.attempt;
    UptoCounts(cfg, turns, first, get, m);
    if result.Abandoned? {
      AbandonCounts(cfg, m, turns[m]);
      Append(Upto(cfg, turns, first, get, m), Abandon(cfg, m, turns[m]));
      assert UpTo(m + 1) == UpTo(m) + [m];
    }
  }

  // ----- What each action of a run may be

  /** The response of attempt k is given up: a later attempt follows, or the wait after it fails. */
  predicate Superseded(result: Result, k: nat) {
    (result.Returned? || result.Abandoned?) && (k < result.attempt || (result.Abandoned? && k == result.attempt))
  }

  /** The body of a dispatch, the size of a drain, the length of a sleep, and whose response is drained
      and closed. */
  ghost predicate Proper(cfg: Config, turns: seq<Turn>, first: Body, get: GetBody, result: Result, a: Action) {
    match a
    case Dispatch(k, body) => body == if k == 0 then first else Fresh(get)
    case Observe(k) => k < |turns| && ShouldRetry(cfg, turns[k])
    case Drain(k, bytes) =>
      && Superseded(result, k) && k < |turns| && turns[k].outcome.Got?
      && bytes <= turns[k].outcome.response.bodyLength && bytes <= 65536
      && (bytes == turns[k].outcome.response.bodyLength || bytes == 65536)
    case Close(k) => Superseded(result, k) && k < |turns| && turns[k].outcome.Got?
    case Sleep(d) => FairDraws(cfg, turns) ==> 0 < d <= LongestWait(cfg)
  }

  ghost predicate AllProper(
    cfg: Config, turns: seq<Turn>, first: Body, get: GetBody, result: Result, trace: seq<Action>)
  {
    forall a :: a in trace ==> Proper(cfg, turns, first, get, result, a)
  }

  lemma RoundProper(cfg: Config, turns: seq<Turn>, first: Body, get: GetBody, result: Result, k: nat)
    requires k < |turns| && Retries(cfg, k, turns[k]) && Superseded(result, k)
    ensures AllProper(cfg, turns, first, get, result, [Observe(k)])
    ensures AllProper(cfg, turns, first, get, result, Discard(k, turns[k]))
    ensures AllProper(cfg, turns, first, get, result, Turnaround(cfg, k, turns[k]))
  {
    hide WaitAfter, LongestWait, FairDraws;
    if FairDraws(cfg, turns) {
      WaitAfterRange(cfg, turns, k);
    }
  }

  lemma ProperConcat(
    cfg: Config, turns: seq<Turn>, first: Body, get: GetBody, result: Result, a: seq<Action>, b: seq<Action>)
    requires AllProper(cfg, turns, first, get, result, a) && AllProper(cfg, turns, first, get, result, b)
    ensures AllProper(cfg, turns, first, get, result, a + b)
  {
    hide Proper;
  }

  lemma {:induction false} UptoProper(
    cfg: Config, turns: seq<Turn>, first: Body, get: GetBody, result: Result, m: nat)
    requires m <= |turns| && (result.Returned? || result.Abandoned?) && m <= result.attempt
    requires AllRetried(cfg, turns, m)
    ensures AllProper(cfg, turns, first, get, result, Upto(cfg, turns, first, get, m))
  {
    if m > 0 {
      UptoProper(cfg, turns, first, get, result, m - 1);
      RoundProper(cfg, turns, first, get, result, m - 1);
      var front, middle := Upto(cfg, turns, first, get, m - 1), Turnaround(cfg, m - 1, turns[m - 1]);
      assert AllProper(cfg, turns, first, get, result, [Dispatch(m, Fresh(get))]);
      hide AllProper, Turnaround;
      ProperConcat(cfg, turns, first, get, result, front, [Observe(m - 1)]);
      ProperConcat(cfg, turns, first, get, result, front + [Observe(m - 1)], middle);
      ProperConcat(cfg, turns, first, get, result, front + [Observe(m - 1)] + middle, [Dispatch(m, Fresh(get))]);
    }
  }

  /** In every run, whichever way it ends: attempt 0 sends the first body and every later attempt a fresh
      one; only attempts that should be retried are reported; only superseded responses are drained,
      of at most 64 KiB, and closed; and every sleep is positive and within the configured bounds. */
  lemma {:induction false} EveryActionIsProper(
    cfg: Config, turns: seq<Turn>, first: Body, get: GetBody, result: Result, trace: seq<Action>)
    requires |turns| == cfg.maxRetries + 1 && IsRun(cfg, turns, first, get, result, trace)
    ensures AllProper(cfg, turns, first, get, result, trace)
  {
    var m := result.attempt;
    hide AllProper, Discard, Turnaround;
    UptoProper(cfg, turns, first, get, result, m);
    if result.Abandoned? {
      var t := turns[m];
      RoundProper(cfg, turns, first, get, result, m);
      ProperConcat(cfg, turns, first, get, result, [Observe(m)], if t.ctxDone then Discard(m, t) else Turnaround(cfg, m, t));
      ProperConcat(cfg, turns, first, get, result, Upto(cfg, turns, first, get, m), Abandon(cfg, m, t));
    }
  }

  /** Whatever the servers ask for, every sleep is positive and the time slept in a whole run is
      bounded by the configuration. */
  lemma {:induction false} SleepIsBounded(
    cfg: Config, turns: seq<Turn>, first: Body, get: GetBody, result: Result, trace: seq<Action>)
    requires |turns| == cfg.maxRetries + 1 && FairDraws(cfg, turns)
    requires IsRun(cfg, turns, first, get, result, trace)
    ensures forall d :: Sleep(d) in trace ==> 0 < d <= LongestWait(cfg)
    ensures result.attempt <= Count(trace).slept
    ensures 0 <= Count(trace).slept <= cfg.maxRetries * LongestWait(cfg)
  {
    hide FairDraws, LongestWait, Abandon, Upto, Count, WaitAfter, Waits;
    var m := result.attempt;
    EveryActionIsProper(cfg, turns, first, get, result, trace);
    UptoCounts(cfg, turns, first, get, m);
    WaitsBounded(cfg, turns, m);
    WaitAfterRange(cfg, turns, m);
    if result.Abandoned? {
      AbandonCounts(cfg, m, turns[m]);
      Append(Upto(cfg, turns, first, get, m), Abandon(cfg, m, turns[m]));
      Accumulate(m + 1, LongestWait(cfg));
      MulMonotone(m + 1, cfg.maxRetries, LongestWait(cfg));
    } else {
      MulMonotone(m, cfg.maxRetries, LongestWait(cfg));
    }
  }

  // ----- What is retried

  /** Which attempts of a run are given up for a retry, decided by what they met.  Without a custom check:
      the responses with a configured status; of the failures, those that are idle, EOF, connection or
      timeout errors, or a DNS error other than an unknown name, unless cancellation or a deadline is
      behind them.  With a custom check, what it says.  In both cases only a retryable method, and never
      the last attempt allowed. */
  lemma {:induction false} RetriedIff(
    cfg: Config, turns: seq<Turn>, first: Body, get: GetBody, result: Result, trace: seq<Action>, k: nat)
    requires |turns| == cfg.maxRetries + 1 && IsRun(cfg, turns, first, get, result, trace) && k <= result.attempt
    ensures cfg.custom ==>
              (Superseded(result, k) <==> cfg.methodRetryable && k < cfg.maxRetries && turns[k].checkRetry)
    ensures !cfg.custom && turns[k].outcome.Got? ==>
              (Superseded(result, k) <==>
               cfg.methodRetryable && k < cfg.maxRetries && turns[k].outcome.response.status in cfg.codes)
    ensures !cfg.custom && turns[k].outcome.Failed? ==>
              var e := turns[k].outcome.failure;
              (Superseded(result, k) <==>
               && cfg.methodRetryable && k < cfg.maxRetries && !e.canceled && !e.deadlineExceeded
               && (e.bodyIdle || e.eof || e.connection || e.timeout || e.dns == Some(false)))
  {
    hide Upto, Abandon;
    assert Superseded(result, k) <==> Retries(cfg, k, turns[k]) by {
      hide Retries, WaitSucceeds;
      assert k < |turns|;
    }
    hide IsRun, Superseded;
  }

  /** The turns determine the run. */
  lemma {:induction false} RunIsDetermined(
    cfg: Config, turns: seq<Turn>, first: Body, get: GetBody, r: Result, s: seq<Action>, r': Result, s': seq<Action>)
    requires |turns| == cfg.maxRetries + 1
    requires IsRun(cfg, turns, first, get, r, s) && IsRun(cfg, turns, first, get, r', s')
    ensures r == r' && s == s'
  {
    hide Upto, Abandon, Retries, WaitSucceeds;
    if r.attempt < r'.attempt {
      assert false;
    } else if r'.attempt < r.attempt {
      assert false;
    }
  }

  // ----- How long is slept

  function Sleeps(trace: seq<Action>): seq<int> {
    if trace == [] then []
    else Sleeps(trace[..|trace| - 1]) + if trace[|trace| - 1].Sleep? then [trace[|trace| - 1].duration] else []
  }

  lemma {:induction false} SleepsConcat(a: seq<Action>, b: seq<Action>)
    ensures Sleeps(a + b) == Sleeps(a) + Sleeps(b)
  {
    if b == [] {
      assert a + b == a;
    } else {
      SleepsConcat(a, b[..|b| - 1]);
      assert (a + b)[..|a + b| - 1] == a + b[..|b| - 1];
    }
  }

  lemma {:induction false} SleeplessTrace(a: seq<Action>)
    requires forall k :: 0 <= k < |a| ==> !a[k].Sleep?
    ensures Sleeps(a) == []
  {
    if a != [] {
      SleeplessTrace(a[..|a| - 1]);
    }
  }

  lemma TurnaroundSleeps(cfg: Config, k: nat, t: Turn)
    ensures Sleeps(Discard(k, t)) == [] && Sleeps(Turnaround(cfg, k, t)) == [WaitAfter(cfg, k, t)]
  {
    SleeplessTrace(Discard(k, t));
    hide Discard, WaitAfter;
    SleepsConcat(Discard(k, t), [Sleep(WaitAfter(cfg, k, t))]);
    assert [Sleep(WaitAfter(cfg, k, t))][..0] == [];
  }

  function HeadersOf(t: Turn): Option<Backoff.Headers> {
    if t.outcome.Got? then Some(t.outcome.response.headers) else None
  }

  /** Each sleep is the one the attempt before it asks for. */
  ghost predicate RightSleeps(cfg: Config, turns: seq<Turn>, sleeps: seq<int>) {
    && |sleeps| <= |turns|
    && forall k :: 0 <= k < |sleeps| ==>
         Backoff.RightWait(cfg.waits, k, HeadersOf(turns[k]), turns[k].now, turns[k].jitter, sleeps[k])
  }

  lemma OneMoreSleep(cfg: Config, turns: seq<Turn>, sleeps: seq<int>)
    requires FairDraws(cfg, turns) && RightSleeps(cfg, turns, sleeps) && |sleeps| < |turns|
    ensures RightSleeps(cfg, turns, sleeps + [WaitAfter(cfg, |sleeps|, turns[|sleeps|])])
  {
    var k, t := |sleeps|, turns[|sleeps|];
    hide Backoff.RightWait;
    Backoff.WaitIsRight(cfg.waits, k, HeadersOf(t), t.now, t.jitter);
  }

  lemma RoundSleeps(front: seq<Action>, a: Action, between: seq<Action>, b: Action)
    requires !a.Sleep? && !b.Sleep?
    ensures Sleeps(front + [a] + between + [b]) == Sleeps(front) + Sleeps(between)
  {
    hide Sleeps;
    NoSleep(front, a);
    SleepsConcat(front + [a], between);
    NoSleep(front + [a] + between, b);
  }

  lemma NoSleep(front: seq<Action>, a: Action)
    requires !a.Sleep?
    ensures Sleeps(front + [a]) == Sleeps(front)
  {
    var all := front + [a];
    assert all[..|all| - 1] == front && all[|all| - 1] == a;
    assert Sleeps(all) == Sleeps(front) + [];
  }

  lemma AbandonSleeps(cfg: Config, m: nat, t: Turn)
    ensures Sleeps(Abandon(cfg, m, t)) == if t.ctxDone then [] else [WaitAfter(cfg, m, t)]
  {
    SleeplessTrace([Observe(m)]);
    hide Sleeps, Turnaround, Discard, WaitAfter;
    TurnaroundSleeps(cfg, m, t);
    SleepsConcat([Observe(m)], if t.ctxDone then Discard(m, t) else Turnaround(cfg, m, t));
  }

  lemma {:induction false} UptoSleeps(cfg: Config, turns: seq<Turn>, first: Body, get: GetBody, m: nat)
    requires m < |turns| && FairDraws(cfg, turns)
    ensures |Sleeps(Upto(cfg, turns, first, get, m))| == m
    ensures RightSleeps(cfg, turns, Sleeps(Upto(cfg, turns, first, get, m)))
  {
    if m == 0 {
      SleeplessTrace([Dispatch(0, first)]);
    } else {
      var front, t := Upto(cfg, turns, first, get, m - 1), turns[m - 1];
      UptoSleeps(cfg, turns, first, get, m - 1);
      assert Upto(cfg, turns, first, get, m)
        == front + [Observe(m - 1)] + Turnaround(cfg, m - 1, t) + [Dispatch(m, Fresh(get))];
      hide Upto, Sleeps, RightSleeps, FairDraws, Turnaround, WaitAfter;
      TurnaroundSleeps(cfg, m - 1, t);
      RoundSleeps(front, Observe(m - 1), Turnaround(cfg, m - 1, t), Dispatch(m, Fresh(get)));
      OneMoreSleep(cfg, turns, Sleeps(front));
    }
  }

  /** In every run there is one sleep for each attempt given up, unless the context was done first, and
      it is exactly as long as the server or the backoff asks for. */
  lemma {:induction false} SleepsAreRight(
    cfg: Config, turns: seq<Turn>, first: Body, get: GetBody, result: Result, trace: seq<Action>)
    requires |turns| == cfg.maxRetries + 1 && FairDraws(cfg, turns)
    requires IsRun(cfg, turns, first, get, result, trace)
    ensures RightSleeps(cfg, turns, Sleeps(trace))
    ensures |Sleeps(trace)| == result.attempt + if result.Abandoned? && !turns[result.attempt].ctxDone then 1 else 0
  {
    var m := result.attempt;
    hide Sleeps, RightSleeps, FairDraws, Upto, Abandon, WaitAfter, AllRetried, Retries, WaitSucceeds;
    UptoSleeps(cfg, turns, first, get, m);
    if result.Abandoned? {
      var t := turns[m];
      AbandonSleeps(cfg, m, t);
      SleepsConcat(Upto(cfg, turns, first, get, m), Abandon(cfg, m, t));
      OneMoreSleep(cfg, turns, Sleeps(Upto(cfg, turns, first, get, m)));
    }
  }

  /** A method that is not retryable, or no retries at all: one dispatch of the original body, nothing
      reported, closed or slept, whatever a custom checkRetry says. */
  lemma SingleAttempt(
    cfg: Config, turns: seq<Turn>, body: Body, getBody: Option<GetBody>, result: Result, trace: seq<Action>)
    requires |turns| == cfg.maxRetries + 1 && (cfg.maxRetries == 0 || !cfg.methodRetryable)
    requires IsRun(cfg, turns, FirstBody(cfg, body, getBody), Replay(cfg, body, getBody), result, trace)
    ensures result == Returned(0) && trace == [Dispatch(0, body)]
  {
  }

  /** In every run a retried attempt k is followed by exactly: its report, the draining of at most
      64 KiB of its response, one close, one sleep, and the next dispatch with a fresh body. */
  lemma {:induction false} TurnaroundOrder(
    cfg: Config, turns: seq<Turn>, first: Body, get: GetBody, m: nat, k: nat)
    requires k < m < |turns|
    ensures Upto(cfg, turns, first, get, k) + [Observe(k)] + Turnaround(cfg, k, turns[k]) + [Dispatch(k + 1, Fresh(get))]
            <= Upto(cfg, turns, first, get, m)
    ensures turns[k].outcome.Got? ==>
              exists bytes: nat :: bytes <= 65536 && bytes <= turns[k].outcome.response.bodyLength
                && Turnaround(cfg, k, turns[k]) == [Drain(k, bytes), Close(k), Sleep(WaitAfter(cfg, k, turns[k]))]
    decreases m
  {
    hide WaitAfter;
    if k < m - 1 {
      TurnaroundOrder(cfg, turns, first, get, m - 1, k);
    } else if turns[k].outcome.Got? {
      var bytes := Min(turns[k].outcome.response.bodyLength, MAX_DRAIN);
      assert Turnaround(cfg, k, turns[k]) == [Drain(k, bytes), Close(k), Sleep(WaitAfter(cfg, k, turns[k]))];
    }
  }

  // ----- Body replay

  /** Every dispatch of a run sends the content of the first one, and every dispatch after the first
      starts at its beginning. */
  ghost predicate SameContent(trace: seq<Action>, content: seq<Byte>) {
    forall k, body :: Dispatch(k, body) in trace ==> Unread(body) == content && (k > 0 && body.Reader? ==> body.pos == 0)
  }

  /** Every attempt of a run sends the same content, from an unread body.  It is the content the caller
      gave, unless a stream was buffered under the largest possible limit. */
  lemma {:induction false} SameContentEveryTime(
    cfg: Config, turns: seq<Turn>, body: Body, getBody: Option<GetBody>, result: Result, trace: seq<Action>)
    requires |turns| == cfg.maxRetries + 1 && IsInt64(cfg.maxBodyBytes) && Prepared(cfg, body, getBody).Accepted?
    requires IsRun(cfg, turns, FirstBody(cfg, body, getBody), Replay(cfg, body, getBody), result, trace)
    // The contract of a caller's GetBody.
    requires getBody.Some? ==> Unread(Fresh(getBody.value)) == Unread(body)
    ensures SameContent(trace, Unread(FirstBody(cfg, body, getBody)))
    ensures Unread(FirstBody(cfg, body, getBody)) == Unread(body) <==>
              || cfg.maxRetries == 0 || !cfg.methodRetryable || body.NoBody? || getBody.Some?
              || cfg.maxBodyBytes != TWO_63 - 1 || Unread(body) == []
  {
    var first, get := FirstBody(cfg, body, getBody), Replay(cfg, body, getBody);
    ReplayMatches(cfg, body, getBody);
    hide FirstBody, Replay, Prepared, Upto, Abandon;
    if cfg.maxRetries == 0 || !cfg.methodRetryable {
      SingleAttempt(cfg, turns, body, getBody, result, trace);
    }
    EveryActionIsProper(cfg, turns, first, get, result, trace);
    forall k, b | Dispatch(k, b) in trace ensures Unread(b) == Unread(first) && (k > 0 && b.Reader? ==> b.pos == 0) {
      assert Proper(cfg, turns, first, get, result, Dispatch(k, b));
    }
  }

  /** The body of every dispatch of a run, by what the caller gave: no body stays none; a stream or a
      reader without GetBody is sent each time as a reader over all that was left of it, or over nothing
      under the largest limit; with GetBody the caller's body goes out first and a new one each later
      time. */
  lemma {:induction false} DispatchedBodies(
    cfg: Config, turns: seq<Turn>, body: Body, getBody: Option<GetBody>, result: Result, trace: seq<Action>,
    k: nat, sent: Body)
    requires |turns| == cfg.maxRetries + 1 && IsInt64(cfg.maxBodyBytes) && Prepared(cfg, body, getBody).Accepted?
    requires IsRun(cfg, turns, FirstBody(cfg, body, getBody), Replay(cfg, body, getBody), result, trace)
    requires Dispatch(k, sent) in trace
    ensures cfg.maxRetries == 0 || !cfg.methodRetryable ==> k == 0 && sent == body
    ensures cfg.maxRetries > 0 && cfg.methodRetryable ==>
              && (body.NoBody? ==> sent == NoBody)
              && (!body.NoBody? && getBody.Some? && k == 0 ==> sent == body)
              && (!body.NoBody? && k > 0 && getBody == Some(GetNothing) ==> sent == NoBody)
              && (!body.NoBody? && k > 0 && getBody.Some? && getBody.value.GetBytes? ==>
                    sent == Reader(getBody.value.content, 0))
              && (body.Stream? && getBody.None? ==>
                    sent == Reader(if cfg.maxBodyBytes == 0x7fff_ffff_ffff_ffff then [] else body.data, 0))
              && (body.Reader? && getBody.None? && body.pos <= |body.content| ==>
                    sent == Reader(if cfg.maxBodyBytes == 0x7fff_ffff_ffff_ffff then [] else body.content[body.pos..], 0))
  {
    var first, get := FirstBody(cfg, body, getBody), Replay(cfg, body, getBody);
    if cfg.maxRetries == 0 || !cfg.methodRetryable {
      SingleAttempt(cfg, turns, body, getBody, result, trace);
    } else {
      EveryActionIsProper(cfg, turns, first, get, result, trace);
      assert Proper(cfg, turns, first, get, result, Dispatch(k, sent));
      if !body.NoBody? && getBody.None? {
        CompleteIff(Unread(body), body.Stream? && body.broken, body.Stream? && body.closeFails, cfg.maxBodyBytes);
      }
      hide Upto, Abandon, IsRun, AllProper;
    }
  }

  lemma ReplayMatches(cfg: Config, body: Body, getBody: Option<GetBody>)
    requires IsInt64(cfg.maxBodyBytes) && Prepared(cfg, body, getBody).Accepted?
    requires getBody.Some? ==> Unread(Fresh(getBody.value)) == Unread(body)
    ensures cfg.maxRetries > 0 && cfg.methodRetryable ==>
              Unread(Fresh(Replay(cfg, body, getBody))) == Unread(FirstBody(cfg, body, getBody))
    ensures Unread(FirstBody(cfg, body, getBody)) == Unread(body) <==>
              || cfg.maxRetries == 0 || !cfg.methodRetryable || body.NoBody? || getBody.Some?
              || cfg.maxBodyBytes != TWO_63 - 1 || Unread(body) == []
  {
    if !body.NoBody? && getBody.None? && cfg.maxRetries > 0 && cfg.methodRetryable {
      CompleteIff(Unread(body), body.Stream? && body.broken, body.Stream? && body.closeFails, cfg.maxBodyBytes);
    }
  }
}
