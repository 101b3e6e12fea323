/** guardedBody: a response body with size, rate and ratio guards, over whole runs of Read and Close.

    The source (the inner body, or the gzip reader over it) is arbitrary: each Read of it yields some
    bytes and perhaps an error, after taking some compressed bytes from the wire. */
module GuardedBody {
  import opened Arithmetic
  import opened Octets
  import opened TransferRate
  import Watchdog

  /** bombGuardMinCompressed */
  const BOMB_GUARD_MIN: int := 65536

  datatype Config = Config(maxBytes: int, minRate: int, window: int, maxRatio: real, gzip: bool)

  datatype Error = ContextCause | Source(code: int) | TooLarge | TooSlow | Bomb

  /** One call of Read: whether the context is done on entry and after the source returned, what the
      source yields, and the clock. */
  datatype Input = Input(
    doneBefore: bool, data: seq<Byte>, err: Option<int>, compressed: nat, now: int, doneAfter: bool)

  datatype Output = Output(data: seq<Byte>, err: Option<Error>)

  /** `history` holds every sample ever recorded; the running totals are recomputed from it. */
  datatype Body = Body(readBytes: nat, compressed: nat, history: seq<Sample>)

  /** A new body.  Without gzip the header is empty; with it, opening the body already takes the gzip
      header, and perhaps more, from the wire. */
  function Fresh(header: nat): Body {
    Body(0, header, [])
  }

  predicate RateGuarded(cfg: Config) {
    cfg.minRate > 0 && cfg.window > 0
  }

  predicate OverCap(cfg: Config, readBytes: nat) {
    cfg.maxBytes > 0 && readBytes > cfg.maxBytes
  }

  predicate Slow(cfg: Config, h: seq<Sample>, now: int) {
    RateGuarded(cfg) && Full(h, now, cfg.window) && Rate(h, now, cfg.window) < cfg.minRate
  }

  predicate Inflated(cfg: Config, readBytes: nat, compressed: nat) {
    && cfg.maxRatio > 0.0 && cfg.gzip && compressed >= BOMB_GUARD_MIN
    && readBytes as real / compressed as real > cfg.maxRatio
  }

  /** The specification of one Read. */
  function ReadStep(cfg: Config, b: Body, i: Input): (Body, Output) {
    if i.doneBefore then (b, Output([], Some(ContextCause)))
    else
      var b := b.(readBytes := b.readBytes + |i.data|, compressed := b.compressed + i.compressed);
      var passed := if i.err.None? then None else Some(if i.doneAfter then ContextCause else Source(i.err.value));
      if i.data == [] then (b, Output(i.data, passed))
      else if OverCap(cfg, b.readBytes) then (b, Output(i.data, Some(TooLarge)))
      else
        var b := if RateGuarded(cfg) then b.(history := b.history + [Sample(i.now, |i.data|)]) else b;
        if Slow(cfg, b.history, i.now) then (b, Output(i.data, Some(TooSlow)))
        else if Inflated(cfg, b.readBytes, b.compressed) then (b, Output(i.data, Some(Bomb)))
        else (b, Output(i.data, passed))
  }

  // ----- Whole runs

  function After(cfg: Config, header: nat, ins: seq<Input>): Body {
    if ins == [] then Fresh(header) else ReadStep(cfg, After(cfg, header, ins[..|ins| - 1]), ins[|ins| - 1]).0
  }

  /** What Read number k returns. */
  function Answer(cfg: Config, header: nat, ins: seq<Input>, k: nat): Output
    requires k < |ins|
  {
    ReadStep(cfg, After(cfg, header, ins[..k]), ins[k]).1
  }

  /** All bytes handed to the caller. */
  function Delivered(cfg: Config, header: nat, ins: seq<Input>): seq<Byte> {
    if ins == [] then []
    else Delivered(cfg, header, ins[..|ins| - 1]) + Answer(cfg, header, ins, |ins| - 1).data
  }

  /** All bytes taken from the source: a Read that finds its context done does not touch it. */
  function Taken(ins: seq<Input>): seq<Byte> {
    if ins == [] then []
    else Taken(ins[..|ins| - 1]) + if ins[|ins| - 1].doneBefore then [] else ins[|ins| - 1].data
  }

  /** The compressed bytes taken from the wire, those of opening the body included. */
  function TakenCompressed(header: nat, ins: seq<Input>): nat {
    if ins == [] then header
    else TakenCompressed(header, ins[..|ins| - 1]) + if ins[|ins| - 1].doneBefore then 0 else ins[|ins| - 1].compressed
  }

  /** No byte is lost, repeated or reordered, even when a guard raises an error, and the counters
      count exactly what was taken. */
  lemma {:induction false} NothingIsLost(cfg: Config, header: nat, ins: seq<Input>)
    ensures Delivered(cfg, header, ins) == Taken(ins)
    ensures After(cfg, header, ins).readBytes == |Taken(ins)|
    ensures After(cfg, header, ins).compressed == TakenCompressed(header, ins)
  {
    if ins != [] {
      NothingIsLost(cfg, header, ins[..|ins| - 1]);
    }
  }

  lemma {:induction false} TakenGrows(ins: seq<Input>, j: nat, k: nat)
    requires j <= k <= |ins|
    ensures |Taken(ins[..j])| <= |Taken(ins[..k])|
  {
    if j < k {
      TakenGrows(ins, j, k - 1);
      assert ins[..k][..k - 1] == ins[..k - 1];
    }
  }

  lemma TakenSnoc(header: nat, ins: seq<Input>, k: nat)
    requires k < |ins|
    ensures Taken(ins[..k + 1]) == Taken(ins[..k]) + if ins[k].doneBefore then [] else ins[k].data
    ensures TakenCompressed(header, ins[..k + 1]) == TakenCompressed(header, ins[..k]) + if ins[k].doneBefore then 0 else ins[k].compressed
  {
    assert ins[..k + 1][..k] == ins[..k];
  }

  /** A capped body returns TooLarge exactly on the Reads that bring bytes beyond the cap. */
  lemma TooLargeIff(cfg: Config, header: nat, ins: seq<Input>, k: nat)
    requires k < |ins|
    ensures Answer(cfg, header, ins, k).err == Some(TooLarge) <==>
              && !ins[k].doneBefore && ins[k].data != []
              && cfg.maxBytes > 0 && |Taken(ins[..k + 1])| > cfg.maxBytes
  {
    NothingIsLost(cfg, header, ins[..k]);
    TakenSnoc(header, ins, k);
  }

  /** Once the cap has been exceeded, every later Read that brings bytes fails. */
  lemma OnceOverAlwaysOver(cfg: Config, header: nat, ins: seq<Input>, j: nat, k: nat)
    requires j <= k < |ins| && Answer(cfg, header, ins, j).err == Some(TooLarge)
    requires Answer(cfg, header, ins, k).data != []
    ensures Answer(cfg, header, ins, k).err == Some(TooLarge)
  {
    TooLargeIff(cfg, header, ins, j);
    TakenGrows(ins, j + 1, k + 1);
    TooLargeIff(cfg, header, ins, k);
  }

  /** After a Read without error a capped body is within its cap, except in one case: an empty Read
      checks nothing, so it returns no error on a body that was over its cap already. */
  lemma CapAfterCleanRead(cfg: Config, header: nat, ins: seq<Input>, k: nat)
    requires k < |ins| && cfg.maxBytes > 0 && Answer(cfg, header, ins, k).err == None
    ensures |Taken(ins[..k + 1])| <= cfg.maxBytes <==>
            !(ins[k].data == [] && |Taken(ins[..k])| > cfg.maxBytes)
  {
    TooLargeIff(cfg, header, ins, k);
    TakenSnoc(header, ins, k);
  }

  /** The exception does occur: one byte over a cap of one, then an empty Read. */
  lemma EmptyReadHidesTheCap()
    ensures var cfg := Config(1, 0, 0, 0.0, false);
      var ins := [Input(false, [7, 7], None, 0, 0, false), Input(false, [], None, 0, 0, false)];
      Answer(cfg, 0, ins, 0).err == Some(TooLarge) && Answer(cfg, 0, ins, 1).err == None
  {
    var cfg := Config(1, 0, 0, 0.0, false);
    var ins := [Input(false, [7, 7], None, 0, 0, false), Input(false, [], None, 0, 0, false)];
    assert ins[..0] == [];
    assert After(cfg, 0, ins[..0]) == Fresh(0);
  }

  /** After a Read that brought bytes and no error, an inflating body is within its ratio. */
  lemma RatioAfterCleanRead(cfg: Config, header: nat, ins: seq<Input>, k: nat)
    requires k < |ins| && Answer(cfg, header, ins, k).err == None && ins[k].data != []
    requires cfg.gzip && cfg.maxRatio > 0.0 && TakenCompressed(header, ins[..k + 1]) >= BOMB_GUARD_MIN
    ensures |Taken(ins[..k + 1])| as real <= cfg.maxRatio * TakenCompressed(header, ins[..k + 1]) as real
  {
    hide Inflated, Slow, Taken, TakenCompressed, After, OverCap, RateGuarded;
    NothingIsLost(cfg, header, ins[..k]);
    TakenSnoc(header, ins, k);
    NotInflated(cfg, |Taken(ins[..k + 1])|, TakenCompressed(header, ins[..k + 1]));
  }

  lemma NotInflated(cfg: Config, readBytes: nat, compressed: nat)
    requires !Inflated(cfg, readBytes, compressed)
    ensures cfg.gzip && cfg.maxRatio > 0.0 && compressed >= BOMB_GUARD_MIN ==>
              readBytes as real <= cfg.maxRatio * compressed as real
  {
    if cfg.gzip && cfg.maxRatio > 0.0 && compressed >= BOMB_GUARD_MIN {
      Quotient(readBytes as real, compressed as real, cfg.maxRatio);
    }
  }

  lemma Quotient(r: real, c: real, bound: real)
    requires c > 0.0 && r / c <= bound
    ensures r <= bound * c
  {
    assert r == (r / c) * c;
  }

  // ----- The rate guard over whole runs

  /** The samples of a run, recomputed from its inputs alone: Reads that bring bytes and stay within
      the cap. */
  function Samples(cfg: Config, ins: seq<Input>): seq<Sample> {
    if ins == [] then []
    else
      var i := ins[|ins| - 1];
      Samples(cfg, ins[..|ins| - 1])
      + if i.doneBefore || i.data == [] || OverCap(cfg, |Taken(ins)|) then [] else [Sample(i.now, |i.data|)]
  }

  lemma {:induction false} HistoryIsSamples(cfg: Config, header: nat, ins: seq<Input>)
    requires RateGuarded(cfg)
    ensures After(cfg, header, ins).history == Samples(cfg, ins)
  {
    if ins != [] {
      HistoryIsSamples(cfg, header, ins[..|ins| - 1]);
      NothingIsLost(cfg, header, ins[..|ins| - 1]);
    }
  }

  /** TooSlow is raised iff no earlier check failed in that Read, it brought bytes, the first sample
      is at least one window old, and the exact number of bytes in the window is below the floor. */
  lemma TooSlowIff(cfg: Config, header: nat, ins: seq<Input>, k: nat)
    requires k < |ins|
    ensures Answer(cfg, header, ins, k).err == Some(TooSlow) <==>
              && !ins[k].doneBefore && ins[k].data != []
              && !(cfg.maxBytes > 0 && |Taken(ins[..k + 1])| > cfg.maxBytes)
              && cfg.minRate > 0 && cfg.window > 0 && Samples(cfg, ins[..k + 1]) != []
              && ins[k].now - Samples(cfg, ins[..k + 1])[0].t >= cfg.window
              && Total(Within(Samples(cfg, ins[..k + 1]), ins[k].now - cfg.window)) * SECOND < cfg.minRate * cfg.window
  {
    hide Full, Rate, Inflated, Taken, TakenCompressed, Total, Within;
    NothingIsLost(cfg, header, ins[..k]);
    TakenSnoc(header, ins, k);
    SamplesSnoc(cfg, ins, k);
    if RateGuarded(cfg) {
      HistoryIsSamples(cfg, header, ins[..k]);
    }
    if Samples(cfg, ins[..k + 1]) != [] {
      SlowMeans(cfg, Samples(cfg, ins[..k + 1]), ins[k].now);
    }
  }

  lemma SamplesSnoc(cfg: Config, ins: seq<Input>, k: nat)
    requires k < |ins|
    ensures Samples(cfg, ins[..k + 1]) == Samples(cfg, ins[..k])
              + if ins[k].doneBefore || ins[k].data == [] || OverCap(cfg, |Taken(ins[..k + 1])|) then []
                else [Sample(ins[k].now, |ins[k].data|)]
  {
    assert ins[..k + 1][..k] == ins[..k];
  }

  lemma {:induction false} SlowMeans(cfg: Config, h: seq<Sample>, now: int)
    requires h != []
    ensures Slow(cfg, h, now) <==>
              && RateGuarded(cfg) && now - h[0].t >= cfg.window
              && Total(Within(h, now - cfg.window)) * SECOND < cfg.minRate * cfg.window
  {
    hide Total, Within;
    if RateGuarded(cfg) {
      VerdictIsExact(h, now, cfg.window, cfg.minRate);
    }
  }

  /** The rate guard objects in Read number k, by the inputs alone. */
  ghost predicate SlowAt(cfg: Config, ins: seq<Input>, k: nat)
    requires k < |ins|
  {
    Slow(cfg, Samples(cfg, ins[..k + 1]), ins[k].now)
  }

  ghost predicate InflatedAt(cfg: Config, header: nat, ins: seq<Input>, k: nat)
    requires k < |ins|
  {
    Inflated(cfg, |Taken(ins[..k + 1])|, TakenCompressed(header, ins[..k + 1]))
  }

  /** Some guard objects in Read number k; an empty Read is not guarded. */
  ghost predicate Guarded(cfg: Config, header: nat, ins: seq<Input>, k: nat)
    requires k < |ins|
  {
    ins[k].data != [] && (OverCap(cfg, |Taken(ins[..k + 1])|) || SlowAt(cfg, ins, k) || InflatedAt(cfg, header, ins, k))
  }

  /** The error of every Read, by the inputs alone: a context that was done comes first, then the size,
      the rate and the ratio guard, then the context again and the error of the source. */
  lemma ErrorPrecedence(cfg: Config, header: nat, ins: seq<Input>, k: nat)
    requires k < |ins|
    ensures var i, err := ins[k], Answer(cfg, header, ins, k).err;
      && (err == Some(TooLarge) <==> !i.doneBefore && i.data != [] && OverCap(cfg, |Taken(ins[..k + 1])|))
      && (err == Some(TooSlow) <==>
            !i.doneBefore && i.data != [] && !OverCap(cfg, |Taken(ins[..k + 1])|) && SlowAt(cfg, ins, k))
      && (err == Some(Bomb) <==>
            && !i.doneBefore && i.data != [] && !OverCap(cfg, |Taken(ins[..k + 1])|) && !SlowAt(cfg, ins, k)
            && InflatedAt(cfg, header, ins, k))
      && (err == Some(ContextCause) <==>
            i.doneBefore || (i.err.Some? && i.doneAfter && !Guarded(cfg, header, ins, k)))
      && (forall code :: err == Some(Source(code)) <==>
            !i.doneBefore && i.err == Some(code) && !i.doneAfter && !Guarded(cfg, header, ins, k))
      && (err == None <==> !i.doneBefore && i.err == None && !Guarded(cfg, header, ins, k))
  {
    hide Full, Rate, Inflated, Taken, TakenCompressed;
    NothingIsLost(cfg, header, ins[..k]);
    TakenSnoc(header, ins, k);
    SamplesSnoc(cfg, ins, k);
    if RateGuarded(cfg) {
      HistoryIsSamples(cfg, header, ins[..k]);
    }
    hide Samples, After;
  }

  /** Bomb is raised iff no earlier check failed in that Read, it brought bytes, at least 64 KiB have been
      taken from the wire, and the bytes handed out exceed the allowed multiple of that. */
  lemma BombIff(cfg: Config, header: nat, ins: seq<Input>, k: nat)
    requires k < |ins|
    ensures var err := Answer(cfg, header, ins, k).err;
      err == Some(Bomb) <==>
        && !ins[k].doneBefore && ins[k].data != [] && err != Some(TooLarge) && err != Some(TooSlow)
        && cfg.maxRatio > 0.0 && cfg.gzip && TakenCompressed(header, ins[..k + 1]) >= 65536
        && Exceeds(|Taken(ins[..k + 1])|, cfg.maxRatio, TakenCompressed(header, ins[..k + 1]))
  {
    ErrorPrecedence(cfg, header, ins, k);
    InflatedIff(cfg, |Taken(ins[..k + 1])|, TakenCompressed(header, ins[..k + 1]));
    hide Slow, Taken, TakenCompressed, Answer, Inflated, Samples, Exceeds;
  }

  predicate Exceeds(bytes: nat, ratio: real, compressed: nat) {
    bytes as real > ratio * compressed as real
  }

  lemma InflatedIff(cfg: Config, readBytes: nat, compressed: nat)
    ensures Inflated(cfg, readBytes, compressed) <==>
              cfg.maxRatio > 0.0 && cfg.gzip && compressed >= 65536 && Exceeds(readBytes, cfg.maxRatio, compressed)
  {
    if compressed >= 65536 {
      var q, c := readBytes as real / compressed as real, compressed as real;
      assert readBytes as real == q * c;
      if q > cfg.maxRatio {
        Larger(cfg.maxRatio, q, c);
      } else {
        Quotient(readBytes as real, c, cfg.maxRatio);
      }
    }
  }

  lemma Larger(a: real, b: real, c: real)
    requires a < b && c > 0.0
    ensures a * c < b * c
  {
  }

  // ----- The class

  class GuardedReader {
    const cfg: Config
    var readBytes: int
    var compressed: int
    const watchdog: Watchdog.IdleWatchdog?
    const rate: RateTracker?
    var closed: bool
    var closeErr: Option<int>
    var innerCloses: nat
    /** The reports made to the body observer: compressed and uncompressed byte counts. */
    var reports: seq<(int, int)>

    ghost predicate Valid()
      reads this, rate
    {
      && readBytes >= 0 && compressed >= 0
      && (rate != null <==> RateGuarded(cfg))
      && (rate != null ==> rate.Valid() && rate.window == cfg.window)
      && innerCloses == |reports| == (if closed then 1 else 0)
    }

    ghost function View(): Body
      requires Valid()
      reads this, rate
    {
      Body(readBytes, compressed, if rate == null then [] else rate.history)
    }

    constructor (cfg: Config, header: nat, watchdog: Watchdog.IdleWatchdog?, now: int)
      ensures Valid() && View() == Fresh(header) && this.cfg == cfg && this.watchdog == watchdog
      ensures !closed && (rate != null ==> fresh(rate) && rate.clock == now)
    {
      this.cfg, this.watchdog := cfg, watchdog;
      readBytes, compressed, closed, closeErr, innerCloses, reports := 0, header, false, None, 0, [];
      if cfg.minRate > 0 && cfg.window > 0 {
        rate := new RateTracker(cfg.window, now);
      } else {
        rate := null;
      }
    }

    method Read(i: Input) returns (out: Output)
      requires Valid() && (rate != null ==> rate.clock <= i.now)
      modifies this`readBytes, this`compressed, rate, watchdog
      ensures Valid() && (View(), out) == ReadStep(cfg, old(View()), i)
      ensures rate != null ==> rate.clock == old(rate.clock) || rate.clock == i.now
      ensures watchdog != null ==>
                watchdog.View(i.now) == (if i.doneBefore || i.data == [] then old(watchdog.View(i.now))
                                         else Watchdog.LazyApply(old(watchdog.View(i.now)), Watchdog.Reset))
    {
      hide Within, Total, Chronological, Rate, Full, Slow, Inflated, Watchdog.LazyApply;
      if i.doneBefore {
        return Output([], Some(ContextCause));
      }
      compressed := compressed + i.compressed;
      var n := |i.data|;
      if n > 0 {
        if watchdog != null {
          watchdog.Tickle(i.now);
        }
        readBytes := readBytes + n;
        var err := Guards(i.now, n);
        if err.Some? {
          return Output(i.data, err);
        }
      }
      if i.err.Some? {
        return Output(i.data, Some(if i.doneAfter then ContextCause else Source(i.err.value)));
      }
      return Output(i.data, None);
    }

    /** The three guards of Read, once n bytes have been counted. */
    method Guards(now: int, n: int) returns (err: Option<Error>)
      requires Valid() && n > 0 && (rate != null ==> rate.clock <= now)
      modifies rate
      ensures Valid() && (rate != null ==> rate.clock == old(rate.clock) || rate.clock == now)
      ensures View() == if OverCap(cfg, readBytes) || rate == null then old(View())
                        else old(View()).(history := old(View()).history + [Sample(now, n)])
      ensures err == if OverCap(cfg, readBytes) then Some(TooLarge)
                     else if Slow(cfg, View().history, now) then Some(TooSlow)
                     else if Inflated(cfg, readBytes, compressed) then Some(Bomb)
                     else None
    {
      hide Within, Total, Chronological, Rate, Full;
      if cfg.maxBytes > 0 && readBytes > cfg.maxBytes {
        return Some(TooLarge);
      }
      if rate != null {
        var bps, full := rate.ObserveAt(now, n);
        if full && bps < cfg.minRate {
          return Some(TooSlow);
        }
      }
      if cfg.maxRatio > 0.0 && cfg.gzip && compressed >= BOMB_GUARD_MIN {
        if readBytes as real / compressed as real > cfg.maxRatio {
          return Some(Bomb);
        }
      }
      return None;
    }

    /** Any number of Closes closes the inner body once, reports the totals of that moment once,
        stops the watchdog, and keeps returning the first answer. */
    method Close(innerErr: Option<int>, now: int) returns (err: Option<int>)
      requires Valid()
      modifies this`closed, this`closeErr, this`innerCloses, this`reports, watchdog
      ensures Valid() && View() == old(View()) && closed && innerCloses == 1
      ensures err == closeErr == if old(closed) then old(closeErr) else innerErr
      ensures reports == if old(closed) then old(reports)
                         else [(if cfg.gzip then compressed else readBytes, readBytes)]
      ensures watchdog != null ==>
                watchdog.View(now) == (if old(closed) then old(watchdog.View(now))
                                       else Watchdog.LazyApply(old(watchdog.View(now)), Watchdog.Stop))
    {
      if !closed {
        closed := true;
        if watchdog != null {
          watchdog.Disarm(now);
        }
        closeErr := innerErr;
        innerCloses := innerCloses + 1;
        reports := reports + [(if cfg.gzip then compressed else readBytes, readBytes)];
      }
      return closeErr;
    }

    /** A whole run of the class is a run of the specification. */
    method ReadAll(ghost header: nat, ins: seq<Input>) returns (outs: seq<Output>)
      requires Valid() && View() == Fresh(header)
      requires rate != null ==> forall k :: 0 <= k < |ins| ==> rate.clock <= ins[k].now
      requires forall j, k :: 0 <= j < k < |ins| ==> ins[j].now <= ins[k].now
      modifies this`readBytes, this`compressed, rate, watchdog
      ensures Valid() && View() == After(cfg, header, ins)
      ensures |outs| == |ins| && forall k :: 0 <= k < |ins| ==> outs[k] == Answer(cfg, header, ins, k)
    {
      outs := [];
      for k := 0 to |ins|
        invariant Valid() && View() == After(cfg, header, ins[..k])
        invariant rate != null ==> forall j :: k <= j < |ins| ==> rate.clock <= ins[j].now
        invariant |outs| == k && forall j :: 0 <= j < k ==> outs[j] == Answer(cfg, header, ins, j)
      {
        assert ins[..k + 1][..k] == ins[..k];
        var out := Read(ins[k]);
        outs := outs + [out];
      }
      assert ins[..|ins|] == ins;
    }
  }

  /** What the watchdog hears of a run: a Reset at each Read that brought bytes. */
  function Heard(ins: seq<Input>): seq<(int, Watchdog.Event)>
    decreases |ins|
  {
    if ins == [] then []
    else (if BringsBytes(ins[0]) then [(ins[0].now, Watchdog.Reset)] else []) + Heard(ins[1..])
  }

  ghost predicate TimesFit(ins: seq<Input>, from: int, end: int) {
    && from <= end
    && (forall k :: 0 <= k < |ins| ==> from <= ins[k].now <= end)
    && (forall j, k :: 0 <= j < k < |ins| ==> ins[j].now <= ins[k].now)
  }

  lemma {:induction false} HeardIsScript(ins: seq<Input>, from: int, end: int)
    requires TimesFit(ins, from, end)
    ensures Watchdog.IsScript(from, Heard(ins), end)
    decreases |ins|
  {
    if ins != [] {
      HeardIsScript(ins[1..], ins[0].now, end);
    }
  }

  predicate BringsBytes(i: Input) {
    !i.doneBefore && i.data != []
  }

  /** One Read ahead: either the deadline passes before it, or it goes on from the newer timestamp. */
  lemma SilenceStep(timeout: int, last: int, ins: seq<Input>, from: int, end: int)
    requires ins != [] && TimesFit(ins, from, end)
    ensures Watchdog.Silence(timeout, last, Heard(ins), end)
            == if last + timeout <= ins[0].now then Some(last + timeout)
               else Watchdog.Silence(timeout, if BringsBytes(ins[0]) then ins[0].now else last, Heard(ins[1..]), end)
  {
    var rest := Heard(ins[1..]);
    HeardIsScript(ins[1..], ins[0].now, end);
    assert Heard(ins) == (if BringsBytes(ins[0]) then [(ins[0].now, Watchdog.Reset)] else []) + rest;
    hide Heard;
    if BringsBytes(ins[0]) {
      assert Heard(ins)[1..] == rest;
    } else {
      assert Heard(ins) == rest;
    }
  }

  /** A Read that is waited for until its time. */
  method ReadAt(body: GuardedReader, watchdog: Watchdog.IdleWatchdog, from: int, i: Input) returns (out: Output)
    requires body.watchdog == watchdog && body.Valid() && watchdog.Valid(from) && watchdog.timeout > 0
    requires from <= i.now && (body.rate != null ==> body.rate.clock <= from)
    modifies body, body.rate, watchdog
    ensures body.Valid() && (body.View(), out) == ReadStep(body.cfg, old(body.View()), i)
    ensures watchdog.Valid(i.now) && (body.rate != null ==> body.rate.clock <= i.now)
    ensures var expired := !old(watchdog.done) && old(watchdog.lastTick) + watchdog.timeout <= i.now;
      && watchdog.done == (old(watchdog.done) || expired)
      && (watchdog.cancelledAt
          == if expired then Some(old(watchdog.lastTick) + watchdog.timeout) else old(watchdog.cancelledAt))
      && (!watchdog.done ==> watchdog.lastTick == if BringsBytes(i) then i.now else old(watchdog.lastTick))
  {
    hide ReadStep, Watchdog.LazyRun, Watchdog.LazyApply, Watchdog.LazyOk;
    ghost var steps := watchdog.Await(from, i.now);
    ghost var before := watchdog.View(i.now);
    out := body.Read(i);
    Tickled(before, watchdog.View(i.now));
  }

  lemma Tickled(l: Watchdog.Lazy, m: Watchdog.Lazy)
    requires Watchdog.LazyOk(l) && l.timeout > 0 && (m == l || m == Watchdog.LazyApply(l, Watchdog.Reset))
    ensures Watchdog.LazyOk(m) && m.done == l.done && m.cancelledAt == l.cancelledAt
    ensures m == Watchdog.LazyApply(l, Watchdog.Reset) && !l.done ==> m.lastTick == l.now
  {
  }

  /** A run of Reads under the idle watchdog, whose timer goroutine runs while the body is waited for: the
      answers are those of the specification, and the context is cancelled at the first instant at
      which no bytes have come for a whole timeout, if there is one. */
  method ReadWatched(
      body: GuardedReader, watchdog: Watchdog.IdleWatchdog, ghost header: nat, ins: seq<Input>, start: int, end: int)
    returns (outs: seq<Output>)
    requires body.watchdog == watchdog && body.Valid() && body.View() == Fresh(header)
    requires watchdog.View(start) == Watchdog.LazyInit(watchdog.timeout, start) && watchdog.timeout > 0
    requires TimesFit(ins, start, end) && (body.rate != null ==> body.rate.clock <= start)
    modifies body, body.rate, watchdog
    ensures body.Valid() && body.View() == After(body.cfg, header, ins)
    ensures |outs| == |ins| && forall k :: 0 <= k < |ins| ==> outs[k] == Answer(body.cfg, header, ins, k)
    ensures watchdog.cancelledAt == Watchdog.Silence(watchdog.timeout, start, Heard(ins), end)
  {
    hide ReadStep, After, Answer, Heard, Watchdog.LazyRun, Watchdog.LazyOk, Watchdog.Silence;
    var now := start;
    RunBegins(body.cfg, header, ins, watchdog.View(start));
    ghost var outcome := Watchdog.Silence(watchdog.timeout, start, Heard(ins), end);
    outs := [];
    for k := 0 to |ins|
      invariant body.Valid() && body.View() == After(body.cfg, header, ins[..k])
      invariant |outs| == k && forall j :: 0 <= j < k ==> outs[j] == Answer(body.cfg, header, ins, j)
      invariant TimesFit(ins[k..], now, end) && (body.rate != null ==> body.rate.clock <= now)
      invariant watchdog.Valid(now) && watchdog.OnCourse(outcome, Heard(ins[k..]), end)
    {
      assert ins[..k + 1][..k] == ins[..k] && ins[k..][1..] == ins[k + 1..] && ins[k..][0] == ins[k];
      SilenceStep(watchdog.timeout, watchdog.lastTick, ins[k..], now, end);
      RunSnoc(body.cfg, header, ins, k);
      var out := ReadAt(body, watchdog, now, ins[k]);
      now := ins[k].now;
      outs := outs + [out];
    }
    assert ins[..|ins|] == ins;
    NothingMore(watchdog.timeout, watchdog.lastTick, ins[|ins|..], end);
    NotCancelledYet(watchdog.View(now));
    ghost var steps := watchdog.Await(now, end);
  }

  lemma RunBegins(cfg: Config, header: nat, ins: seq<Input>, l: Watchdog.Lazy)
    requires l.timeout > 0 && l == Watchdog.LazyInit(l.timeout, l.now)
    ensures After(cfg, header, ins[..0]) == Fresh(header) && Watchdog.LazyOk(l)
  {
  }

  lemma RunSnoc(cfg: Config, header: nat, ins: seq<Input>, k: nat)
    requires k < |ins|
    ensures (After(cfg, header, ins[..k + 1]), Answer(cfg, header, ins, k))
            == ReadStep(cfg, After(cfg, header, ins[..k]), ins[k])
  {
    hide ReadStep;
    assert ins[..k + 1][..k] == ins[..k];
  }

  lemma NotCancelledYet(l: Watchdog.Lazy)
    requires Watchdog.LazyOk(l) && l.timeout > 0
    ensures !l.done ==> l.cancelledAt == None
  {
  }

  lemma NothingMore(timeout: int, last: int, ins: seq<Input>, end: int)
    requires ins == []
    ensures Watchdog.Silence(timeout, last, Heard(ins), end) == if last + timeout <= end then Some(last + timeout) else None
  {
  }

  /** newGuardedBody: with gzip the header is read at once, and a header that cannot be read is an error
      with no body; compressed and readable say how many bytes that takes and whether it works. */
  method Open(cfg: Config, compressed: nat, readable: bool, watchdog: Watchdog.IdleWatchdog?, now: int)
    returns (body: GuardedReader?)
    ensures body == null <==> cfg.gzip && !readable
    ensures body != null ==>
              && fresh(body) && body.Valid() && !body.closed && body.cfg == cfg && body.watchdog == watchdog
              && body.View() == Fresh(if cfg.gzip then compressed else 0)
              && (body.rate != null ==> fresh(body.rate) && body.rate.clock == now)
  {
    if !cfg.gzip {
      body := new GuardedReader(cfg, 0, watchdog, now);
    } else if readable {
      body := new GuardedReader(cfg, compressed, watchdog, now);
    } else {
      body := null;
    }
  }

  /** A whole life: open, read, close twice.  The one report of the observer counts exactly the bytes
      handed out and, with gzip, all compressed bytes, those of the header included. */
  method Life(cfg: Config, compressed: nat, watchdog: Watchdog.IdleWatchdog?, ins: seq<Input>, innerErr: Option<int>, now: int, end: int)
    returns (body: GuardedReader, outs: seq<Output>)
    requires forall k :: 0 <= k < |ins| ==> now <= ins[k].now
    requires forall j, k :: 0 <= j < k < |ins| ==> ins[j].now <= ins[k].now
    modifies watchdog
    ensures |outs| == |ins| && body.innerCloses == 1
    ensures var header := if cfg.gzip then compressed else 0;
      && (forall k :: 0 <= k < |ins| ==> outs[k] == Answer(cfg, header, ins, k))
      && var n := |Delivered(cfg, header, ins)|;
         body.reports == [(if cfg.gzip then TakenCompressed(header, ins) else n, n)]
  {
    hide After, Answer, Delivered, Taken, TakenCompressed;
    ghost var header := if cfg.gzip then compressed else 0;
    body := Open(cfg, compressed, true, watchdog, now);
    outs := body.ReadAll(header, ins);
    NothingIsLost(cfg, header, ins);
    var first := body.Close(innerErr, end);
    var second := body.Close(innerErr, end);
  }
}
