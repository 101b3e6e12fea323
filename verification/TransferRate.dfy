/** The rolling-window rate tracker: a running sum and a trimmed queue, against a recomputation over
    the whole history of samples.  Times and windows are nanoseconds; the float division of the code
    is exact division truncated to an integer. */
module TransferRate {
  import opened Arithmetic
  import opened Octets

  datatype Sample = Sample(t: int, bytes: nat)

  // ----- The reference: everything is recomputed from the history

  function Total(h: seq<Sample>): nat {
    if h == [] then 0 else Total(h[..|h| - 1]) + h[|h| - 1].bytes
  }

  /** The samples not older than the cutoff, in order. */
  function Within(h: seq<Sample>, cutoff: int): seq<Sample> {
    if h == [] then []
    else Within(h[..|h| - 1], cutoff) + if h[|h| - 1].t >= cutoff then [h[|h| - 1]] else []
  }

  /** At least one window has passed since bytes started flowing. */
  predicate Full(h: seq<Sample>, now: int, window: int) {
    h != [] && now - h[0].t >= window
  }

  /** Bytes per second over the last window. */
  function Rate(h: seq<Sample>, now: int, window: int): int {
    if window <= 0 then 0 else Total(Within(h, now - window)) * SECOND / window
  }

  lemma Truncated(x: int, d: int, m: int)
    requires d > 0
    ensures x / d < m <==> x < m * d
  {
    var q := x / d;
    assert x == q * d + x % d && (q + 1) * d == q * d + d;
    if q < m {
      MulMonotone(q + 1, m, d);
    } else {
      MulMonotone(m, q, d);
    }
  }

  /** Truncating the rate to whole bytes per second never changes the verdict. */
  lemma {:induction false} VerdictIsExact(h: seq<Sample>, now: int, window: int, minRate: int)
    requires window > 0
    ensures Rate(h, now, window) < minRate <==> Total(Within(h, now - window)) * SECOND < minRate * window
  {
    hide Total, Within;
    Truncated(Total(Within(h, now - window)) * SECOND, window, minRate);
  }

  // ----- Facts about sorted histories

  ghost predicate Chronological(h: seq<Sample>) {
    forall i, j :: 0 <= i < j < |h| ==> h[i].t <= h[j].t
  }

  lemma {:induction false} TotalSplit(a: seq<Sample>, b: seq<Sample>)
    ensures Total(a + b) == Total(a) + Total(b)
  {
    if b == [] {
      assert a + b == a;
    } else {
      assert (a + b)[..|a + b| - 1] == a + b[..|b| - 1];
      TotalSplit(a, b[..|b| - 1]);
    }
  }

  lemma {:induction false} WithinAll(h: seq<Sample>, cutoff: int)
    requires forall k :: 0 <= k < |h| ==> h[k].t >= cutoff
    ensures Within(h, cutoff) == h
  {
    if h != [] {
      WithinAll(h[..|h| - 1], cutoff);
      assert h == h[..|h| - 1] + [h[|h| - 1]];
    }
  }

  lemma {:induction false} WithinSplit(a: seq<Sample>, b: seq<Sample>, cutoff: int)
    ensures Within(a + b, cutoff) == Within(a, cutoff) + Within(b, cutoff)
  {
    if b == [] {
      assert a + b == a;
    } else {
      assert (a + b)[..|a + b| - 1] == a + b[..|b| - 1];
      WithinSplit(a, b[..|b| - 1], cutoff);
    }
  }

  lemma {:induction false} WithinNone(h: seq<Sample>, cutoff: int)
    requires forall k :: 0 <= k < |h| ==> h[k].t < cutoff
    ensures Within(h, cutoff) == []
  {
    if h != [] {
      WithinNone(h[..|h| - 1], cutoff);
    }
  }

  /** Trimming the stale front of a sorted queue is filtering it. */
  lemma TrimIsFilter(s: seq<Sample>, trim: nat, cutoff: int)
    requires Chronological(s) && trim <= |s|
    requires forall k :: 0 <= k < trim ==> s[k].t < cutoff
    requires trim < |s| ==> s[trim].t >= cutoff
    ensures s[trim..] == Within(s, cutoff)
    ensures Total(s[trim..]) == Total(s) - Total(s[..trim])
  {
    assert s == s[..trim] + s[trim..];
    WithinSplit(s[..trim], s[trim..], cutoff);
    WithinNone(s[..trim], cutoff);
    WithinAll(s[trim..], cutoff);
    TotalSplit(s[..trim], s[trim..]);
  }

  /** Filtering with a later cutoff absorbs filtering with an earlier one. */
  lemma {:induction false} WithinTwice(h: seq<Sample>, early: int, late: int)
    requires early <= late
    ensures Within(Within(h, early), late) == Within(h, late)
  {
    if h != [] {
      WithinTwice(h[..|h| - 1], early, late);
      var last := h[|h| - 1];
      var kept := if last.t >= early then [last] else [];
      WithinSplit(Within(h[..|h| - 1], early), kept, late);
      assert Within([last], late) == if last.t >= late then [last] else [] by {
        assert [last][..0] == [];
      }
    }
  }

  lemma {:induction false} WithinSorted(h: seq<Sample>, cutoff: int)
    requires Chronological(h)
    ensures Chronological(Within(h, cutoff)) && forall x :: x in Within(h, cutoff) ==> x in h
  {
    if h != [] {
      WithinSorted(h[..|h| - 1], cutoff);
      var front := Within(h[..|h| - 1], cutoff);
      forall i | 0 <= i < |front| ensures front[i].t <= h[|h| - 1].t {
        assert front[i] in h[..|h| - 1];
      }
    }
  }

  // ----- One observation

  /** What an observation of n bytes adds to the history. */
  function Arriving(now: int, n: int): seq<Sample> {
    if n > 0 then [Sample(now, n)] else []
  }

  lemma SortedSnoc(s: seq<Sample>, more: seq<Sample>, now: int)
    requires Chronological(s) && forall x :: x in s ==> x.t <= now
    requires |more| <= 1 && forall k :: 0 <= k < |more| ==> more[k].t == now
    ensures Chronological(s + more) && forall x :: x in s + more ==> x.t <= now
  {
  }

  lemma ArriveSorted(h: seq<Sample>, early: int, clock: int, more: seq<Sample>, now: int)
    requires Chronological(h) && (h != [] ==> h[|h| - 1].t <= clock) && clock <= now
    requires |more| <= 1 && forall k :: 0 <= k < |more| ==> more[k].t == now
    ensures Chronological(h + more) && Chronological(Within(h, early) + more)
    ensures h + more != [] ==> (h + more)[|h + more| - 1].t <= now
    ensures Total(Within(h, early) + more) == Total(Within(h, early)) + Total(more)
  {
    hide Within, Total;
    assert forall x :: x in h ==> x.t <= now;
    WithinSorted(h, early);
    SortedSnoc(h, more, now);
    SortedSnoc(Within(h, early), more, now);
    hide Chronological;
    TotalSplit(Within(h, early), more);
  }

  /** The queue plus the new sample, trimmed, is the recomputation over the longer history. */
  lemma Recomputed(h: seq<Sample>, early: int, more: seq<Sample>, late: int)
    requires early <= late
    ensures Within(Within(h, early) + more, late) == Within(h + more, late)
  {
    WithinSplit(Within(h, early), more, late);
    WithinSplit(h, more, late);
    WithinTwice(h, early, late);
  }

  // ----- The tracker

  class RateTracker {
    const window: int
    var firstTime: Option<int>
    var samples: seq<Sample>
    var bytesInWindow: int
    ghost var history: seq<Sample>
    ghost var clock: int

    ghost predicate Valid()
      reads this
    {
      && Chronological(history)
      && (history != [] ==> history[|history| - 1].t <= clock)
      && firstTime == (if history == [] then None else Some(history[0].t))
      && samples == Within(history, clock - window)
      && bytesInWindow == Total(samples)
    }

    constructor (window: int, ghost now: int)
      ensures this.window == window && Valid() && history == [] && clock == now
    {
      this.window := window;
      firstTime, samples, bytesInWindow := None, [], 0;
      history, clock := [], now;
    }

    /** observeAt.  The verdict and the rate are those of the recomputation. */
    method ObserveAt(now: int, n: int) returns (bps: int, windowFull: bool)
      requires Valid() && clock <= now
      modifies this
      ensures Valid() && clock == now
      ensures history == old(history) + Arriving(now, n)
      ensures samples == Within(history, now - window) && bytesInWindow == Total(samples)
      ensures windowFull <==> Full(history, now, window)
      ensures bps == if windowFull then Rate(history, now, window) else 0
    {
      hide Within, Total, Chronological;
      ghost var early := clock - window;
      ArriveSorted(history, early, clock, Arriving(now, n), now);
      Record(now, n);
      Trim(now - window);
      Recomputed(old(history), early, Arriving(now, n), now - window);
      history, clock := history + Arriving(now, n), now;
      if firstTime.None? || now - firstTime.value < window {
        return 0, false;
      }
      if window <= 0 {
        return 0, true;
      }
      return bytesInWindow * SECOND / window, true;
    }

    /** The first half of observeAt: recording a sample. */
    method Record(now: int, n: int)
      modifies this`samples, this`bytesInWindow, this`firstTime
      ensures samples == old(samples) + Arriving(now, n)
      ensures bytesInWindow == old(bytesInWindow) + Total(Arriving(now, n))
      ensures firstTime == if old(firstTime).None? && n > 0 then Some(now) else old(firstTime)
    {
      if n > 0 {
        samples := samples + [Sample(now, n)];
        bytesInWindow := bytesInWindow + n;
        if firstTime.None? {
          firstTime := Some(now);
        }
      }
    }

    /** The second half: dropping what fell out of the window and its share of the running sum. */
    method Trim(cutoff: int)
      requires Chronological(samples) && bytesInWindow == Total(samples)
      modifies this`samples, this`bytesInWindow
      ensures samples == Within(old(samples), cutoff) && bytesInWindow == Total(samples)
    {
      hide Within, Chronological;
      var trim := 0;
      while trim < |samples|
        invariant 0 <= trim <= |samples|
        invariant forall k :: 0 <= k < trim ==> samples[k].t < cutoff
      {
        if !(samples[trim].t < cutoff) {
          break;
        }
        trim := trim + 1;
      }
      TrimIsFilter(samples, trim, cutoff);
      if trim > 0 {
        var stale := samples[..trim];
        for k := 0 to |stale|
          invariant bytesInWindow == Total(samples) - Total(stale[..k])
          invariant samples == old(samples)
        {
          assert stale[..k + 1][..k] == stale[..k];
          bytesInWindow := bytesInWindow - stale[k].bytes;
        }
        assert stale[..|stale|] == stale;
        samples := samples[trim..];
      }
    }
  }
}
