/** The wait between two attempts: exponential backoff in wrapping int64, and the server hints. */
module Backoff {
  import opened Arithmetic
  import opened Octets

  const MAX_SHIFT: nat := 62

  const DEFAULT_WAIT_MIN: int := 250_000_000
  const DEFAULT_WAIT_MAX: int := 2 * SECOND
  const DEFAULT_MAX_RETRY_AFTER: int := 60 * SECOND

  /** The ranges New establishes: 0 < waitMin <= waitMax and 0 < maxRetryAfter, all int64. */
  datatype Config = Config(waitMin: int, waitMax: int, maxRetryAfter: int) {
    predicate Normal() {
      0 < waitMin <= waitMax < TWO_63 && 0 < maxRetryAfter < TWO_63
    }
  }

  /** The normalisation in New, for any int64 settings. */
  function New(waitMin: int, waitMax: int, maxRetryAfter: int): (cfg: Config)
    requires IsInt64(waitMin) && IsInt64(waitMax) && IsInt64(maxRetryAfter)
    ensures cfg.Normal()
    ensures 0 < waitMin <= waitMax && 0 < maxRetryAfter ==> cfg == Config(waitMin, waitMax, maxRetryAfter)
    ensures 0 < waitMax < waitMin ==> cfg.waitMin == waitMax && cfg.waitMax == waitMin
  {
    var low := if waitMin <= 0 then DEFAULT_WAIT_MIN else waitMin;
    var high := if waitMax <= 0 then DEFAULT_WAIT_MAX else waitMax;
    var cap := if maxRetryAfter <= 0 then DEFAULT_MAX_RETRY_AFTER else maxRetryAfter;
    if low > high then Config(high, low, cap) else Config(low, high, cap)
  }

  /** Settings that are not given: 250 milliseconds, two seconds and a minute. */
  lemma SettingsNotGiven(waitMin: int, waitMax: int, maxRetryAfter: int)
    requires IsInt64(waitMin) && IsInt64(waitMax) && IsInt64(maxRetryAfter)
    requires waitMin <= 0 && waitMax <= 0 && maxRetryAfter <= 0
    ensures New(waitMin, waitMax, maxRetryAfter) == Config(250_000_000, 2_000_000_000, 60_000_000_000)
  {
  }

  // ----- Exponential backoff

  /** waitMin * 2^shift before the wrap. */
  function Product(cfg: Config, attempt: nat): int {
    cfg.waitMin * Pow2(Min(attempt, MAX_SHIFT))
  }

  /** The bound before jitter, as the code computes it in int64. */
  function Bound(cfg: Config, attempt: nat): int {
    var wait := Wrap64(Product(cfg, attempt));
    if wait <= 0 || wait > cfg.waitMax then cfg.waitMax else wait
  }

  /** What the bound is meant to be. */
  function Ideal(cfg: Config, attempt: nat): int {
    Min(cfg.waitMin * Pow2(attempt), cfg.waitMax)
  }

  /** The argument of the random number generator. */
  function JitterRange(cfg: Config, attempt: nat): int {
    Wrap64(Wrap64(Bound(cfg, attempt) - cfg.waitMin) + 1)
  }

  /** The wait without a server hint; jitter is drawn from [0, JitterRange) when the bound is above
      waitMin. */
  function Exponential(cfg: Config, attempt: nat, jitter: nat): int {
    if Bound(cfg, attempt) > cfg.waitMin then Wrap64(cfg.waitMin + jitter) else Bound(cfg, attempt)
  }

  /** The product left int64 (or the shift was capped), and what is left of it looks like a wait. */
  predicate WrapsIntoRange(cfg: Config, attempt: nat, limit: int) {
    (Product(cfg, attempt) >= TWO_63 || attempt > MAX_SHIFT) && 0 < Product(cfg, attempt) % TWO_64 < limit
  }

  lemma ProductBelowIdeal(cfg: Config, attempt: nat)
    requires cfg.Normal()
    ensures 0 < Product(cfg, attempt) <= cfg.waitMin * Pow2(attempt)
    ensures attempt > MAX_SHIFT ==> cfg.waitMin * Pow2(attempt) >= TWO_63
    ensures attempt > MAX_SHIFT && Product(cfg, attempt) < TWO_63 ==> Product(cfg, attempt) == TWO_62
  {
    var shift := Min(attempt, MAX_SHIFT);
    Pow2Monotone(shift, attempt);
    MulMonotone(Pow2(shift), Pow2(attempt), cfg.waitMin);
    MulMonotone(1, cfg.waitMin, Pow2(shift));
    Pow2Values();
    if attempt > MAX_SHIFT {
      Pow2Monotone(63, attempt);
      MulMonotone(1, cfg.waitMin, Pow2(attempt));
      if cfg.waitMin >= 2 {
        MulMonotone(2, cfg.waitMin, TWO_62);
      }
    }
  }

  /** The int64 computation yields min(waitMin * 2^attempt, waitMax) iff the wrapped product does not
      land strictly between 0 and waitMax. */
  lemma {:induction false} BoundExactIff(cfg: Config, attempt: nat)
    requires cfg.Normal()
    ensures Bound(cfg, attempt) == Ideal(cfg, attempt) <==> !WrapsIntoRange(cfg, attempt, cfg.waitMax)
  {
    ProductBelowIdeal(cfg, attempt);
  }

  /** The capped shift keeps every product within int64 iff waitMin is one nanosecond. */
  lemma CapPreventsOverflowIff(cfg: Config)
    requires cfg.Normal()
    ensures (forall attempt: nat :: IsInt64(Product(cfg, attempt))) <==> cfg.waitMin == 1
  {
    Pow2Values();
    if cfg.waitMin == 1 {
      forall attempt: nat ensures IsInt64(Product(cfg, attempt)) {
        Pow2Monotone(Min(attempt, MAX_SHIFT), MAX_SHIFT);
      }
    } else {
      MulMonotone(2, cfg.waitMin, Pow2(62));
      assert !IsInt64(Product(cfg, 62));
    }
  }

  function OddPart(n: nat): nat
    requires n > 0
  {
    if n % 2 == 0 then OddPart(n / 2) else n
  }

  function Twos(n: nat): nat
    requires n > 0
  {
    if n % 2 == 0 then 1 + Twos(n / 2) else 0
  }

  lemma Exchange(a: int, b: int, c: int)
    ensures a * (b * c) == b * (a * c) == (a * c) * b
  {
  }

  lemma {:induction false} Factor(n: nat)
    requires n > 0
    ensures n == OddPart(n) * Pow2(Twos(n)) && 0 < OddPart(n) <= n
  {
    if n % 2 == 0 {
      Factor(n / 2);
      Exchange(OddPart(n / 2), 2, Pow2(Twos(n / 2)));
    } else {
      assert Pow2(0) == 1;
    }
  }

  lemma RemainderOfMultiple(odd: nat, m: nat, c: nat)
    requires m > 0 && c > 0 && m * c == TWO_64
    ensures odd * m % TWO_64 == m * (odd % c)
  {
    var q, r := odd / c, odd % c;
    assert odd * m == (m * c) * q + m * r by {
      assert odd == c * q + r;
      Spread(m, c * q, r);
      assert m * (c * q) == (m * c) * q;
    }
    MulMonotone(r + 1, c, m);
    Spread(m, r, 1);
  }

  lemma Spread(a: int, b: int, c: int)
    ensures a * (b + c) == a * b + a * c
  {
  }

  /** What remains of odd * 2^e after wrapping is a multiple of 2^e. */
  lemma WrappedIsMultiple(odd: nat, e: nat)
    requires odd > 0 && odd * Pow2(e) % TWO_64 > 0
    ensures odd * Pow2(e) % TWO_64 >= Pow2(e)
  {
    Pow2Values();
    hide Pow2;
    if e <= 64 {
      Pow2Add(e, 64 - e);
      RemainderOfMultiple(odd, Pow2(e), Pow2(64 - e));
      PositiveMultiple(Pow2(e), odd % Pow2(64 - e));
    } else {
      Pow2Add(64, e - 64);
      Exchange(odd, TWO_64, Pow2(e - 64));
      RemainderOfMultiple(odd * Pow2(e - 64), TWO_64, 1);
      assert false;
    }
  }

  lemma ProductFactored(cfg: Config, attempt: nat)
    requires cfg.Normal()
    ensures Product(cfg, attempt) == OddPart(cfg.waitMin) * Pow2(Twos(cfg.waitMin) + Min(attempt, MAX_SHIFT))
  {
    Factor(cfg.waitMin);
    Pow2Add(Twos(cfg.waitMin), Min(attempt, MAX_SHIFT));
    Associate(OddPart(cfg.waitMin), Pow2(Twos(cfg.waitMin)), Pow2(Min(attempt, MAX_SHIFT)));
  }

  /** A product that overflowed leaves nothing between 0 and waitMax. */
  lemma OverflowIsVisible(odd: nat, e: nat, waitMax: int)
    requires odd > 0 && waitMax > 0 && odd * waitMax <= TWO_62
    requires odd * Pow2(e) >= TWO_63
    ensures !(0 < odd * Pow2(e) % TWO_64 < waitMax)
  {
    if odd * Pow2(e) % TWO_64 > 0 {
      WrappedIsMultiple(odd, e);
      if Pow2(e) <= waitMax {
        MulMonotone(Pow2(e), waitMax, odd);
      }
    }
  }

  /** When the odd part of waitMin times waitMax stays within 2^62 (so in particular when
      waitMin * waitMax does), the formula is right for every attempt. */
  lemma {:induction false} BoundIsIdeal(cfg: Config, attempt: nat)
    requires cfg.Normal() && OddPart(cfg.waitMin) * cfg.waitMax <= TWO_62
    ensures Bound(cfg, attempt) == Ideal(cfg, attempt)
    ensures cfg.waitMin <= Bound(cfg, attempt) <= cfg.waitMax
  {
    ProductFactored(cfg, attempt);
    ProductBelowIdeal(cfg, attempt);
    Factor(cfg.waitMin);
    MulMonotone(1, OddPart(cfg.waitMin), cfg.waitMax);
    if Product(cfg, attempt) >= TWO_63 {
      OverflowIsVisible(OddPart(cfg.waitMin), Twos(cfg.waitMin) + Min(attempt, MAX_SHIFT), cfg.waitMax);
    }
    BoundExactIff(cfg, attempt);
    MulMonotone(1, Pow2(attempt), cfg.waitMin);
  }

  lemma ProductConditionSuffices(cfg: Config)
    requires cfg.Normal() && cfg.waitMin * cfg.waitMax <= TWO_62
    ensures OddPart(cfg.waitMin) * cfg.waitMax <= TWO_62
  {
    Factor(cfg.waitMin);
    MulMonotone(OddPart(cfg.waitMin), cfg.waitMin, cfg.waitMax);
  }

  /** The default waits are exact at every attempt, and so are one second and half a minute, whose
      product is beyond 2^62. */
  lemma {:induction false} CommonSettingsAreExact(attempt: nat)
    ensures var cfg := New(0, 0, 0); Bound(cfg, attempt) == Ideal(cfg, attempt)
    ensures var cfg := New(SECOND, 30 * SECOND, 0); Bound(cfg, attempt) == Ideal(cfg, attempt)
  {
    ProductConditionSuffices(New(0, 0, 0));
    BoundIsIdeal(New(0, 0, 0), attempt);
    OddPartOfSecond();
    BoundIsIdeal(New(SECOND, 30 * SECOND, 0), attempt);
  }

  lemma OddPartOfSecond()
    ensures OddPart(SECOND) == 1_953_125
  {
    assert OddPart(31_250_000) == OddPart(7_812_500) == OddPart(1_953_125) == 1_953_125;
    assert OddPart(SECOND) == OddPart(250_000_000) == OddPart(62_500_000) == OddPart(31_250_000);
  }

  /** Without the condition the bound can fall below waitMin: 2^40 + 1 shifted by 24 wraps to 2^24. */
  lemma BoundCanUndershoot()
    ensures var cfg := Config(0x100_0000_0001, 0x200_0000_0000, 1);
      cfg.Normal() && Bound(cfg, 24) == 0x100_0000 < cfg.waitMin
  {
    Pow2Values();
  }

  /** The random number generator always gets a positive argument that did not overflow; the wait
      always lies in (0, waitMax]; and it is at least waitMin iff the wrapped product does not land
      strictly between 0 and waitMin. */
  lemma ExponentialRange(cfg: Config, attempt: nat, jitter: nat)
    requires cfg.Normal()
    requires Bound(cfg, attempt) > cfg.waitMin ==> jitter < JitterRange(cfg, attempt)
    ensures Bound(cfg, attempt) > cfg.waitMin ==>
              JitterRange(cfg, attempt) == Bound(cfg, attempt) - cfg.waitMin + 1
    ensures 0 < Exponential(cfg, attempt, jitter) <= Bound(cfg, attempt) <= cfg.waitMax
    ensures Exponential(cfg, attempt, jitter) >= cfg.waitMin <==> !WrapsIntoRange(cfg, attempt, cfg.waitMin)
  {
    ProductBelowIdeal(cfg, attempt);
    Pow2Values();
    MulMonotone(1, Pow2(Min(attempt, MAX_SHIFT)), cfg.waitMin);
  }

  // ----- Server hints

  predicate IsDigit(c: char) {
    '0' <= c <= '9'
  }

  function Digits(s: string): Option<nat> {
    if s == "" then Some(0)
    else
      var rest, c := Digits(s[..|s| - 1]), s[|s| - 1];
      if rest.Some? && IsDigit(c) then Some(10 * rest.value + (c as int - '0' as int)) else None
  }

  /** strconv.Atoi and strconv.ParseInt in base 10: an optional sign, digits, and an int64 value. */
  function ParseInt64(s: string): Option<int> {
    var signed := s != "" && (s[0] == '+' || s[0] == '-');
    var digits := if signed then s[1..] else s;
    var n := Digits(digits);
    if digits == "" || n.None? then None
    else
      var value: int := if signed && s[0] == '-' then -1 * n.value as int else n.value as int;
      if IsInt64(value) then Some(value) else None
  }

  /** The decimal digits of n. */
  function Decimal(n: nat): string {
    var last := ('0' as int + n % 10) as char;
    if n < 10 then [last] else Decimal(n / 10) + [last]
  }

  lemma {:induction false} DigitsDecimal(n: nat)
    ensures Digits(Decimal(n)) == Some(n) && Decimal(n) != "" && IsDigit(Decimal(n)[0])
  {
    if n >= 10 {
      DigitsDecimal(n / 10);
    } else {
      assert Digits(Decimal(n)[..0]) == Some(0);
    }
  }

  lemma {:induction false} DigitsIff(s: string)
    ensures Digits(s).Some? <==> forall i :: 0 <= i < |s| ==> '0' <= s[i] <= '9'
  {
    if s != "" {
      DigitsIff(s[..|s| - 1]);
    }
  }

  /** Parsing inverts printing, within int64 and nowhere else; and only an optional sign and digits
      parse. */
  lemma {:induction false} ParseInt64Decimal(n: nat)
    ensures ParseInt64(Decimal(n)) == ParseInt64("+" + Decimal(n)) == if n < TWO_63 then Some(n) else None
    ensures ParseInt64("-" + Decimal(n)) == if n <= TWO_63 then Some(-1 * n as int) else None
  {
    DigitsDecimal(n);
    assert ("+" + Decimal(n))[1..] == Decimal(n) == ("-" + Decimal(n))[1..];
    hide Digits, Decimal;
  }

  lemma ParsesOnlyNumbers(s: string)
    requires ParseInt64(s).Some?
    ensures var body := if s != "" && (s[0] == '+' || s[0] == '-') then s[1..] else s;
      body != "" && forall i :: 0 <= i < |body| ==> '0' <= body[i] <= '9'
  {
    DigitsIff(s);
    if s != "" {
      DigitsIff(s[1..]);
    }
  }

  /** time.Until for a time given in nanoseconds since 1970; the result saturates. */
  function Until(t: int, now: int): int {
    Max(-TWO_63, Min(TWO_63 - 1, t - now))
  }

  /** Seconds between year 1 and 1970, which time.Unix adds in int64. */
  const UNIX_TO_INTERNAL: int := 62_135_596_800

  function Unix(seconds: int): int {
    (Wrap64(seconds + UNIX_TO_INTERNAL) - UNIX_TO_INTERNAL) * SECOND
  }

  /** The headers of a response.  A Retry-After date arrives parsed, in nanoseconds since 1970. */
  datatype Headers = Headers(retryAfter: string, retryDate: Option<int>, reset: string, xReset: string)

  function ParseRetryAfter(val: string, date: Option<int>, now: int): int {
    var seconds := ParseInt64(val);
    if seconds.Some? && seconds.value > 0 then Wrap64(seconds.value * SECOND)
    else if date.Some? && Until(date.value, now) > 0 then Until(date.value, now)
    else 0
  }

  function ParseDeltaSeconds(val: string): int {
    var seconds := ParseInt64(val);
    if seconds.Some? && seconds.value > 0 then Wrap64(seconds.value * SECOND) else 0
  }

  const EPOCH_THRESHOLD: int := 1_000_000_000

  function ParseDeltaSecondsOrEpoch(val: string, now: int): int {
    var n := ParseInt64(val);
    if n.None? || n.value <= 0 then 0
    else if n.value >= EPOCH_THRESHOLD then Max(Until(Unix(n.value), now), 0)
    else Wrap64(n.value * SECOND)
  }

  /** What each source asks for, in order of priority; a missing header asks for nothing. */
  function Requests(h: Headers, now: int): seq<int> {
    [if h.retryAfter == "" then 0 else ParseRetryAfter(h.retryAfter, h.retryDate, now),
     if h.reset == "" then 0 else ParseDeltaSeconds(h.reset),
     if h.xReset == "" then 0 else ParseDeltaSecondsOrEpoch(h.xReset, now)]
  }

  function Clamp(cfg: Config, d: int): int {
    var d := if cfg.waitMin > 0 then Max(d, cfg.waitMin) else d;
    if cfg.maxRetryAfter > 0 then Min(d, cfg.maxRetryAfter) else d
  }

  function FirstPositive(ds: seq<int>): Option<int> {
    if ds == [] then None else if ds[0] > 0 then Some(ds[0]) else FirstPositive(ds[1..])
  }

  function Hint(cfg: Config, h: Headers, now: int): Option<int> {
    var d := FirstPositive(Requests(h, now));
    if d.Some? then Some(Clamp(cfg, d.value)) else None
  }

  /** The loop of parseServerWaitHint over its sources. */
  method ParseServerWaitHint(cfg: Config, h: Headers, now: int) returns (hint: Option<int>)
    ensures hint == Hint(cfg, h, now)
  {
    var sources := [h.retryAfter, h.reset, h.xReset];
    var requests := Requests(h, now);
    var k := 0;
    while k < |sources|
      invariant 0 <= k <= 3
      invariant FirstPositive(requests) == FirstPositive(requests[k..])
    {
      if sources[k] != "" {
        var d :=
          if k == 0 then ParseRetryAfter(h.retryAfter, h.retryDate, now)
          else if k == 1 then ParseDeltaSeconds(h.reset)
          else ParseDeltaSecondsOrEpoch(h.xReset, now);
        if d > 0 {
          return Some(Clamp(cfg, d));
        }
      }
      assert requests[k..][1..] == requests[k + 1..];
      k := k + 1;
    }
    return None;
  }

  lemma {:induction false} FirstPositiveMeaning(ds: seq<int>)
    ensures FirstPositive(ds).None? <==> NonePositive(ds)
    ensures FirstPositive(ds).Some? ==> exists k: nat :: IsFirst(ds, k) && ds[k] == FirstPositive(ds).value
  {
    if ds == [] {
    } else if ds[0] > 0 {
      assert IsFirst(ds, 0);
    } else {
      FirstPositiveMeaning(ds[1..]);
      if FirstPositive(ds[1..]).Some? {
        var k: nat :| IsFirst(ds[1..], k) && ds[1..][k] == FirstPositive(ds).value;
        assert forall j :: 0 < j < k + 1 ==> ds[j] == ds[1..][j - 1];
        assert IsFirst(ds, k + 1);
      } else {
        assert forall j :: 0 < j < |ds| ==> ds[j] == ds[1..][j - 1];
      }
    }
  }

  /** The first source with a positive request decides; its wait is capped by maxRetryAfter and is at
      least the smaller of waitMin and maxRetryAfter. */
  lemma HintMeaning(cfg: Config, h: Headers, now: int)
    requires cfg.Normal()
    ensures Hint(cfg, h, now).None? <==> NonePositive(Requests(h, now))
    ensures Hint(cfg, h, now).Some? ==>
              && 0 < Min(cfg.waitMin, cfg.maxRetryAfter) <= Hint(cfg, h, now).value <= cfg.maxRetryAfter
              && exists k: nat :: IsFirst(Requests(h, now), k) && Hint(cfg, h, now).value == Clamp(cfg, Requests(h, now)[k])
  {
    FirstPositiveMeaning(Requests(h, now));
  }

  predicate NonePositive(ds: seq<int>) {
    forall k :: 0 <= k < |ds| ==> ds[k] <= 0
  }

  predicate IsFirst(ds: seq<int>, k: nat) {
    k < |ds| && ds[k] > 0 && forall j :: 0 <= j < k ==> ds[j] <= 0
  }

  /** The comment on the hint promises a floor at waitMin.  It holds iff waitMin is within
      maxRetryAfter, because the cap is applied last. */
  lemma HintFloorIff(cfg: Config, h: Headers, now: int)
    requires cfg.Normal() && Hint(cfg, h, now).Some?
    ensures Hint(cfg, h, now).value >= cfg.waitMin <==> cfg.waitMin <= cfg.maxRetryAfter
  {
    HintMeaning(cfg, h, now);
  }

  /** Settings that New accepts as they are, and a Retry-After of five seconds answered by a wait of
      one second, below a waitMin of two. */
  lemma HintBelowWaitMin(now: int)
    ensures var cfg := New(2 * SECOND, 2 * SECOND, SECOND);
      && cfg == Config(2 * SECOND, 2 * SECOND, SECOND)
      && Hint(cfg, Headers("5", None, "", ""), now) == Some(SECOND)
      && SECOND < cfg.waitMin
  {
    assert Digits("5"[..0]) == Some(0);
    assert ParseInt64("5") == Some(5);
  }

  // ----- Delays whose nanoseconds wrap

  /** The most seconds whose nanoseconds fit int64. */
  const MAX_SECONDS: int := 9_223_372_036

  /** A delay in seconds is taken as it is iff its product does not wrap, whichever header it comes
      in; X-RateLimit-Reset reads large numbers as epoch seconds, so its delays never wrap. */
  lemma {:induction false} DeltaHonouredIff(val: string, n: int, date: Option<int>, now: int)
    requires ParseInt64(val) == Some(n) && n > 0
    ensures ParseDeltaSeconds(val) == n * SECOND <==> n <= MAX_SECONDS
    ensures ParseRetryAfter(val, date, now) == n * SECOND <==> n <= MAX_SECONDS
    ensures n < EPOCH_THRESHOLD ==> ParseDeltaSecondsOrEpoch(val, now) == n * SECOND
  {
    hide ParseInt64;
    assert n * SECOND < TWO_63 <==> n <= MAX_SECONDS;
  }

  /** What a Retry-After in seconds comes to.  When the product wraps to something positive, the wait
      is still the clamp of the delay asked for iff what is left reaches maxRetryAfter or waitMin does;
      when it wraps to zero or below, the header is ignored. */
  lemma {:induction false} ClampedDelayIff(cfg: Config, h: Headers, n: int, now: int)
    requires cfg.Normal() && ParseInt64(h.retryAfter) == Some(n) && n > 0
    ensures var left := Wrap64(n * SECOND);
      && (left > 0 ==>
            (Hint(cfg, h, now) == Some(Clamp(cfg, n * SECOND)) <==>
             n <= MAX_SECONDS || Max(left, cfg.waitMin) >= cfg.maxRetryAfter))
      && (left <= 0 ==> n > MAX_SECONDS && Hint(cfg, h, now) == Hint(cfg, h.(retryAfter := ""), now))
  {
    assert h.retryAfter != "" && Requests(h, now)[0] == Wrap64(n * SECOND);
    hide ParseInt64, ParseDeltaSeconds, ParseDeltaSecondsOrEpoch, Wrap64;
    DeltaHonouredIff(h.retryAfter, n, h.retryDate, now);
    assert Requests(h, now)[1..] == Requests(h.(retryAfter := ""), now)[1..];
  }

  lemma TenDigits()
    ensures Digits("1844674407") == Some(1_844_674_407)
  {
    var s := "1844674407";
    assert Digits(s[..0]) == Some(0);
    assert s[..1][..0] == s[..0] && Digits(s[..1]) == Some(1);
    assert s[..2][..1] == s[..1] && Digits(s[..2]) == Some(18);
    assert s[..3][..2] == s[..2] && Digits(s[..3]) == Some(184);
    assert s[..4][..3] == s[..3] && Digits(s[..4]) == Some(1844);
    assert s[..5][..4] == s[..4] && Digits(s[..5]) == Some(18446);
    assert s[..6][..5] == s[..5] && Digits(s[..6]) == Some(184467);
    assert s[..7][..6] == s[..6] && Digits(s[..7]) == Some(1844674);
    assert s[..8][..7] == s[..7] && Digits(s[..8]) == Some(18446744);
    assert s[..9][..8] == s[..8] && Digits(s[..9]) == Some(184467440);
    assert s[..10] == s;
  }

  /** A server that asks for 18446744074 seconds, 584 years, gets 290 milliseconds under the default
      settings, where the clamp of what it asked for is a minute. */
  lemma HugeDelayWraps(now: int)
    ensures var cfg, val := New(0, 0, 0), "18446744074";
      && ParseInt64(val) == Some(18_446_744_074)
      && ParseDeltaSeconds(val) == 290_448_384
      && Hint(cfg, Headers(val, None, "", ""), now) == Some(290_448_384)
      && Hint(cfg, Headers("", None, val, ""), now) == Some(290_448_384)
      && Clamp(cfg, 18_446_744_074 * SECOND) == 60 * SECOND
  {
    var val := "18446744074";
    assert val[..10] == "1844674407";
    TenDigits();
    assert Digits(val) == Some(18_446_744_074);
    assert ParseInt64(val) == Some(18_446_744_074);
    hide ParseInt64, Digits;
    assert Requests(Headers("", None, val, ""), now)[0] == 0;
    assert FirstPositive(Requests(Headers("", None, val, ""), now)[1..]) == Some(290_448_384);
  }

  // ----- The wait before the next attempt

  function Wait(cfg: Config, attempt: nat, response: Option<Headers>, now: int, jitter: nat): int {
    var hint := if response.Some? then Hint(cfg, response.value, now) else None;
    if hint.Some? then hint.value else Exponential(cfg, attempt, jitter)
  }

  predicate JitterOk(cfg: Config, attempt: nat, jitter: nat) {
    Bound(cfg, attempt) > cfg.waitMin ==> jitter < JitterRange(cfg, attempt)
  }

  /** Whatever the headers say, a wait is positive and bounded by the configuration. */
  lemma WaitRange(cfg: Config, attempt: nat, response: Option<Headers>, now: int, jitter: nat)
    requires cfg.Normal() && JitterOk(cfg, attempt, jitter)
    ensures 0 < Wait(cfg, attempt, response, now, jitter) <= Max(cfg.waitMax, cfg.maxRetryAfter)
  {
    ExponentialRange(cfg, attempt, jitter);
    if response.Some? {
      HintMeaning(cfg, response.value, now);
    }
  }

  // ----- The wait, independently

  /** The number a header value spells, or 0. */
  function Spelled(val: string): int {
    if ParseInt64(val).Some? then ParseInt64(val).value else 0
  }

  /** The largest epoch time.Unix takes as it is. */
  const MAX_EPOCH: int := 9_223_371_974_719_179_007

  /** Retry-After asks for no positive wait: a number of seconds that wraps away, or no number and no
      date in the future. */
  predicate RetryAfterSilent(h: Headers, now: int) {
    var a := Spelled(h.retryAfter);
    if a > 0 then Wrap64(a * 1_000_000_000) <= 0
    else h.retryAfter == "" || h.retryDate.None? || h.retryDate.value <= now
  }

  predicate ResetSilent(h: Headers) {
    var b := Spelled(h.reset);
    b <= 0 || Wrap64(b * 1_000_000_000) <= 0
  }

  predicate XResetSilent(h: Headers, now: int) {
    var c := Spelled(h.xReset);
    || c <= 0
    || (1_000_000_000 <= c <= MAX_EPOCH && c * 1_000_000_000 <= now)
    || (c > MAX_EPOCH && (c - TWO_64) * 1_000_000_000 <= now)
  }

  /** The wait d is the one that a response, or the lack of one, asks for.  A request is floored at
      waitMin and then capped. */
  ghost predicate RightWait(cfg: Config, attempt: nat, response: Option<Headers>, now: int, jitter: nat, d: int) {
    if response.None? then d == if Bound(cfg, attempt) > cfg.waitMin then cfg.waitMin + jitter else Bound(cfg, attempt)
    else
      var h := response.value;
      var a, b, c := Spelled(h.retryAfter), Spelled(h.reset), Spelled(h.xReset);
      // Retry-After, in seconds or as a date
      && (0 < a <= MAX_SECONDS ==> Asked(cfg, a * 1_000_000_000, d))
      && (a > MAX_SECONDS && Wrap64(a * 1_000_000_000) > 0 ==> Asked(cfg, Wrap64(a * 1_000_000_000), d))
      && (a <= 0 && h.retryAfter != "" && h.retryDate.Some? && h.retryDate.value > now ==>
            Asked(cfg, h.retryDate.value - now, d))
      // RateLimit-Reset
      && (RetryAfterSilent(h, now) && 0 < b <= MAX_SECONDS ==> Asked(cfg, b * 1_000_000_000, d))
      && (RetryAfterSilent(h, now) && b > MAX_SECONDS && Wrap64(b * 1_000_000_000) > 0 ==>
            Asked(cfg, Wrap64(b * 1_000_000_000), d))
      // X-RateLimit-Reset, in seconds or as an epoch
      && (RetryAfterSilent(h, now) && ResetSilent(h) && 0 < c < 1_000_000_000 ==> Asked(cfg, c * 1_000_000_000, d))
      && (RetryAfterSilent(h, now) && ResetSilent(h) && 1_000_000_000 <= c <= MAX_EPOCH && c * 1_000_000_000 > now ==>
            Asked(cfg, c * 1_000_000_000 - now, d))
      && (RetryAfterSilent(h, now) && ResetSilent(h) && c > MAX_EPOCH && (c - TWO_64) * 1_000_000_000 > now ==>
            Asked(cfg, (c - TWO_64) * 1_000_000_000 - now, d))
      // nothing
      && (RetryAfterSilent(h, now) && ResetSilent(h) && XResetSilent(h, now) ==>
            d == if Bound(cfg, attempt) > cfg.waitMin then cfg.waitMin + jitter else Bound(cfg, attempt))
  }

  predicate Asked(cfg: Config, request: int, d: int) {
    d == Min(Max(request, cfg.waitMin), cfg.maxRetryAfter)
  }

  lemma EpochFits(c: int)
    requires 0 < c < TWO_63
    ensures c <= MAX_EPOCH ==> Unix(c) == c * SECOND
    ensures c > MAX_EPOCH ==> Unix(c) == (c - TWO_64) * SECOND
  {
    assert c <= MAX_EPOCH ==> Wrap64(c + UNIX_TO_INTERNAL) == c + UNIX_TO_INTERNAL;
    assert c > MAX_EPOCH ==> Wrap64(c + UNIX_TO_INTERNAL) == c + UNIX_TO_INTERNAL - TWO_64;
  }

  lemma RetryAfterRequest(h: Headers, now: int)
    ensures var a, r := Spelled(h.retryAfter), Requests(h, now)[0];
      && (r <= 0 <==> RetryAfterSilent(h, now))
      && (a > 0 && r > 0 ==> r == Wrap64(a * SECOND))
      && (a <= 0 && r > 0 ==> r == Min(TWO_63 - 1, h.retryDate.value - now))
  {
    hide Digits;
  }

  lemma ResetRequest(h: Headers, now: int)
    ensures var b, r := Spelled(h.reset), Requests(h, now)[1];
      (r <= 0 <==> ResetSilent(h)) && (r > 0 ==> b > 0 && r == Wrap64(b * SECOND))
  {
    hide Digits;
  }

  lemma XResetRequest(h: Headers, now: int)
    ensures var c, r := Spelled(h.xReset), Requests(h, now)[2];
      && (0 < c < EPOCH_THRESHOLD ==> r == c * SECOND)
      && (EPOCH_THRESHOLD <= c <= MAX_EPOCH && c * SECOND > now ==> r == Min(TWO_63 - 1, c * SECOND - now))
      && (c > MAX_EPOCH && (c - TWO_64) * SECOND > now ==> r == Min(TWO_63 - 1, (c - TWO_64) * SECOND - now))
      && (XResetSilent(h, now) ==> r <= 0)
  {
    var c := Spelled(h.xReset);
    if c > 0 {
      ParsedIsInt64(h.xReset);
      EpochFits(c);
    }
    hide Digits, Unix;
  }

  lemma ParsedIsInt64(val: string)
    ensures ParseInt64(val).Some? ==> IsInt64(ParseInt64(val).value) && val != ""
  {
    hide Digits;
  }

  lemma FirstOf(ds: seq<int>)
    requires |ds| == 3
    ensures FirstPositive(ds) == if ds[0] > 0 then Some(ds[0]) else if ds[1] > 0 then Some(ds[1])
                                 else if ds[2] > 0 then Some(ds[2]) else None
  {
    var rest, last := ds[1..], ds[1..][1..];
    assert rest[0] == ds[1] && last[0] == ds[2] && last[1..] == [];
    assert FirstPositive(last) == if ds[2] > 0 then Some(ds[2]) else None;
    assert FirstPositive(rest) == if ds[1] > 0 then Some(ds[1]) else FirstPositive(last);
  }

  /** The wait is the one asked for, whatever the headers and the attempt. */
  lemma {:induction false} WaitIsRight(cfg: Config, attempt: nat, response: Option<Headers>, now: int, jitter: nat)
    requires cfg.Normal() && JitterOk(cfg, attempt, jitter)
    ensures RightWait(cfg, attempt, response, now, jitter, Wait(cfg, attempt, response, now, jitter))
  {
    ExponentialIs(cfg, attempt, jitter);
    if response.Some? {
      var h := response.value;
      RetryAfterRequest(h, now);
      ResetRequest(h, now);
      XResetRequest(h, now);
      FirstOf(Requests(h, now));
      hide Requests, FirstPositive, Exponential, Bound, Spelled, Wrap64;
      SecondsFit(Spelled(h.retryAfter));
      SecondsFit(Spelled(h.reset));
    }
  }

  lemma SecondsFit(n: int)
    ensures 0 < n <= MAX_SECONDS ==> Wrap64(n * SECOND) == n * SECOND
  {
  }

  lemma ExponentialIs(cfg: Config, attempt: nat, jitter: nat)
    requires cfg.Normal() && JitterOk(cfg, attempt, jitter)
    ensures Exponential(cfg, attempt, jitter)
            == if Bound(cfg, attempt) > cfg.waitMin then cfg.waitMin + jitter else Bound(cfg, attempt)
  {
    ExponentialRange(cfg, attempt, jitter);
    hide Product;
  }

  /** With the default settings, an answer that says five seconds is waited for five seconds. */
  lemma FiveSecondsAreFive(attempt: nat, now: int, jitter: nat)
    ensures Wait(New(0, 0, 0), attempt, Some(Headers("5", None, "", "")), now, jitter) == 5_000_000_000
  {
    assert Digits("5"[..0]) == Some(0);
    assert ParseInt64("5") == Some(5);
  }

  /** The relation determines the wait. */
  lemma {:induction false} RightWaitIsUnique(
    cfg: Config, attempt: nat, response: Option<Headers>, now: int, jitter: nat, d: int, e: int)
    requires RightWait(cfg, attempt, response, now, jitter, d) && RightWait(cfg, attempt, response, now, jitter, e)
    ensures d == e
  {
    hide Bound, Wrap64;
    if response.Some? {
      ParsedIsInt64(response.value.xReset);
      hide ParseInt64;
    }
  }

  /** Every wait from waitMin to the bound is drawn, by exactly one number. */
  lemma {:induction false} EveryWaitIsDrawn(cfg: Config, attempt: nat, d: int)
    requires cfg.Normal() && Bound(cfg, attempt) > cfg.waitMin
    ensures cfg.waitMin <= d <= Bound(cfg, attempt) <==>
              exists jitter: nat :: JitterOk(cfg, attempt, jitter) && Exponential(cfg, attempt, jitter) == d
    ensures forall j: nat, k: nat ::
              (JitterOk(cfg, attempt, j) && JitterOk(cfg, attempt, k)
               && Exponential(cfg, attempt, j) == Exponential(cfg, attempt, k)) ==> j == k
  {
    forall j: nat | JitterOk(cfg, attempt, j) ensures Exponential(cfg, attempt, j) == cfg.waitMin + j {
      ExponentialIs(cfg, attempt, j);
    }
    JitterRangeIs(cfg, attempt);
    hide Exponential, Bound, JitterRange;
    if cfg.waitMin <= d <= Bound(cfg, attempt) {
      var jitter: nat := d - cfg.waitMin;
      assert JitterOk(cfg, attempt, jitter) && Exponential(cfg, attempt, jitter) == d;
    }
  }

  lemma JitterRangeIs(cfg: Config, attempt: nat)
    requires cfg.Normal() && Bound(cfg, attempt) > cfg.waitMin
    ensures JitterRange(cfg, attempt) == Bound(cfg, attempt) - cfg.waitMin + 1
  {
    assert Bound(cfg, attempt) <= cfg.waitMax;
    hide Bound, Product;
  }
}
