/** The redirect guard: the key of a URL, one redirect, and whole chains of redirects. */
module Redirect {
  import opened Octets
  import opened Pigeonhole
  import IpPolicy
  import Query

  const COLON: Byte := 58
  const SLASH: Byte := 47
  const QUESTION: Byte := 63

  /** A URL: scheme, user information, Hostname (brackets removed), Port, EscapedPath and RawQuery.  The
      fragment is no part of a request. */
  datatype URL = URL(scheme: Bytes, user: Bytes, host: Bytes, port: Bytes, path: Bytes, rawQuery: Bytes)

  const HTTP: Bytes := [104, 116, 116, 112]
  const HTTPS: Bytes := [104, 116, 116, 112, 115]
  const PORT_80: Bytes := [56, 48]
  const PORT_443: Bytes := [52, 52, 51]

  function LowerByte(c: Byte): Byte {
    if 65 <= c <= 90 then c + 32 else c
  }

  function Lower(s: Bytes): (t: Bytes)
    ensures |t| == |s| && forall i :: 0 <= i < |s| ==> t[i] == LowerByte(s[i])
  {
    seq(|s|, i requires 0 <= i < |s| => LowerByte(s[i]))
  }

  /** The same ASCII letter in two cases. */
  predicate CasesOfOneLetter(a: Byte, b: Byte) {
    (65 <= a <= 90 && b == a + 32) || (65 <= b <= 90 && a == b + 32)
  }

  /** Equal up to the case of ASCII letters. */
  ghost predicate EqualFold(a: Bytes, b: Bytes) {
    |a| == |b| && forall i :: 0 <= i < |a| ==> a[i] == b[i] || CasesOfOneLetter(a[i], b[i])
  }

  lemma LowerIff(a: Bytes, b: Bytes)
    ensures Lower(a) == Lower(b) <==> EqualFold(a, b)
  {
    if Lower(a) == Lower(b) {
      forall i | 0 <= i < |a| ensures a[i] == b[i] || CasesOfOneLetter(a[i], b[i]) {
        assert Lower(a)[i] == LowerByte(a[i]) && Lower(b)[i] == LowerByte(b[i]);
      }
    }
    if EqualFold(a, b) {
      forall i | 0 <= i < |a| ensures Lower(a)[i] == Lower(b)[i] {
        assert a[i] == b[i] || CasesOfOneLetter(a[i], b[i]);
      }
    }
  }

  // ----- normalizeURL

  /** The port, unless it is the default of the scheme. */
  function EffectivePort(u: URL): Bytes {
    var scheme := Lower(u.scheme);
    if (scheme == HTTP && u.port == PORT_80) || (scheme == HTTPS && u.port == PORT_443) then [] else u.port
  }

  function HostPort(host: Bytes, port: Bytes): Bytes {
    if port != [] then host + [COLON] + port else host
  }

  function QueryPart(raw: Bytes): Bytes {
    if raw != [] then [QUESTION] + Query.Canonical(raw) else []
  }

  function Tail(u: URL): Bytes {
    HostPort(Lower(u.host), EffectivePort(u)) + (u.path + QueryPart(u.rawQuery))
  }

  function Key(u: URL): Bytes {
    Lower(u.scheme) + ([COLON] + [SLASH, SLASH] + Tail(u))
  }

  /** normalizeURL writes the key. */
  method NormalizeURL(u: URL) returns (b: Bytes)
    ensures b == Key(u)
  {
    hide Query.Canonical;
    var scheme, host, port := Lower(u.scheme), Lower(u.host), u.port;
    if (scheme == HTTP && port == PORT_80) || (scheme == HTTPS && port == PORT_443) {
      port := [];
    }
    var hostPort := if port != [] then host + [COLON] + port else host;
    b := scheme;
    b := b + [COLON, SLASH, SLASH];
    b := b + hostPort;
    b := b + u.path;
    ghost var front := b;
    if u.rawQuery != [] {
      b := b + [QUESTION];
      var q := Query.CanonicalizeQuery(u.rawQuery);
      b := b + q;
      assert b == front + ([QUESTION] + q);
    }
    Regroup(scheme, hostPort, u.path, QueryPart(u.rawQuery));
  }

  lemma Regroup(scheme: Bytes, hostPort: Bytes, path: Bytes, query: Bytes)
    ensures scheme + [COLON, SLASH, SLASH] + hostPort + path + query
            == scheme + ([COLON] + [SLASH, SLASH] + (hostPort + (path + query)))
    ensures scheme + [COLON, SLASH, SLASH] + hostPort + path
            == scheme + ([COLON] + [SLASH, SLASH] + (hostPort + (path + [])))
  {
  }

  // ----- What the key identifies

  predicate Without(s: Bytes, stops: set<Byte>) {
    forall i :: 0 <= i < |s| ==> s[i] !in stops
  }

  predicate StopsWith(s: Bytes, stops: set<Byte>) {
    s == [] || s[0] in stops
  }

  /** A string splits in only one way into a part without separators and a part that starts with one. */
  lemma SplitUnique(a: Bytes, b: Bytes, c: Bytes, d: Bytes, stops: set<Byte>)
    requires Without(a, stops) && Without(c, stops) && StopsWith(b, stops) && StopsWith(d, stops)
    requires a + b == c + d
    ensures a == c && b == d
  {
    var s := a + b;
    assert forall i :: 0 <= i < |a| ==> s[i] == a[i];
    assert forall i :: 0 <= i < |c| ==> s[i] == c[i];
    assert |a| < |s| ==> s[|a|] == b[0];
    assert |c| < |s| ==> s[|c|] == d[0];
    assert |a| == |c|;
    assert a == (a + b)[..|a|] && c == (c + d)[..|c|];
    assert b == (a + b)[|a|..] && d == (c + d)[|c|..];
  }

  /** What a parsed URL with a host looks like, apart from the colons of an IPv6 host. */
  ghost predicate WellFormed(u: URL) {
    && Without(u.scheme, {COLON})
    && Without(u.host, {SLASH, QUESTION})
    && Without(u.port, {SLASH, QUESTION, COLON})
    && Without(u.path, {QUESTION}) && StopsWith(u.path, {SLASH})
  }

  /** Same parameters, or the same unparseable text. */
  ghost predicate SameQuery(a: Bytes, b: Bytes) {
    if a == [] || b == [] then a == b
    else if Query.Parse(a).Some? && Query.Parse(b).Some? then
      multiset(Query.Parse(a).value) == multiset(Query.Parse(b).value)
    else a == b
  }

  ghost predicate SameUpToHost(u: URL, v: URL) {
    Lower(u.scheme) == Lower(v.scheme) && u.path == v.path && SameQuery(u.rawQuery, v.rawQuery)
  }

  lemma LowerKeeps(s: Bytes, stops: set<Byte>)
    requires Without(s, stops) && stops <= {COLON, SLASH, QUESTION}
    ensures Without(Lower(s), stops)
  {
  }

  lemma QueryPartUnique(a: Bytes, b: Bytes)
    ensures QueryPart(a) == QueryPart(b) <==> SameQuery(a, b)
  {
    Query.CanonicalIsComplete(a, b);
    if a != [] && b != [] {
      assert QueryPart(a)[1..] == Query.Canonical(a) && QueryPart(b)[1..] == Query.Canonical(b);
    }
  }

  lemma HostPortClean(u: URL)
    requires WellFormed(u)
    ensures Without(HostPort(Lower(u.host), EffectivePort(u)), {SLASH, QUESTION})
  {
    LowerKeeps(u.host, {SLASH, QUESTION});
    assert EffectivePort(u) == [] || EffectivePort(u) == u.port;
    hide EffectivePort, Lower;
  }

  lemma PathAndQuery(u: URL)
    requires WellFormed(u)
    ensures StopsWith(u.path + QueryPart(u.rawQuery), {SLASH, QUESTION})
    ensures Without(u.path, {QUESTION}) && StopsWith(QueryPart(u.rawQuery), {QUESTION})
  {
    hide Query.Canonical;
  }

  lemma TailSplits(u: URL, v: URL)
    requires WellFormed(u) && WellFormed(v) && Tail(u) == Tail(v)
    ensures HostPort(Lower(u.host), EffectivePort(u)) == HostPort(Lower(v.host), EffectivePort(v))
    ensures u.path == v.path && QueryPart(u.rawQuery) == QueryPart(v.rawQuery)
  {
    hide HostPort, Lower, EffectivePort, QueryPart, WellFormed, Without, StopsWith;
    var a, c := HostPort(Lower(u.host), EffectivePort(u)), HostPort(Lower(v.host), EffectivePort(v));
    HostPortClean(u);
    HostPortClean(v);
    PathAndQuery(u);
    PathAndQuery(v);
    SplitUnique(a, u.path + QueryPart(u.rawQuery), c, v.path + QueryPart(v.rawQuery), {SLASH, QUESTION});
    SplitUnique(u.path, QueryPart(u.rawQuery), v.path, QueryPart(v.rawQuery), {QUESTION});
  }

  /** Two URLs share a key iff they agree on scheme, host and port text, path and query. */
  lemma KeyIff(u: URL, v: URL)
    requires WellFormed(u) && WellFormed(v)
    ensures Key(u) == Key(v) <==>
              && SameUpToHost(u, v)
              && HostPort(Lower(u.host), EffectivePort(u)) == HostPort(Lower(v.host), EffectivePort(v))
  {
    hide Query.Canonical;
    QueryPartUnique(u.rawQuery, v.rawQuery);
    if Key(u) == Key(v) {
      LowerKeeps(u.scheme, {COLON});
      LowerKeeps(v.scheme, {COLON});
      var x, y := [COLON] + [SLASH, SLASH] + Tail(u), [COLON] + [SLASH, SLASH] + Tail(v);
      SplitUnique(Lower(u.scheme), x, Lower(v.scheme), y, {COLON});
      assert x[3..] == Tail(u) && y[3..] == Tail(v);
      TailSplits(u, v);
    }
  }

  /** The host and port text determines host and port, unless one host is the other's host:port: the
      only ambiguity, and one that needs a host with a colon, that is an IPv6 address. */
  lemma HostPortIff(h: Bytes, p: Bytes, h': Bytes, p': Bytes)
    requires Without(p, {COLON}) && Without(p', {COLON})
    ensures HostPort(h, p) == HostPort(h', p') <==>
              || (h == h' && p == p')
              || (p != [] && p' == [] && h' == h + [COLON] + p)
              || (p == [] && p' != [] && h == h' + [COLON] + p')
  {
    if p != [] && p' != [] && h + [COLON] + p == h' + [COLON] + p' {
      var s := h + [COLON] + p;
      assert s[|h|] == COLON && s[|h'|] == COLON;
      assert forall i :: |h| < i < |s| ==> s[i] == p[i - |h| - 1];
      assert forall i :: |h'| < i < |s| ==> s[i] == p'[i - |h'| - 1];
      assert |h| == |h'|;
      assert s[..|h|] == h && s[..|h|] == h' && s[|h| + 1..] == p && s[|h| + 1..] == p';
    }
  }

  /** One place: the same resource but for the user information, which net/http sends as credentials. */
  ghost predicate SamePlace(u: URL, v: URL) {
    SameUpToHost(u, v) && Lower(u.host) == Lower(v.host) && EffectivePort(u) == EffectivePort(v)
  }

  ghost predicate SameResource(u: URL, v: URL) {
    SamePlace(u, v) && u.user == v.user
  }

  /** One URL names a port and the other has none, and its host is the first one's host:port. */
  ghost predicate PortInHost(u: URL, v: URL) {
    && EffectivePort(u) != [] && EffectivePort(v) == []
    && Lower(v.host) == Lower(u.host) + [COLON] + EffectivePort(u)
  }

  /** Different resources with one key. */
  ghost predicate Confused(u: URL, v: URL) {
    || (SamePlace(u, v) && u.user != v.user)
    || (SameUpToHost(u, v) && (PortInHost(u, v) || PortInHost(v, u)))
  }

  /** Two URLs share a key iff they are one resource, or confused; and never both. */
  lemma KeyMeaning(u: URL, v: URL)
    requires WellFormed(u) && WellFormed(v)
    ensures Key(u) == Key(v) <==> SameResource(u, v) || Confused(u, v)
    ensures !(SameResource(u, v) && Confused(u, v))
  {
    hide Key, SameUpToHost, HostPort;
    KeyIff(u, v);
    HostPortIff(Lower(u.host), EffectivePort(u), Lower(v.host), EffectivePort(v));
  }

  /** A confusion needs different user information, or a host with a colon, that is an IPv6 address. */
  lemma ConfusionNeeds(u: URL, v: URL)
    requires Without(u.host, {COLON}) && Without(v.host, {COLON})
    ensures Confused(u, v) <==> SamePlace(u, v) && u.user != v.user
  {
    LowerKeeps(u.host, {COLON});
    LowerKeeps(v.host, {COLON});
    var a, b := Lower(u.host), Lower(v.host);
    assert (a + [COLON] + EffectivePort(u))[|a|] == COLON && (b + [COLON] + EffectivePort(v))[|b|] == COLON;
  }

  /** For hosts without colons the key is a complete invariant of the place. */
  lemma {:induction false} KeyIsComplete(u: URL, v: URL)
    requires WellFormed(u) && WellFormed(v) && Without(u.host, {COLON}) && Without(v.host, {COLON})
    ensures Key(u) == Key(v) <==> SamePlace(u, v)
  {
    KeyMeaning(u, v);
    ConfusionNeeds(u, v);
  }

  /** The case of scheme and host does not matter to the key. */
  lemma {:induction false} KeyIgnoresCase(u: URL, v: URL)
    requires EqualFold(u.scheme, v.scheme) && EqualFold(u.host, v.host) && u.port == v.port
    requires u.path == v.path && u.rawQuery == v.rawQuery
    ensures Key(u) == Key(v)
  {
    LowerIff(u.scheme, v.scheme);
    LowerIff(u.host, v.host);
  }

  /** A port makes no difference iff it is no port or the default one, 80 for http and 443 for https. */
  ghost predicate PortIsDefault(u: URL) {
    || u.port == []
    || (EqualFold(u.scheme, [104, 116, 116, 112]) && u.port == [56, 48])
    || (EqualFold(u.scheme, [104, 116, 116, 112, 115]) && u.port == [52, 52, 51])
  }

  lemma {:induction false} PortMattersIff(u: URL, v: URL)
    requires WellFormed(u) && WellFormed(v) && v == u.(port := v.port)
    ensures Key(u) == Key(v) <==> u.port == v.port || (PortIsDefault(u) && PortIsDefault(v))
  {
    SchemeFolds(u.scheme);
    KeyMeaning(u, v);
    hide Key, WellFormed, SameUpToHost, EqualFold;
    assert SameUpToHost(u, v) by { SameQueryItself(u); }
    var h := Lower(u.host);
    assert EffectivePort(u) != [] ==> |h + [COLON] + EffectivePort(u)| > |h|;
    assert EffectivePort(v) != [] ==> |h + [COLON] + EffectivePort(v)| > |h|;
  }

  lemma SameQueryItself(u: URL)
    ensures forall port :: SameUpToHost(u, u.(port := port))
  {
  }

  lemma SchemeFolds(scheme: Bytes)
    ensures Lower(scheme) == HTTP <==> EqualFold(scheme, HTTP)
    ensures Lower(scheme) == HTTPS <==> EqualFold(scheme, HTTPS)
  {
    LowerIff(scheme, HTTP);
    LowerIff(scheme, HTTPS);
    assert Lower(HTTP) == HTTP && Lower(HTTPS) == HTTPS;
  }

  // ----- One redirect

  datatype Config = Config(
    maxRedirects: int, allowDowngrade: bool, allowPrivate: bool, ipPolicyAtDial: bool, sensitive: seq<Bytes>)

  datatype Error = TooManyRedirects | RedirectLoop | SchemeDowngrade | BlockedByIPPolicy

  predicate SameOrigin(a: URL, b: URL) {
    Lower(a.scheme) == Lower(b.scheme) && Lower(a.host) == Lower(b.host) && a.port == b.port
  }

  predicate Visited(via: seq<URL>, target: URL) {
    exists i :: 0 <= i < |via| && Key(via[i]) == Key(target)
  }

  predicate Downgrades(via: seq<URL>, target: URL) {
    via != [] && via[|via| - 1].scheme == HTTPS && target.scheme == HTTP
  }

  /** The answer of the guard, its checks in their order; host is what resolving the target yields. */
  function Verdict(cfg: Config, via: seq<URL>, target: URL, host: IpPolicy.Host): Option<Error> {
    if cfg.maxRedirects > 0 && |via| >= cfg.maxRedirects then Some(TooManyRedirects)
    else if Visited(via, target) then Some(RedirectLoop)
    else if !cfg.allowDowngrade && Downgrades(via, target) then Some(SchemeDowngrade)
    else if !cfg.allowPrivate && !cfg.ipPolicyAtDial && !IpPolicy.Permits(host) then Some(BlockedByIPPolicy)
    else None
  }

  /** Header names compare in a canonical form; lower case serves for ASCII names. */
  function HeaderName(h: Bytes): Bytes {
    Lower(h)
  }

  class Request {
    const url: URL
    var header: map<Bytes, seq<Bytes>>

    constructor (url: URL, header: map<Bytes, seq<Bytes>>)
      ensures this.url == url && this.header == header
    {
      this.url, this.header := url, header;
    }
  }

  /** Scheme and host are the same up to case, and the ports are written the same. */
  ghost predicate OneOrigin(a: URL, b: URL) {
    EqualFold(a.scheme, b.scheme) && EqualFold(a.host, b.host) && a.port == b.port
  }

  lemma SameOriginIff(a: URL, b: URL)
    ensures SameOrigin(a, b) <==> OneOrigin(a, b)
  {
    LowerIff(a.scheme, b.scheme);
    LowerIff(a.host, b.host);
  }

  /** No sensitive header is left, under any spelling. */
  ghost predicate Scrubbed(header: map<Bytes, seq<Bytes>>, sensitive: seq<Bytes>) {
    forall h :: h in sensitive ==> HeaderName(h) !in header
  }

  /** All else is as it was. */
  ghost predicate LostOnly(before: map<Bytes, seq<Bytes>>, header: map<Bytes, seq<Bytes>>, sensitive: seq<Bytes>) {
    && (forall name :: name in header ==> name in before && header[name] == before[name])
    && (forall name :: name in before && name !in header ==> exists h :: h in sensitive && HeaderName(h) == name)
  }

  lemma WithoutSensitive(before: map<Bytes, seq<Bytes>>, sensitive: seq<Bytes>)
    ensures var header := before - (set h | h in sensitive :: HeaderName(h));
      Scrubbed(header, sensitive) && LostOnly(before, header, sensitive)
  {
    hide HeaderName;
  }

  /** Header maps have canonical names, so a sensitive name in any case finds its header. */
  lemma ScrubbedMeaning(header: map<Bytes, seq<Bytes>>, sensitive: seq<Bytes>)
    requires forall name :: name in header ==> HeaderName(name) == name
    ensures Scrubbed(header, sensitive) <==>
              forall name, h :: name in header && h in sensitive ==> !EqualFold(name, h)
  {
    hide EqualFold, Lower;
    forall name, h | name in header && h in sensitive ensures EqualFold(name, h) <==> name == HeaderName(h) {
      LowerIff(name, h);
    }
    if !Scrubbed(header, sensitive) {
      var h :| h in sensitive && HeaderName(h) in header;
      assert EqualFold(HeaderName(h), h);
    }
  }

  /** A redirect is refused as a downgrade iff nothing before objects, downgrades are not allowed, and it
      goes from https to http: in particular never from http, nor to https. */
  lemma DowngradeIff(cfg: Config, via: seq<URL>, target: URL, host: IpPolicy.Host)
    ensures Verdict(cfg, via, target, host) == Some(SchemeDowngrade) <==>
              && WithinLimit(cfg, via) && !cfg.allowDowngrade
              && (forall i :: 0 <= i < |via| ==> Key(via[i]) != Key(target))
              && via != [] && via[|via| - 1].scheme == [104, 116, 116, 112, 115] && target.scheme == [104, 116, 116, 112]
  {
    hide Key;
  }

  /** check: the verdict, and the only change to the request: an accepted redirect to another origin
      leaves behind exactly the sensitive headers. */
  method Check(cfg: Config, req: Request, via: seq<URL>, host: IpPolicy.Host) returns (err: Option<Error>)
    modifies req
    ensures err == Verdict(cfg, via, req.url, host)
    ensures req.header == if err.None? && via != [] && !SameOrigin(via[|via| - 1], req.url)
                          then old(req.header) - (set h | h in cfg.sensitive :: HeaderName(h)) else old(req.header)
    ensures err.None? && via != [] && !OneOrigin(via[|via| - 1], req.url) ==>
              Scrubbed(req.header, cfg.sensitive) && LostOnly(old(req.header), req.header, cfg.sensitive)
    ensures err.Some? || via == [] || OneOrigin(via[|via| - 1], req.url) ==> req.header == old(req.header)
  {
    hide OneOrigin, SameOrigin, HeaderName, Scrubbed, LostOnly, Verdict;
    err := Refuse(cfg, req.url, via, host);
    if err.None? && |via| > 0 {
      CrossOrigin(cfg, req, via[|via| - 1]);
    }
  }

  /** The first four checks. */
  method Refuse(cfg: Config, target: URL, via: seq<URL>, host: IpPolicy.Host) returns (err: Option<Error>)
    ensures err == Verdict(cfg, via, target, host)
  {
    hide Key;
    if cfg.maxRedirects > 0 && |via| >= cfg.maxRedirects {
      return Some(TooManyRedirects);
    }
    var canonical := NormalizeURL(target);
    for i := 0 to |via|
      invariant forall j :: 0 <= j < i ==> Key(via[j]) != Key(target)
    {
      var previous := NormalizeURL(via[i]);
      if previous == canonical {
        return Some(RedirectLoop);
      }
    }
    if !cfg.allowDowngrade && |via| > 0 {
      var previous := via[|via| - 1];
      if previous.scheme == HTTPS && target.scheme == HTTP {
        return Some(SchemeDowngrade);
      }
    }
    if !cfg.allowPrivate && !cfg.ipPolicyAtDial {
      if !IpPolicy.Permits(host) {
        return Some(BlockedByIPPolicy);
      }
    }
    return None;
  }

  /** The scrubbing across origins. */
  method CrossOrigin(cfg: Config, req: Request, previous: URL)
    modifies req
    ensures req.header == if !SameOrigin(previous, req.url)
                          then old(req.header) - (set h | h in cfg.sensitive :: HeaderName(h)) else old(req.header)
    ensures !OneOrigin(previous, req.url) ==>
              Scrubbed(req.header, cfg.sensitive) && LostOnly(old(req.header), req.header, cfg.sensitive)
    ensures OneOrigin(previous, req.url) ==> req.header == old(req.header)
  {
    SameOriginIff(previous, req.url);
    WithoutSensitive(req.header, cfg.sensitive);
    hide OneOrigin, SameOrigin, HeaderName, Scrubbed, LostOnly;
    if |cfg.sensitive| > 0 && !SameOrigin(previous, req.url) {
      Scrub(cfg, req);
    }
  }

  method Scrub(cfg: Config, req: Request)
    modifies req
    ensures req.header == old(req.header) - (set h | h in cfg.sensitive :: HeaderName(h))
  {
    hide HeaderName;
    ghost var removed: set<Bytes> := {};
    for i := 0 to |cfg.sensitive|
      invariant removed == set j | 0 <= j < i :: HeaderName(cfg.sensitive[j])
      invariant req.header == old(req.header) - removed
    {
      req.header := req.header - {HeaderName(cfg.sensitive[i])};
      removed := removed + {HeaderName(cfg.sensitive[i])};
    }
    assert removed == set h | h in cfg.sensitive :: HeaderName(h);
  }

  predicate WithinLimit(cfg: Config, via: seq<URL>) {
    cfg.maxRedirects > 0 ==> |via| < cfg.maxRedirects
  }

  ghost predicate AllWellFormed(urls: seq<URL>) {
    forall i :: 0 <= i < |urls| ==> WellFormed(urls[i])
  }

  ghost predicate Requested(via: seq<URL>, target: URL) {
    exists i :: 0 <= i < |via| && SameResource(via[i], target)
  }

  ghost predicate ConfusedWithSome(via: seq<URL>, target: URL) {
    exists i :: 0 <= i < |via| && Confused(via[i], target)
  }

  /** A redirect is refused as a loop iff it is within the limit and some earlier request of the chain
      was for the same resource, or for one it is confused with. */
  lemma {:induction false} LoopIff(cfg: Config, via: seq<URL>, target: URL, host: IpPolicy.Host)
    requires AllWellFormed(via) && WellFormed(target)
    ensures Verdict(cfg, via, target, host) == Some(RedirectLoop) <==>
              WithinLimit(cfg, via) && (Requested(via, target) || ConfusedWithSome(via, target))
  {
    hide Key, WellFormed, SameResource, Confused;
    forall i | 0 <= i < |via|
      ensures Key(via[i]) == Key(target) <==> SameResource(via[i], target) || Confused(via[i], target)
    {
      KeyMeaning(via[i], target);
    }
  }

  /** "Refused as a loop iff requested before" is right for a redirect within the limit iff the target
      was requested before or is confused with nothing that was. */
  lemma {:induction false} LoopMeansRevisitIff(cfg: Config, via: seq<URL>, target: URL, host: IpPolicy.Host)
    requires AllWellFormed(via) && WellFormed(target) && WithinLimit(cfg, via)
    ensures (Verdict(cfg, via, target, host) == Some(RedirectLoop) <==> Requested(via, target))
            <==> (ConfusedWithSome(via, target) ==> Requested(via, target))
  {
    hide WellFormed, Requested, ConfusedWithSome, Verdict;
    LoopIff(cfg, via, target, host);
  }

  /** So it is right for every chain without IPv6 addresses whose URLs carry the same user information,
      as a rule none. */
  lemma {:induction false} LoopMeansRevisit(cfg: Config, via: seq<URL>, target: URL, host: IpPolicy.Host)
    requires AllWellFormed(via) && WellFormed(target)
    requires Without(target.host, {COLON})
    requires forall i :: 0 <= i < |via| ==> Without(via[i].host, {COLON}) && via[i].user == target.user
    ensures Verdict(cfg, via, target, host) == Some(RedirectLoop) <==> WithinLimit(cfg, via) && Requested(via, target)
  {
    hide WellFormed, Verdict, Confused;
    forall i | 0 <= i < |via| ensures !Confused(via[i], target) {
      ConfusionNeeds(via[i], target);
    }
    LoopIff(cfg, via, target, host);
  }

  /** With IPv6 addresses it can be wrong: a redirect from http://[::1]:8 to http://[::1:8], another
      host, is refused as a loop. */
  lemma IPv6RedirectRefused(cfg: Config, host: IpPolicy.Host)
    requires cfg.maxRedirects > 1
    ensures var u := URL(HTTP, [], [58, 58, 49], [56], [], []);
      var v := URL(HTTP, [], [58, 58, 49, 58, 56], [], [], []);
      && WellFormed(u) && WellFormed(v) && !Requested([u], v)
      && Verdict(cfg, [u], v, host) == Some(RedirectLoop)
  {
    var u := URL(HTTP, [], [58, 58, 49], [56], [], []);
    var v := URL(HTTP, [], [58, 58, 49, 58, 56], [], [], []);
    assert Lower(u.host) == [58, 58, 49] && Lower(v.host) == [58, 58, 49, 58, 56];
    assert Confused(u, v);
    KeyMeaning(u, v);
    assert Key([u][0]) == Key(v);
  }

  /** And with user information: a redirect from http://h to http://u@h, sent with other credentials, is
      refused as a loop. */
  lemma UserRedirectRefused(cfg: Config, host: IpPolicy.Host)
    requires cfg.maxRedirects > 1
    ensures var u, v := URL(HTTP, [], [104], [], [], []), URL(HTTP, [117], [104], [], [], []);
      && WellFormed(u) && WellFormed(v) && !Requested([u], v)
      && Verdict(cfg, [u], v, host) == Some(RedirectLoop)
  {
    var u, v := URL(HTTP, [], [104], [], [], []), URL(HTTP, [117], [104], [], [], []);
    assert Key([u][0]) == Key(v);
  }

  // ----- Chains

  /** A chain the guard accepted hop by hop: every request after the first passed the check. */
  ghost predicate Accepted(cfg: Config, chain: seq<URL>, hosts: seq<IpPolicy.Host>) {
    && 0 < |chain| == |hosts|
    && forall i :: 0 < i < |chain| ==> Verdict(cfg, chain[..i], chain[i], hosts[i]) == None
  }

  function Keys(chain: seq<URL>): (keys: seq<Bytes>)
    ensures |keys| == |chain| && forall i :: 0 <= i < |chain| ==> keys[i] == Key(chain[i])
  {
    seq(|chain|, i requires 0 <= i < |chain| => Key(chain[i]))
  }

  /** An accepted chain never repeats a key and keeps to the numeric limit. */
  lemma ChainNeverRepeats(cfg: Config, chain: seq<URL>, hosts: seq<IpPolicy.Host>)
    requires Accepted(cfg, chain, hosts)
    ensures NoDuplicates(Keys(chain))
    ensures cfg.maxRedirects > 0 ==> |chain| <= cfg.maxRedirects
  {
    hide Key;
    forall i, j | 0 <= i < j < |chain| ensures Keys(chain)[i] != Keys(chain)[j] {
      assert !Visited(chain[..j], chain[j]);
      assert chain[..j][i] == chain[i];
    }
    if |chain| > 1 {
      assert Verdict(cfg, chain[..|chain| - 1], chain[|chain| - 1], hosts[|chain| - 1]) == None;
    }
  }

  /** On a site with finitely many canonical URLs the loop check alone bounds every chain. */
  lemma FiniteSiteBoundsChain(cfg: Config, chain: seq<URL>, hosts: seq<IpPolicy.Host>, site: set<Bytes>)
    requires Accepted(cfg, chain, hosts) && forall i :: 0 <= i < |chain| ==> Key(chain[i]) in site
    ensures |chain| <= |site|
  {
    hide Key;
    ChainNeverRepeats(cfg, chain, hosts);
    FitsIn(Keys(chain), site);
  }

  ghost predicate AllScheme(urls: seq<URL>, scheme: Bytes) {
    forall i :: 0 <= i < |urls| ==> urls[i].scheme == scheme
  }

  /** With downgrades refused, an accepted chain is some http requests followed by https only. */
  lemma {:induction false} ChainOnlyUpgrades(cfg: Config, chain: seq<URL>, hosts: seq<IpPolicy.Host>) returns (k: nat)
    requires Accepted(cfg, chain, hosts) && !cfg.allowDowngrade
    requires forall i :: 0 <= i < |chain| ==> chain[i].scheme == HTTP || chain[i].scheme == HTTPS
    ensures k <= |chain| && AllScheme(chain[..k], HTTP) && AllScheme(chain[k..], HTTPS)
  {
    hide Visited;
    var n := |chain| - 1;
    if n == 0 {
      k := if chain[0].scheme == HTTP then 1 else 0;
    } else {
      AcceptedPrefix(cfg, chain, hosts);
      k := ChainOnlyUpgrades(cfg, chain[..n], hosts[..n]);
      k := UpgradeStep(chain, k);
    }
  }

  lemma AcceptedPrefix(cfg: Config, chain: seq<URL>, hosts: seq<IpPolicy.Host>)
    requires Accepted(cfg, chain, hosts) && |chain| > 1
    ensures Accepted(cfg, chain[..|chain| - 1], hosts[..|chain| - 1])
    ensures !cfg.allowDowngrade ==> !Downgrades(chain[..|chain| - 1], chain[|chain| - 1])
  {
    hide Visited;
    var n := |chain| - 1;
    assert forall i :: 0 < i < n ==> chain[..n][..i] == chain[..i];
    assert Verdict(cfg, chain[..n], chain[n], hosts[n]) == None;
  }

  lemma UpgradeStep(chain: seq<URL>, j: nat) returns (k: nat)
    requires |chain| > 1 && j <= |chain| - 1
    requires AllScheme(chain[..|chain| - 1][..j], HTTP) && AllScheme(chain[..|chain| - 1][j..], HTTPS)
    requires !Downgrades(chain[..|chain| - 1], chain[|chain| - 1])
    requires chain[|chain| - 1].scheme == HTTP || chain[|chain| - 1].scheme == HTTPS
    ensures k <= |chain| && AllScheme(chain[..k], HTTP) && AllScheme(chain[k..], HTTPS)
  {
    var n := |chain| - 1;
    k := if j == n && chain[n].scheme == HTTP then n + 1 else j;
    assert chain[..j] == chain[..n][..j] && chain[j..] == chain[..n][j..] + [chain[n]];
    if j == n {
      assert chain[..n + 1] == chain[..n] + [chain[n]] && chain[n + 1..] == [];
    } else {
      assert chain[..n][j..][n - 1 - j] == chain[n - 1];
    }
  }

  /** What checkIPPolicy makes of a URL: an address when its host parses as one, else the answer of a
      lookup. */
  function HostOf(parseIP: Bytes -> Option<Bytes>, u: URL, lookup: IpPolicy.Lookup): IpPolicy.Host {
    var ip := parseIP(u.host);
    if ip.Some? then IpPolicy.Literal(ip.value) else IpPolicy.Name(lookup)
  }

  function HostsOf(parseIP: Bytes -> Option<Bytes>, chain: seq<URL>, lookups: seq<IpPolicy.Lookup>)
    : (hosts: seq<IpPolicy.Host>)
    requires |lookups| == |chain|
    ensures |hosts| == |chain| && forall i :: 0 <= i < |chain| ==> hosts[i] == HostOf(parseIP, chain[i], lookups[i])
  {
    seq(|chain|, i requires 0 <= i < |chain| => HostOf(parseIP, chain[i], lookups[i]))
  }

  /** Unless private targets are allowed or the policy sits in the dialer, every redirect target of an
      accepted chain is public: the address its host is, or every address its host resolved to, of
      which there is at least one. */
  lemma {:induction false} ChainStaysPublic(
    cfg: Config, chain: seq<URL>, parseIP: Bytes -> Option<Bytes>, lookups: seq<IpPolicy.Lookup>, i: nat)
    requires |lookups| == |chain| && Accepted(cfg, chain, HostsOf(parseIP, chain, lookups))
    requires !cfg.allowPrivate && !cfg.ipPolicyAtDial && 0 < i < |chain|
    ensures parseIP(chain[i].host).Some? ==> IpPolicy.Public(parseIP(chain[i].host).value)
    ensures parseIP(chain[i].host).None? ==>
              && lookups[i].Answer? && |lookups[i].ips| > 0
              && forall k :: 0 <= k < |lookups[i].ips| ==>
                   lookups[i].ips[k].Some? && IpPolicy.Public(lookups[i].ips[k].value)
  {
    assert Verdict(cfg, chain[..i], chain[i], HostsOf(parseIP, chain, lookups)[i]) == None;
    hide Verdict, IpPolicy.Permits, IpPolicy.Public;
    IpPolicy.PermittedHostIsPublic(HostOf(parseIP, chain[i], lookups[i]));
  }
}
