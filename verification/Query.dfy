/** Query strings: the form encoding, its parser, and the canonical form of canonicalizeQuery.

    The encoding is Go's variant of application/x-www-form-urlencoded (section 5 of the WHATWG URL
    Standard).  Strings are byte strings. */
module Query {
  import opened Octets
  import opened Pigeonhole
  import opened Sorting

  const AMP: Byte := 38
  const EQ: Byte := 61
  const SEMI: Byte := 59
  const PERCENT: Byte := 37
  const PLUS: Byte := 43
  const SPACE: Byte := 32

  datatype Pair = Pair(key: Bytes, value: Bytes)

  // ----- Escaping

  /** Letters, digits, '-', '_', '.' and '~'. */
  predicate Unreserved(c: Byte) {
    || 65 <= c <= 90 || 97 <= c <= 122 || 48 <= c <= 57
    || c == 45 || c == 95 || c == 46 || c == 126
  }

  function HexDigit(n: int): Byte
    requires 0 <= n < 16
  {
    if n < 10 then 48 + n else 55 + n
  }

  function HexValue(c: Byte): Option<Byte> {
    if 48 <= c <= 57 then Some(c - 48)
    else if 65 <= c <= 70 then Some(c - 55)
    else if 97 <= c <= 102 then Some(c - 87)
    else None
  }

  function EscapeByte(c: Byte): Bytes {
    if c == SPACE then [PLUS]
    else if Unreserved(c) then [c]
    else [PERCENT, HexDigit(c / 16), HexDigit(c % 16)]
  }

  /** url.QueryEscape */
  function Escape(s: Bytes): Bytes {
    if s == [] then [] else EscapeByte(s[0]) + Escape(s[1..])
  }

  function Prepend(c: Byte, rest: Option<Bytes>): Option<Bytes> {
    if rest.Some? then Some([c] + rest.value) else None
  }

  /** The byte written as two hexadecimal digits. */
  function HexPair(hi: Byte, lo: Byte): Option<Byte> {
    if HexValue(hi).Some? && HexValue(lo).Some? && HexValue(hi).value < 16 && HexValue(lo).value < 16 then
      Some(16 * HexValue(hi).value + HexValue(lo).value)
    else None
  }

  /** url.QueryUnescape */
  function Unescape(s: Bytes): Option<Bytes>
    decreases |s|
  {
    if s == [] then Some([])
    else if s[0] == PERCENT then
      if |s| < 3 || HexPair(s[1], s[2]).None? then None
      else Prepend(HexPair(s[1], s[2]).value, Unescape(s[3..]))
    else Prepend(if s[0] == PLUS then SPACE else s[0], Unescape(s[1..]))
  }

  lemma UnescapeByte(c: Byte, t: Bytes)
    ensures Unescape(EscapeByte(c) + t) == Prepend(c, Unescape(t))
  {
    var s := EscapeByte(c) + t;
    if c == SPACE || Unreserved(c) {
      assert s[1..] == t;
    } else {
      assert s[3..] == t;
      assert HexPair(s[1], s[2]) == Some(c);
    }
  }

  lemma {:induction false} UnescapeEscape(s: Bytes)
    ensures Unescape(Escape(s)) == Some(s)
  {
    if s != [] {
      UnescapeEscape(s[1..]);
      UnescapeByte(s[0], Escape(s[1..]));
      assert Escape(s) == EscapeByte(s[0]) + Escape(s[1..]);
      hide Unescape, Escape, EscapeByte;
      assert s == [s[0]] + s[1..];
    }
  }

  /** What escaping produces never collides with the syntax around it. */
  lemma {:induction false} EscapeIsClean(s: Bytes)
    ensures AMP !in Escape(s) && EQ !in Escape(s) && SEMI !in Escape(s)
  {
    if s != [] {
      EscapeIsClean(s[1..]);
      assert forall c :: c in EscapeByte(s[0]) ==> c !in {AMP, EQ, SEMI};
    }
  }

  // ----- Parsing

  /** The position of the first c, or the length. */
  function Index(s: Bytes, c: Byte): (i: nat)
    ensures i <= |s| && c !in s[..i] && (i < |s| ==> s[i] == c)
  {
    if s == [] || s[0] == c then 0
    else
      var i := 1 + Index(s[1..], c);
      assert s[..i] == [s[0]] + s[1..][..i - 1];
      i
  }

  function After(s: Bytes, i: nat): Bytes {
    if i < |s| then s[i + 1..] else []
  }

  lemma {:induction false} IndexOfConcat(a: Bytes, c: Byte, b: Bytes)
    requires c !in a
    ensures Index(a + [c] + b, c) == |a| && Index(a, c) == |a|
    ensures (a + [c] + b)[..|a|] == a && After(a + [c] + b, |a|) == b
  {
    if a != [] {
      IndexOfConcat(a[1..], c, b);
      assert (a + [c] + b)[1..] == a[1..] + [c] + b;
    }
  }

  datatype Segment = Skipped | Malformed | Parsed(pair: Pair)

  /** One segment between two '&': ';' is an error, nothing is skipped, the first '=' splits. */
  function ParseSegment(seg: Bytes): Segment {
    if SEMI in seg then Malformed
    else if seg == [] then Skipped
    else
      var i := Index(seg, EQ);
      var key, value := Unescape(seg[..i]), Unescape(After(seg, i));
      if key.None? || value.None? then Malformed else Parsed(Pair(key.value, value.value))
  }

  function Join(s: Segment, rest: Option<seq<Pair>>): Option<seq<Pair>> {
    if s.Malformed? || rest.None? then None
    else if s.Skipped? then rest
    else Some([s.pair] + rest.value)
  }

  /** url.ParseQuery: the pairs in order, or None if any segment is malformed. */
  function Parse(q: Bytes): Option<seq<Pair>>
    decreases |q|
  {
    if q == [] then Some([])
    else
      var i := Index(q, AMP);
      Join(ParseSegment(q[..i]), Parse(After(q, i)))
  }

  // ----- Printing

  function EncodePair(p: Pair): Bytes {
    Escape(p.key) + [EQ] + Escape(p.value)
  }

  function Encode(ps: seq<Pair>): Bytes {
    if ps == [] then []
    else if |ps| == 1 then EncodePair(ps[0])
    else EncodePair(ps[0]) + [AMP] + Encode(ps[1..])
  }

  lemma SegmentOfPair(p: Pair)
    ensures ParseSegment(EncodePair(p)) == Parsed(p) && AMP !in EncodePair(p)
  {
    EscapeIsClean(p.key);
    EscapeIsClean(p.value);
    UnescapeEscape(p.key);
    UnescapeEscape(p.value);
    IndexOfConcat(Escape(p.key), EQ, Escape(p.value));
  }

  lemma ParseLast(e: Bytes, p: Pair)
    requires ParseSegment(e) == Parsed(p) && AMP !in e
    ensures Parse(e) == Some([p])
  {
    IndexOfConcat(e, AMP, []);
    assert Parse([]) == Some([]) && e != [];
    assert e[..|e|] == e && After(e, |e|) == [];
    assert [p] + [] == [p];
  }

  lemma ParseFirst(e: Bytes, rest: Bytes)
    requires AMP !in e
    ensures Parse(e + [AMP] + rest) == Join(ParseSegment(e), Parse(rest))
  {
    IndexOfConcat(e, AMP, rest);
  }

  lemma ParseMore(e: Bytes, p: Pair, rest: Bytes, ps: seq<Pair>)
    requires ParseSegment(e) == Parsed(p) && AMP !in e && Parse(rest) == Some(ps)
    ensures Parse(e + [AMP] + rest) == Some([p] + ps)
  {
    hide Parse, ParseSegment;
    ParseFirst(e, rest);
  }

  /** Printing any list of pairs and parsing it back gives the list, in order. */
  lemma {:induction false} ParseEncode(ps: seq<Pair>)
    ensures Parse(Encode(ps)) == Some(ps)
  {
    hide EncodePair, ParseSegment, Index, After, Join, Unescape;
    if ps != [] {
      var e, rest := EncodePair(ps[0]), Encode(ps[1..]);
      SegmentOfPair(ps[0]);
      ParseEncode(ps[1..]);
      assert Encode(ps) == if |ps| == 1 then e else e + [AMP] + rest;
      hide Parse, Encode;
      if |ps| == 1 {
        ParseLast(e, ps[0]);
        assert [ps[0]] == ps;
      } else {
        assert [ps[0]] + ps[1..] == ps;
        ParseMore(e, ps[0], rest, ps[1..]);
      }
    }
  }

  lemma {:induction false} EncodeSnoc(ps: seq<Pair>, p: Pair)
    ensures Encode(ps + [p]) == Encode(ps) + (if ps == [] then [] else [AMP]) + EncodePair(p)
  {
    hide EncodePair;
    if ps == [] {
      assert ps + [p] == [p];
    } else {
      EncodeSnoc(ps[1..], p);
      var longer := ps + [p];
      assert longer[1..] == ps[1..] + [p] && longer[0] == ps[0];
      assert Encode(longer) == EncodePair(ps[0]) + [AMP] + Encode(longer[1..]);
      assert Encode(ps) == EncodePair(ps[0]) + (if |ps| == 1 then [] else [AMP] + Encode(ps[1..]));
      assert |ps| == 1 ==> Encode(ps[1..]) == [];
      hide Encode;
    }
  }

  // ----- The orders

  /** Byte-wise lexical order, the order of sort.Strings. */
  predicate LexLe(a: Bytes, b: Bytes) {
    a == [] || (b != [] && (a[0] < b[0] || (a[0] == b[0] && LexLe(a[1..], b[1..]))))
  }

  /** By key, then by value. */
  predicate PairLe(p: Pair, q: Pair) {
    if p.key == q.key then LexLe(p.value, q.value) else LexLe(p.key, q.key)
  }

  lemma {:induction false} LexTotal(a: Bytes, b: Bytes)
    ensures LexLe(a, b) || LexLe(b, a)
    ensures LexLe(a, b) && LexLe(b, a) ==> a == b
  {
    if a != [] && b != [] {
      LexTotal(a[1..], b[1..]);
      assert a == [a[0]] + a[1..] && b == [b[0]] + b[1..];
    }
  }

  lemma {:induction false} LexTransitive(a: Bytes, b: Bytes, c: Bytes)
    requires LexLe(a, b) && LexLe(b, c)
    ensures LexLe(a, c)
  {
    if a != [] && b != [] && c != [] && a[0] == b[0] == c[0] {
      LexTransitive(a[1..], b[1..], c[1..]);
    }
  }

  lemma LexOrder()
    ensures TotalOrder(LexLe)
  {
    forall a, b ensures (LexLe(a, b) || LexLe(b, a)) && (LexLe(a, b) && LexLe(b, a) ==> a == b) {
      LexTotal(a, b);
    }
    forall a, b, c | LexLe(a, b) && LexLe(b, c) ensures LexLe(a, c) {
      LexTransitive(a, b, c);
    }
  }

  lemma PairTransitive(p: Pair, q: Pair, r: Pair)
    requires PairLe(p, q) && PairLe(q, r)
    ensures PairLe(p, r)
  {
    if p.key == q.key && q.key == r.key {
      LexTransitive(p.value, q.value, r.value);
    } else if p.key != q.key && q.key != r.key {
      LexTransitive(p.key, q.key, r.key);
      LexTotal(p.key, q.key);
    }
  }

  lemma PairOrder()
    ensures TotalOrder(PairLe)
  {
    forall p, q ensures (PairLe(p, q) || PairLe(q, p)) && (PairLe(p, q) && PairLe(q, p) ==> p == q) {
      LexTotal(p.key, q.key);
      LexTotal(p.value, q.value);
    }
    forall p, q, r | PairLe(p, q) && PairLe(q, r) ensures PairLe(p, r) {
      PairTransitive(p, q, r);
    }
  }

  // ----- The canonical form

  /** The specification: parse, sort the pairs, print; what does not parse stays as it is. */
  function Canonical(raw: Bytes): Bytes {
    var pairs := Parse(raw);
    if pairs.None? then raw else Encode(Sort(pairs.value, PairLe))
  }

  lemma {:induction false} CanonicalParses(raw: Bytes)
    requires Parse(raw).Some?
    ensures Parse(Canonical(raw)) == Some(Sort(Parse(raw).value, PairLe))
    ensures multiset(Sort(Parse(raw).value, PairLe)) == multiset(Parse(raw).value)
  {
    ParseEncode(Sort(Parse(raw).value, PairLe));
    PairOrder();
    SortSorts(Parse(raw).value, PairLe);
  }

  /** Parsing the canonical form gives back the parameters of the query, each as often as it occurred. */
  lemma {:induction false} CanonicalKeepsParameters(raw: Bytes)
    requires Parse(raw).Some?
    ensures Parse(Canonical(raw)).Some?
    ensures multiset(Parse(Canonical(raw)).value) == multiset(Parse(raw).value)
  {
    CanonicalParses(raw);
  }

  /** The canonical form is a complete invariant: queries that parse get the same string iff they hold
      the same parameters; a query that does not parse shares its string with no other. */
  lemma {:induction false} CanonicalIsComplete(a: Bytes, b: Bytes)
    ensures Canonical(a) == Canonical(b) <==>
              if Parse(a).Some? && Parse(b).Some? then multiset(Parse(a).value) == multiset(Parse(b).value) else a == b
  {
    if Parse(a).Some? && Parse(b).Some? {
      CanonicalParses(a);
      CanonicalParses(b);
      if multiset(Parse(a).value) == multiset(Parse(b).value) {
        PairOrder();
        SortSorts(Parse(a).value, PairLe);
        SortSorts(Parse(b).value, PairLe);
        SortedUnique(Sort(Parse(a).value, PairLe), Sort(Parse(b).value, PairLe), PairLe);
      }
    } else if Parse(a).Some? {
      CanonicalParses(a);
    } else if Parse(b).Some? {
      CanonicalParses(b);
    }
  }

  lemma {:induction false} CanonicalIsIdempotent(raw: Bytes)
    ensures Canonical(Canonical(raw)) == Canonical(raw)
  {
    if Parse(raw).Some? {
      CanonicalKeepsParameters(raw);
      CanonicalIsComplete(Canonical(raw), raw);
    }
  }

  // ----- What text means, as a server or a user may write it

  /** 0-9, A-F and a-f. */
  predicate IsHex(c: Byte) {
    48 <= c <= 57 || 65 <= c <= 70 || 97 <= c <= 102
  }

  const UPPER_HEX: Bytes := [48, 49, 50, 51, 52, 53, 54, 55, 56, 57, 65, 66, 67, 68, 69, 70]
  const LOWER_HEX: Bytes := [48, 49, 50, 51, 52, 53, 54, 55, 56, 57, 97, 98, 99, 100, 101, 102]

  /** The same value in digits of either case. */
  predicate IsDigitOf(c: Byte, v: nat) {
    v < 16 && (c == UPPER_HEX[v] || c == LOWER_HEX[v])
  }

  lemma HexValueIff(c: Byte, v: nat)
    ensures HexValue(c) == Some(v) <==> IsDigitOf(c, v)
    ensures HexValue(c).Some? <==> IsHex(c)
  {
  }

  /** An escape, in digits of either case, reads as its byte; '+' and the escape 20 read as a space; any
      byte but '%' and '+' reads as itself. */
  lemma Reads(c: Byte, hi: Byte, lo: Byte, v: nat, w: nat, t: Bytes)
    ensures IsDigitOf(hi, v) && IsDigitOf(lo, w) ==>
              16 * v + w < 256 && Unescape([37, hi, lo] + t) == Prepend(16 * v + w, Unescape(t))
    ensures Unescape([43] + t) == Prepend(32, Unescape(t)) == Unescape([37, 50, 48] + t)
    ensures c != 37 && c != 43 ==> Unescape([c] + t) == Prepend(c, Unescape(t))
  {
    HexValueIff(hi, v);
    HexValueIff(lo, w);
    assert ([37, hi, lo] + t)[3..] == t && ([43] + t)[1..] == t && ([c] + t)[1..] == t;
    assert ([37, 50, 48] + t)[3..] == t && HexPair(50, 48) == Some(32);
    hide HexValue;
  }

  /** Every '%' starts two hexadecimal digits. */
  ghost predicate EscapesOk(s: Bytes) {
    forall i :: 0 <= i < |s| && s[i] == 37 ==> i + 2 < |s| && IsHex(s[i + 1]) && IsHex(s[i + 2])
  }

  /** Text can be unescaped iff every '%' in it is followed by two hexadecimal digits. */
  lemma {:induction false} UnescapesIff(s: Bytes)
    ensures Unescape(s).Some? <==> EscapesOk(s)
    decreases |s|
  {
    if s == [] {
    } else if s[0] == PERCENT {
      if |s| >= 3 {
        HexPairIff(s[1], s[2]);
        UnescapesIff(s[3..]);
        EscapeOkFirst(s);
        hide HexPair;
      }
    } else {
      UnescapesIff(s[1..]);
      EscapesOkRest(s);
    }
  }

  lemma HexPairIff(hi: Byte, lo: Byte)
    ensures HexPair(hi, lo).Some? <==> IsHex(hi) && IsHex(lo)
  {
  }

  lemma EscapeOkFirst(s: Bytes)
    requires |s| >= 3 && s[0] == 37
    ensures EscapesOk(s) <==> IsHex(s[1]) && IsHex(s[2]) && EscapesOk(s[3..])
  {
    var t := s[3..];
    assert forall i :: 3 <= i < |s| ==> s[i] == t[i - 3];
    if IsHex(s[1]) && IsHex(s[2]) && EscapesOk(t) {
      forall i | 0 <= i < |s| && s[i] == 37 ensures i + 2 < |s| && IsHex(s[i + 1]) && IsHex(s[i + 2]) {
        assert i >= 3 ==> t[i - 3] == 37;
      }
    }
    if EscapesOk(s) {
      forall i | 0 <= i < |t| && t[i] == 37 ensures i + 2 < |t| && IsHex(t[i + 1]) && IsHex(t[i + 2]) {
        assert s[i + 3] == 37;
      }
    }
  }

  lemma EscapesOkRest(s: Bytes)
    requires s != [] && s[0] != 37
    ensures EscapesOk(s) <==> EscapesOk(s[1..])
  {
    var t := s[1..];
    assert forall i :: 1 <= i < |s| ==> s[i] == t[i - 1];
    if EscapesOk(t) {
      forall i | 0 <= i < |s| && s[i] == 37 ensures i + 2 < |s| && IsHex(s[i + 1]) && IsHex(s[i + 2]) {
        assert t[i - 1] == 37;
      }
    }
    if EscapesOk(s) {
      forall i | 0 <= i < |t| && t[i] == 37 ensures i + 2 < |t| && IsHex(t[i + 1]) && IsHex(t[i + 2]) {
        assert s[i + 1] == 37;
      }
    }
  }

  // ----- The case of the digits

  /** One hexadecimal digit in two cases. */
  predicate SameDigit(a: Byte, b: Byte) {
    a == b || (65 <= a <= 70 && b == a + 32) || (65 <= b <= 70 && a == b + 32)
  }

  /** Position i of s is a digit of an escape. */
  predicate InEscape(s: Bytes, i: nat)
    requires i < |s|
  {
    (i >= 1 && s[i - 1] == 37) || (i >= 2 && s[i - 2] == 37 && IsHex(s[i - 1]))
  }

  /** The same text but for the case of digits of escapes. */
  ghost predicate CaseVariants(a: Bytes, b: Bytes) {
    && |a| == |b|
    && forall i: nat :: i < |a| ==> a[i] == b[i] || (InEscape(a, i) && SameDigit(a[i], b[i]))
  }

  lemma {:induction false} UnescapeIgnoresCase(a: Bytes, b: Bytes)
    requires CaseVariants(a, b)
    ensures Unescape(a) == Unescape(b)
    decreases |a|
  {
    if a == [] {
    } else if a[0] == PERCENT {
      if |a| >= 3 && HexPair(a[1], a[2]).Some? {
        HexPairIff(a[1], a[2]);
        assert a[0] == b[0] && SameDigit(a[1], b[1]) && SameDigit(a[2], b[2]);
        DigitsIgnoreCase(a[1], a[2], b[1], b[2]);
        VariantTail(a, b, 3);
        UnescapeIgnoresCase(a[3..], b[3..]);
        hide HexPair, CaseVariants;
      } else if |a| >= 3 {
        assert a[0] == b[0] && SameDigit(a[1], b[1]) && SameDigit(a[2], b[2]);
        DigitsIgnoreCase(a[1], a[2], b[1], b[2]);
      } else {
        assert a[0] == b[0];
      }
    } else {
      assert a[0] == b[0];
      VariantTail(a, b, 1);
      UnescapeIgnoresCase(a[1..], b[1..]);
      hide CaseVariants;
    }
  }

  lemma DigitsIgnoreCase(hi: Byte, lo: Byte, hi': Byte, lo': Byte)
    requires SameDigit(hi, hi') && SameDigit(lo, lo')
    ensures HexPair(hi, lo) == HexPair(hi', lo')
  {
  }

  /** Behind a position no escape reaches across, the rest is a variant of the rest. */
  lemma VariantTail(a: Bytes, b: Bytes, k: nat)
    requires CaseVariants(a, b) && 1 <= k <= |a| && a[k - 1] != 37
    requires k >= 2 && a[k - 2] == 37 ==> !IsHex(a[k - 1])
    ensures CaseVariants(a[k..], b[k..])
  {
    var s, t := a[k..], b[k..];
    forall i: nat | i < |s| ensures s[i] == t[i] || (InEscape(s, i) && SameDigit(s[i], t[i])) {
      assert s[i] == a[k + i] && t[i] == b[k + i];
      assert i >= 1 ==> s[i - 1] == a[k + i - 1];
      assert i >= 2 ==> s[i - 2] == a[k + i - 2];
    }
  }

  lemma VariantIndex(a: Bytes, b: Bytes, c: Byte)
    requires CaseVariants(a, b) && !IsHex(c)
    ensures |a| == |b| && Index(a, c) == Index(b, c) && (c in a <==> c in b)
  {
    var i, j := Index(a, c), Index(b, c);
    assert forall k: nat :: k < |a| ==> (a[k] == c <==> b[k] == c);
    assert forall k :: 0 <= k < i ==> a[..i][k] != c;
    assert forall k :: 0 <= k < j ==> b[..j][k] != c;
  }

  lemma VariantParts(a: Bytes, b: Bytes, c: Byte)
    requires CaseVariants(a, b) && !IsHex(c) && c != 37
    ensures var i := Index(a, c);
      i == Index(b, c) <= |b| == |a| && CaseVariants(a[..i], b[..i]) && CaseVariants(After(a, i), After(b, i))
  {
    hide CaseVariants, InEscape;
    VariantIndex(a, b, c);
    var i := Index(a, c);
    VariantPrefix(a, b, i);
    if i < |a| {
      VariantTail(a, b, i + 1);
    } else {
      NothingVaries();
    }
  }

  lemma NothingVaries()
    ensures CaseVariants([], [])
  {
  }

  lemma VariantPrefix(a: Bytes, b: Bytes, n: nat)
    requires CaseVariants(a, b) && n <= |a|
    ensures CaseVariants(a[..n], b[..n])
  {
    var s, t := a[..n], b[..n];
    forall i: nat | i < |s| ensures s[i] == t[i] || (InEscape(s, i) && SameDigit(s[i], t[i])) {
      assert s[i] == a[i] && t[i] == b[i];
    }
  }

  lemma SegmentIgnoresCase(a: Bytes, b: Bytes)
    requires CaseVariants(a, b)
    ensures ParseSegment(a) == ParseSegment(b)
  {
    VariantIndex(a, b, SEMI);
    VariantParts(a, b, EQ);
    var i := Index(a, EQ);
    UnescapeIgnoresCase(a[..i], b[..i]);
    UnescapeIgnoresCase(After(a, i), After(b, i));
    assert |a| == |b|;
    hide CaseVariants, Unescape, After;
  }

  /** The case of the digits of escapes never matters. */
  lemma {:induction false} ParseIgnoresCase(a: Bytes, b: Bytes)
    requires CaseVariants(a, b)
    ensures Parse(a) == Parse(b)
    decreases |a|
  {
    assert |a| == |b|;
    if a != [] {
      var i := Index(a, AMP);
      VariantParts(a, b, AMP);
      SegmentIgnoresCase(a[..i], b[..i]);
      ParseIgnoresCase(After(a, i), After(b, i));
      hide CaseVariants, ParseSegment;
    }
  }

  lemma CanonicalIgnoresCase(a: Bytes, b: Bytes)
    requires CaseVariants(a, b) && Parse(a).Some?
    ensures Canonical(a) == Canonical(b)
  {
    ParseIgnoresCase(a, b);
  }

  // ----- The segments

  function Both(p: Option<seq<Pair>>, q: Option<seq<Pair>>): Option<seq<Pair>> {
    if p.Some? && q.Some? then Some(p.value + q.value) else None
  }

  /** An '&' separates: the pairs are those of the text before it, then those of the text after it. */
  lemma {:induction false} ParseConcat(a: Bytes, b: Bytes)
    ensures Parse(a + [38] + b) == Both(Parse(a), Parse(b))
    decreases |a|
  {
    var i := Index(a, AMP);
    assert a[..|a|] == a && Parse([]) == Some([]) && ParseSegment([]) == Skipped;
    if i == |a| {
      if a != [] {
        WholeSegment(a);
      }
      hide Parse, ParseSegment;
      ParseFirst(a, b);
      JoinBoth(ParseSegment(a), Some([]), Parse(b));
    } else {
      var head, rest := a[..i], After(a, i);
      assert a == head + [AMP] + rest && a + [AMP] + b == head + [AMP] + (rest + [AMP] + b);
      ParseConcat(rest, b);
      hide Parse, ParseSegment;
      ParseFirst(head, rest);
      ParseFirst(head, rest + [AMP] + b);
      JoinBoth(ParseSegment(head), Parse(rest), Parse(b));
    }
  }

  lemma JoinBoth(s: Segment, p: Option<seq<Pair>>, q: Option<seq<Pair>>)
    ensures Join(s, Both(p, q)) == Both(Join(s, p), q)
    ensures p == Some([]) ==> Both(p, q) == q
  {
    if s.Parsed? && p.Some? && q.Some? {
      assert [s.pair] + (p.value + q.value) == [s.pair] + p.value + q.value;
    }
    if p == Some([]) && q.Some? {
      assert [] + q.value == q.value;
    }
  }

  /** A leading, trailing or doubled '&' changes nothing. */
  lemma {:induction false} EmptySegmentsDoNotMatter(a: Bytes, b: Bytes)
    ensures Parse([38] + a) == Parse(a) == Parse(a + [38])
    ensures Parse(a + [38, 38] + b) == Parse(a + [38] + b)
  {
    assert Parse([]) == Some([]);
    assert [] + [38] + a == [38] + a && a + [38] + [] == a + [38];
    assert (a + [38]) + [38] + b == a + [38, 38] + b;
    hide Parse;
    ParseConcat([], a);
    ParseConcat(a, []);
    ParseConcat(a + [38], b);
    ParseConcat(a, b);
    BothNothing(Parse(a));
  }

  lemma BothNothing(p: Option<seq<Pair>>)
    ensures Both(Some([]), p) == p == Both(p, Some([]))
  {
    if p.Some? {
      assert [] + p.value == p.value == p.value + [];
    }
  }

  /** Any ';' makes a query unparseable. */
  lemma {:induction false} SemicolonIsAnError(q: Bytes)
    requires 59 in q
    ensures Parse(q).None?
    decreases |q|
  {
    var i := Index(q, AMP);
    if SEMI !in q[..i] {
      assert i < |q|;
      assert q == q[..i] + [AMP] + After(q, i);
      SemicolonIsAnError(After(q, i));
    }
  }

  /** In one segment everything after the first '=' is the value, further '=' included; without '=' the
      value is empty. */
  lemma {:induction false} SegmentMeaning(key: Bytes, value: Bytes)
    requires 38 !in key && 38 !in value && 59 !in key && 59 !in value && 61 !in key
    ensures Parse(key + [61] + value) == OnePair(Unescape(key), Unescape(value))
    ensures key != [] ==> Parse(key) == OnePair(Unescape(key), Some([]))
  {
    var text := key + [EQ] + value;
    assert AMP !in text && SEMI !in text;
    IndexOfConcat(key, EQ, value);
    WholeSegment(text);
    assert key[..|key|] == key && Unescape(After(key, |key|)) == Some([]);
    if key != [] {
      WholeSegment(key);
    }
    hide Unescape, Parse, Index;
    assert forall p: Pair :: [p] + [] == [p];
  }

  function OnePair(key: Option<Bytes>, value: Option<Bytes>): Option<seq<Pair>> {
    if key.Some? && value.Some? then Some([Pair(key.value, value.value)]) else None
  }

  lemma WholeSegment(text: Bytes)
    requires AMP !in text && text != []
    ensures Parse(text) == Join(ParseSegment(text), Some([]))
  {
    IndexOfConcat(text, AMP, []);
    assert text[..|text|] == text && Parse(After(text, |text|)) == Some([]);
  }

  // ----- The text that is printed

  /** A letter, a digit, or one of "-_.~". */
  predicate PrintedAsIs(c: Byte) {
    var x := c as char;
    || 'A' <= x <= 'Z' || 'a' <= x <= 'z' || '0' <= x <= '9' || x == '-' || x == '_' || x == '.' || x == '~'
  }

  predicate IsUpperHex(c: Byte) {
    '0' <= c as char <= '9' || 'A' <= c as char <= 'F'
  }

  /** Bytes that need no escape stand for themselves, '+' for a space, and every other byte is '%' and two
      upper-case digits. */
  predicate NormalText(e: Bytes)
    decreases |e|
  {
    || e == []
    || ((e[0] == 43 || PrintedAsIs(e[0])) && NormalText(e[1..]))
    || (|e| >= 3 && e[0] == 37 && IsUpperHex(e[1]) && IsUpperHex(e[2]) && NeedsEscape(e[1], e[2]) && NormalText(e[3..]))
  }

  predicate NeedsEscape(hi: Byte, lo: Byte) {
    var c := HexPair(hi, lo);
    c.Some? && c.value != 32 && !PrintedAsIs(c.value)
  }

  lemma PrintedByte(c: Byte, t: Bytes)
    requires NormalText(t)
    ensures NormalText(EscapeByte(c) + t)
  {
    var s := EscapeByte(c) + t;
    if c == SPACE || Unreserved(c) {
      assert s[1..] == t;
    } else {
      assert s[3..] == t;
      assert HexPair(s[1], s[2]) == Some(c);
    }
  }

  /** What is printed is in this form, and it is the only text in this form with its meaning. */
  lemma {:induction false} EscapeIsNormal(s: Bytes)
    ensures NormalText(Escape(s))
  {
    if s != [] {
      EscapeIsNormal(s[1..]);
      PrintedByte(s[0], Escape(s[1..]));
      hide NormalText;
    }
  }

  lemma ReadByte(e: Bytes) returns (c: Byte, t: Bytes)
    requires NormalText(e) && e != []
    ensures NormalText(t) && e == EscapeByte(c) + t && |t| < |e|
  {
    if e[0] == 43 {
      c, t := 32, e[1..];
    } else if PrintedAsIs(e[0]) {
      c, t := e[0], e[1..];
    } else {
      c, t := HexPair(e[1], e[2]).value, e[3..];
      UpperDigits(e[1], e[2]);
    }
  }

  lemma UpperDigits(hi: Byte, lo: Byte)
    requires IsUpperHex(hi) && IsUpperHex(lo)
    ensures HexPair(hi, lo).Some?
    ensures HexDigit(HexPair(hi, lo).value / 16) == hi && HexDigit(HexPair(hi, lo).value % 16) == lo
  {
  }

  lemma {:induction false} NormalIsEscape(e: Bytes)
    requires NormalText(e)
    ensures Unescape(e).Some? && Escape(Unescape(e).value) == e
    decreases |e|
  {
    if e != [] {
      var c, t := ReadByte(e);
      NormalIsEscape(t);
      UnescapeByte(c, t);
      var s := Unescape(t).value;
      assert ([c] + s)[0] == c && ([c] + s)[1..] == s;
      assert Escape([c] + s) == EscapeByte(c) + Escape(s);
      hide NormalText, Unescape, EscapeByte;
    }
  }

  /** The order is that of dictionaries: a prefix comes first, and otherwise the first difference
      decides. */
  lemma {:induction false} LexMeaning(a: Bytes, b: Bytes)
    ensures LexLe(a, b) <==> a <= b || exists i: nat :: FirstDifference(a, b, i) && a[i] < b[i]
  {
    if a != [] && b != [] {
      if a[0] == b[0] {
        LexMeaning(a[1..], b[1..]);
        SameFirst(a, b);
        hide FirstDifference;
      } else {
        assert FirstDifference(a, b, 0);
        assert forall i: nat :: FirstDifference(a, b, i) ==> i == 0;
      }
    }
  }

  lemma SameFirst(a: Bytes, b: Bytes)
    requires a != [] && b != [] && a[0] == b[0]
    ensures a <= b <==> a[1..] <= b[1..]
    ensures (exists i: nat :: FirstDifference(a, b, i) && a[i] < b[i])
            <==> exists i: nat :: FirstDifference(a[1..], b[1..], i) && a[1..][i] < b[1..][i]
  {
    var s, t := a[1..], b[1..];
    assert a == [a[0]] + s && b == [b[0]] + t;
    forall i: nat | FirstDifference(a, b, i) && a[i] < b[i] ensures i > 0 && FirstDifference(s, t, i - 1) && s[i - 1] < t[i - 1] {
      assert forall k :: 0 <= k < i - 1 ==> s[k] == a[k + 1] && t[k] == b[k + 1];
    }
    forall i: nat | FirstDifference(s, t, i) && s[i] < t[i] ensures FirstDifference(a, b, i + 1) && a[i + 1] < b[i + 1] {
      assert forall k :: 0 < k < i + 1 ==> a[k] == s[k - 1] && b[k] == t[k - 1];
    }
  }

  ghost predicate FirstDifference(a: Bytes, b: Bytes, i: nat) {
    i < |a| && i < |b| && a[i] != b[i] && forall k :: 0 <= k < i ==> a[k] == b[k]
  }

  /** The printed parameters come in the order of their keys, those of one key in the order of their
      values. */
  lemma {:induction false} CanonicalIsOrdered(raw: Bytes, i: nat, j: nat)
    requires Parse(raw).Some? && Parse(Canonical(raw)).Some? && i < j < |Parse(Canonical(raw)).value|
    ensures var p, q := Parse(Canonical(raw)).value[i], Parse(Canonical(raw)).value[j];
      if p.key == q.key then LexLe(p.value, q.value) else LexLe(p.key, q.key)
  {
    CanonicalParses(raw);
    PairOrder();
    SortSorts(Parse(raw).value, PairLe);
    hide Parse, Canonical, Sort, LexLe;
    assert PairLe(Parse(Canonical(raw)).value[i], Parse(Canonical(raw)).value[j]);
  }

  // ----- The code: a map of value lists, sorted keys, sorted values, one builder

  /** url.Values of a list of pairs. */
  function Values(ps: seq<Pair>): map<Bytes, seq<Bytes>> {
    if ps == [] then map[]
    else
      var vals, p := Values(ps[..|ps| - 1]), ps[|ps| - 1];
      vals[p.key := (if p.key in vals then vals[p.key] else []) + [p.value]]
  }

  /** The pairs of one key. */
  function Entries(key: Bytes, values: seq<Bytes>): seq<Pair> {
    seq(|values|, i requires 0 <= i < |values| => Pair(key, values[i]))
  }

  lemma {:induction false} EntriesCount(key: Bytes, values: seq<Bytes>, p: Pair)
    ensures multiset(Entries(key, values))[p] == if p.key == key then multiset(values)[p.value] else 0
  {
    if values != [] {
      var n := |values| - 1;
      EntriesCount(key, values[..n], p);
      assert Entries(key, values) == Entries(key, values[..n]) + [Pair(key, values[n])];
      assert values == values[..n] + [values[n]];
    }
  }

  lemma {:induction false} ValuesCount(ps: seq<Pair>, p: Pair)
    ensures multiset(ps)[p] == if p.key in Values(ps) then multiset(Values(ps)[p.key])[p.value] else 0
  {
    if ps != [] {
      ValuesCount(ps[..|ps| - 1], p);
      assert ps == ps[..|ps| - 1] + [ps[|ps| - 1]];
    }
  }

  /** The pairs printed so far: for each key, in order, its sorted values. */
  function Flatten(keys: seq<Bytes>, vals: map<Bytes, seq<Bytes>>): seq<Pair>
    requires forall k :: k in keys ==> k in vals
  {
    if keys == [] then []
    else
      var k := keys[|keys| - 1];
      Flatten(keys[..|keys| - 1], vals) + Entries(k, Sort(vals[k], LexLe))
  }

  lemma {:induction false} FlattenCount(keys: seq<Bytes>, vals: map<Bytes, seq<Bytes>>, p: Pair)
    requires (forall k :: k in keys ==> k in vals) && NoDuplicates(keys)
    ensures multiset(Flatten(keys, vals))[p] == if p.key in keys then multiset(vals[p.key])[p.value] else 0
  {
    if keys != [] {
      var n := |keys| - 1;
      FlattenCount(keys[..n], vals, p);
      LexOrder();
      SortSorts(vals[keys[n]], LexLe);
      EntriesCount(keys[n], Sort(vals[keys[n]], LexLe), p);
      hide LexLe, Sort, Entries, Sorted, TotalOrder;
    }
  }

  lemma {:induction false} FlattenSorted(keys: seq<Bytes>, vals: map<Bytes, seq<Bytes>>)
    requires (forall k :: k in keys ==> k in vals) && NoDuplicates(keys) && Sorted(keys, LexLe)
    ensures Sorted(Flatten(keys, vals), PairLe)
    ensures forall p :: p in Flatten(keys, vals) ==> p.key in keys
  {
    if keys != [] {
      var n := |keys| - 1;
      var k := keys[n];
      FlattenSorted(keys[..n], vals);
      LexOrder();
      SortSorts(vals[k], LexLe);
      var front, last := Flatten(keys[..n], vals), Entries(k, Sort(vals[k], LexLe));
      forall i, j | 0 <= i < |front| && 0 <= j < |last| ensures PairLe(front[i], last[j]) {
        assert front[i] in front;
        assert front[i].key in keys[..n];
      }
      SortedConcat(front, last, PairLe);
    }
  }

  /** The code's arrangement of the pairs is the sorted list of the pairs. */
  lemma FlattenIsSort(pairs: seq<Pair>, keys: seq<Bytes>)
    requires NoDuplicates(keys) && Sorted(keys, LexLe)
    requires forall k :: k in keys <==> k in Values(pairs)
    ensures Flatten(keys, Values(pairs)) == Sort(pairs, PairLe)
  {
    var flat := Flatten(keys, Values(pairs));
    forall p: Pair ensures multiset(flat)[p] == multiset(pairs)[p] {
      FlattenCount(keys, Values(pairs), p);
      ValuesCount(pairs, p);
    }
    assert multiset(flat) == multiset(pairs);
    FlattenSorted(keys, Values(pairs));
    PairOrder();
    SortSorts(pairs, PairLe);
    SortedUnique(flat, Sort(pairs, PairLe), PairLe);
  }

  /** The keys of a map in the order a range loop happens to visit them. */
  method Keys(vals: map<Bytes, seq<Bytes>>) returns (keys: seq<Bytes>)
    ensures NoDuplicates(keys) && forall k :: k in keys <==> k in vals
  {
    keys := [];
    var rest := vals.Keys;
    while rest != {}
      invariant rest <= vals.Keys && NoDuplicates(keys)
      invariant forall k :: k in keys <==> k in vals && k !in rest
      decreases |rest|
    {
      var k :| k in rest;
      keys := keys + [k];
      rest := rest - {k};
    }
  }

  lemma SortedKeys(keys: seq<Bytes>)
    requires NoDuplicates(keys)
    ensures NoDuplicates(Sort(keys, LexLe)) && Sorted(Sort(keys, LexLe), LexLe)
    ensures forall k :: k in Sort(keys, LexLe) <==> k in keys
  {
    LexOrder();
    SortSorts(keys, LexLe);
    var sorted := Sort(keys, LexLe);
    assert forall k :: k in sorted <==> k in multiset(sorted);
    assert forall k :: k in keys <==> k in multiset(keys);
    forall i, j | 0 <= i < j < |sorted| ensures sorted[i] != sorted[j] {
      if sorted[i] == sorted[j] {
        CountTwice(sorted, i, j);
        CountOnce(keys, sorted[i]);
      }
    }
  }

  lemma CountTwice(s: seq<Bytes>, i: nat, j: nat)
    requires i < j < |s| && s[i] == s[j]
    ensures multiset(s)[s[i]] >= 2
  {
    assert s == s[..j] + [s[j]] + s[j + 1..];
    assert s[..j][i] == s[j];
  }

  lemma {:induction false} CountOnce(s: seq<Bytes>, k: Bytes)
    requires NoDuplicates(s)
    ensures multiset(s)[k] <= 1
  {
    if s != [] {
      var n := |s| - 1;
      CountOnce(s[..n], k);
      assert s == s[..n] + [s[n]];
    }
  }

  /** The inner loop: the values of one key. */
  method WriteValues(key: Bytes, vs: seq<Bytes>, b0: Bytes, first0: bool, ghost printed: seq<Pair>)
    returns (b: Bytes, first: bool)
    requires b0 == Encode(printed) && (first0 <==> printed == [])
    ensures b == Encode(printed + Entries(key, vs)) && (first <==> printed + Entries(key, vs) == [])
  {
    hide Encode, Escape;
    b, first := b0, first0;
    var ek := Escape(key);
    ghost var entries := Entries(key, vs);
    assert printed + entries[..0] == printed;
    for j := 0 to |vs|
      invariant b == Encode(printed + entries[..j]) && (first <==> printed + entries[..j] == [])
    {
      EncodeSnoc(printed + entries[..j], entries[j]);
      assert printed + entries[..j] + [entries[j]] == printed + entries[..j + 1];
      if !first {
        b := b + [AMP];
      }
      first := false;
      b := b + ek + [EQ] + Escape(vs[j]);
    }
    assert entries[..|vs|] == entries;
  }

  /** canonicalizeQuery */
  method CanonicalizeQuery(raw: Bytes) returns (b: Bytes)
    ensures b == Canonical(raw)
  {
    hide Encode, Escape, Parse, Sorted, NoDuplicates, Values;
    var pairs := Parse(raw);
    if pairs.None? {
      return raw;
    }
    var vals := Values(pairs.value);
    var keys := Keys(vals);
    SortedKeys(keys);
    keys := Sort(keys, LexLe);
    b := [];
    EncodeNothing();
    var first := true;
    for i := 0 to |keys|
      invariant b == Encode(Flatten(keys[..i], vals)) && (first <==> Flatten(keys[..i], vals) == [])
    {
      assert keys[..i + 1][..i] == keys[..i];
      b, first := WriteValues(keys[i], Sort(vals[keys[i]], LexLe), b, first, Flatten(keys[..i], vals));
    }
    assert keys[..|keys|] == keys;
    FlattenIsSort(pairs.value, keys);
  }

  lemma EncodeNothing()
    ensures Encode([]) == []
  {
  }
}
