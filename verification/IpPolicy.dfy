/** The IP classifier isBlockedIP with the net.IP predicates it calls, and the numeric CIDR table that
    says what it blocks. */
module IpPolicy {
  import opened Octets
  import opened Arithmetic

  const V4_IN_V6: seq<Byte> := [0, 0, 0, 0, 0, 0, 0, 0, 0, 0, 255, 255]
  const WELL_KNOWN_NAT64: seq<Byte> := [0x00, 0x64, 0xff, 0x9b, 0, 0, 0, 0, 0, 0, 0, 0]
  const LOCAL_NAT64: seq<Byte> := [0x00, 0x64, 0xff, 0x9b, 0, 0x01]
  const V4_ZERO: seq<Byte> := V4_IN_V6 + [0, 0, 0, 0]
  const V6_UNSPECIFIED: seq<Byte> := [0, 0, 0, 0, 0, 0, 0, 0, 0, 0, 0, 0, 0, 0, 0, 0]
  const V6_LOOPBACK: seq<Byte> := [0, 0, 0, 0, 0, 0, 0, 0, 0, 0, 0, 0, 0, 0, 0, 1]

  // ----- net.IP

  function To4(ip: seq<Byte>): Option<seq<Byte>> {
    if |ip| == 4 then Some(ip)
    else if |ip| == 16 && ip[..12] == V4_IN_V6 then Some(ip[12..])
    else None
  }

  predicate SameIP(a: seq<Byte>, b: seq<Byte>) {
    || a == b
    || (|a| == 4 && |b| == 16 && b == V4_IN_V6 + a)
    || (|a| == 16 && |b| == 4 && a == V4_IN_V6 + b)
  }

  predicate IsLoopback(ip: seq<Byte>) {
    var v4 := To4(ip);
    if v4.Some? then |v4.value| == 4 && v4.value[0] == 127 else SameIP(ip, V6_LOOPBACK)
  }

  predicate IsLinkLocalUnicast(ip: seq<Byte>) {
    var v4 := To4(ip);
    if v4.Some? then |v4.value| == 4 && v4.value[0] == 169 && v4.value[1] == 254
    else |ip| == 16 && ip[0] == 0xfe && ip[1] / 64 == 2
  }

  predicate IsMulticast(ip: seq<Byte>) {
    var v4 := To4(ip);
    if v4.Some? then |v4.value| == 4 && v4.value[0] / 16 == 14 else |ip| == 16 && ip[0] == 0xff
  }

  predicate IsUnspecified(ip: seq<Byte>) {
    SameIP(ip, V4_ZERO) || SameIP(ip, V6_UNSPECIFIED)
  }

  predicate IsPrivate(ip: seq<Byte>) {
    var v4 := To4(ip);
    if v4.Some? then
      |v4.value| == 4 &&
      (v4.value[0] == 10 || (v4.value[0] == 172 && v4.value[1] / 16 == 1) || (v4.value[0] == 192 && v4.value[1] == 168))
    else |ip| == 16 && ip[0] / 2 == 126
  }

  // ----- The classifier

  /** None is the nil slice. */
  predicate IsBlocked(address: Option<seq<Byte>>) {
    match address
    case None => true
    case Some(ip) =>
      || IsLoopback(ip) || IsLinkLocalUnicast(ip) || IsMulticast(ip) || IsUnspecified(ip) || IsPrivate(ip)
      || (var v4 := To4(ip);
          if v4.Some? then |v4.value| == 4 && BlockedV4(v4.value) else BlockedV6(ip))
  }

  predicate BlockedV4(v4: seq<Byte>)
    requires |v4| == 4
  {
    v4[0] == 0 || v4 == [255, 255, 255, 255] || (v4[0] == 100 && 64 <= v4[1] <= 127)
  }

  predicate BlockedV6(ip: seq<Byte>) {
    |ip| == 16 && (ip[..12] == WELL_KNOWN_NAT64 || ip[..6] == LOCAL_NAT64)
  }

  // ----- The numeric reference

  function Value(bytes: seq<Byte>): nat {
    if bytes == [] then 0 else 256 * Value(bytes[..|bytes| - 1]) + bytes[|bytes| - 1]
  }

  /** An address as a 128-bit number; an IPv4 address is its IPv4-mapped IPv6 address
      (section 2.5.5.2 of RFC 4291). */
  function Number(ip: seq<Byte>): nat {
    if |ip| == 4 then 0xffff_0000_0000 + Value(ip) else Value(ip)
  }

  datatype Cidr = Cidr(base: nat, bits: nat)

  predicate Contains(c: Cidr, number: nat)
    requires c.bits <= 128
  {
    c.base <= number < c.base + Pow2(128 - c.bits)
  }

  /** a.b.0.0/bits as a block of IPv4-mapped addresses. */
  function V4Block(a: Byte, b: Byte, bits: nat): Cidr {
    Cidr(0xffff_0000_0000 + a * 0x100_0000 + b * 0x1_0000, 96 + bits)
  }

  /** The ranges the documentation promises to block. */
  const BLOCKED_V4: seq<Cidr> := [
    V4Block(0, 0, 8),       // "this network"
    V4Block(10, 0, 8),      // private, section 3 of RFC 1918
    V4Block(100, 64, 10),   // carrier-grade NAT, section 7 of RFC 6598
    V4Block(127, 0, 8),     // loopback
    V4Block(169, 254, 16),  // link-local
    V4Block(172, 16, 12),   // private
    V4Block(192, 168, 16),  // private
    V4Block(224, 0, 4),     // multicast
    Cidr(0xffff_ffff_ffff, 128)]  // limited broadcast

  const BLOCKED_V6: seq<Cidr> := [
    Cidr(0, 128),                                            // ::
    Cidr(1, 128),                                            // ::1
    Cidr(0xfe80_0000_0000_0000_0000_0000_0000_0000, 10),     // link-local
    Cidr(0xfc00_0000_0000_0000_0000_0000_0000_0000, 7),      // unique local
    Cidr(0xff00_0000_0000_0000_0000_0000_0000_0000, 8),      // multicast
    Cidr(0x0064_ff9b_0000_0000_0000_0000_0000_0000, 96),     // NAT64, section 2.1 of RFC 6052
    Cidr(0x0064_ff9b_0001_0000_0000_0000_0000_0000, 48)]     // local-use NAT64 of RFC 8215

  ghost predicate InBlockedRange(number: nat) {
    || (exists k :: 0 <= k < |BLOCKED_V4| && Contains(BLOCKED_V4[k], number))
    || (exists k :: 0 <= k < |BLOCKED_V6| && Contains(BLOCKED_V6[k], number))
  }

  // ----- Prefixes of numbers are prefixes of byte strings

  function Pow256(k: nat): nat {
    if k == 0 then 1 else 256 * Pow256(k - 1)
  }

  lemma {:induction false} ValueBound(bytes: seq<Byte>)
    ensures Value(bytes) < Pow256(|bytes|)
  {
    if bytes != [] {
      ValueBound(bytes[..|bytes| - 1]);
    }
  }

  lemma {:induction false} ValueInjective(a: seq<Byte>, b: seq<Byte>)
    requires |a| == |b| && Value(a) == Value(b)
    ensures a == b
  {
    if a != [] {
      var n := |a| - 1;
      ValueInjective(a[..n], b[..n]);
      assert a == a[..n] + [a[n]] && b == b[..n] + [b[n]];
    }
  }

  lemma Regroup(x: nat, p: nat)
    ensures x * (256 * p) == 256 * (x * p)
  {
  }

  lemma NextByte(lo: nat, hi: nat, w: nat, b: Byte)
    ensures 256 * lo <= 256 * w + b < 256 * hi <==> lo <= w < hi
  {
  }

  /** The number of an address lies in an aligned interval iff the number of its prefix does. */
  lemma {:induction false} PrefixRange(bytes: seq<Byte>, m: nat, lo: nat, hi: nat)
    requires m <= |bytes|
    ensures lo * Pow256(|bytes| - m) <= Value(bytes) < hi * Pow256(|bytes| - m)
            <==> lo <= Value(bytes[..m]) < hi
  {
    if m == |bytes| {
      assert bytes[..m] == bytes;
    } else {
      var n := |bytes| - 1;
      PrefixRange(bytes[..n], m, lo, hi);
      assert bytes[..n][..m] == bytes[..m];
      Regroup(lo, Pow256(n - m));
      Regroup(hi, Pow256(n - m));
      NextByte(lo * Pow256(n - m), hi * Pow256(n - m), Value(bytes[..n]), bytes[n]);
    }
  }

  lemma PrefixStep(bytes: seq<Byte>, m: nat)
    requires m < |bytes|
    ensures Value(bytes[..m + 1]) == 256 * Value(bytes[..m]) + bytes[m]
  {
    assert bytes[..m + 1][..m] == bytes[..m];
  }

  lemma PrefixIs(bytes: seq<Byte>, p: seq<Byte>)
    requires |p| <= |bytes|
    ensures bytes[..|p|] == p <==> Value(bytes[..|p|]) == Value(p)
  {
    if Value(bytes[..|p|]) == Value(p) {
      ValueInjective(bytes[..|p|], p);
    }
  }

  lemma {:induction false} Zeros(bytes: seq<Byte>, m: nat)
    requires m <= |bytes| && forall k :: 0 <= k < m ==> bytes[k] == 0
    ensures Value(bytes[..m]) == 0
  {
    if m > 0 {
      Zeros(bytes, m - 1);
      PrefixStep(bytes, m - 1);
    }
  }

  lemma Constants()
    ensures Value(V4_IN_V6) == 0xffff && Value(V6_UNSPECIFIED) == 0 && Value(V6_LOOPBACK) == 1
    ensures Value(LOCAL_NAT64) == 0x0064_ff9b_0001
    ensures Value(WELL_KNOWN_NAT64) == 0x0064_ff9b_0000_0000_0000_0000
  {
    hide Value;
    Zeros(V4_IN_V6, 10);
    PrefixStep(V4_IN_V6, 10);
    PrefixStep(V4_IN_V6, 11);
    assert V4_IN_V6[..12] == V4_IN_V6;
    Zeros(V6_UNSPECIFIED, 16);
    assert V6_UNSPECIFIED[..16] == V6_UNSPECIFIED;
    Zeros(V6_LOOPBACK, 15);
    PrefixStep(V6_LOOPBACK, 15);
    assert V6_LOOPBACK[..16] == V6_LOOPBACK;
    Nat64Constants();
  }

  lemma Nat64Constants()
    ensures Value(LOCAL_NAT64) == 0x0064_ff9b_0001
    ensures Value(WELL_KNOWN_NAT64) == 0x0064_ff9b_0000_0000_0000_0000
  {
    hide Value;
    var n := WELL_KNOWN_NAT64;
    Zeros(n, 1);
    PrefixStep(n, 1); PrefixStep(n, 2); PrefixStep(n, 3);
    PrefixStep(n, 4); PrefixStep(n, 5); PrefixStep(n, 6); PrefixStep(n, 7);
    PrefixStep(n, 8); PrefixStep(n, 9); PrefixStep(n, 10); PrefixStep(n, 11);
    assert n[..12] == n;
    var l := LOCAL_NAT64;
    Zeros(l, 1);
    PrefixStep(l, 1); PrefixStep(l, 2); PrefixStep(l, 3); PrefixStep(l, 4); PrefixStep(l, 5);
    assert l[..6] == l;
  }

  lemma {:induction false} Pow2Bytes(j: nat, r: nat)
    ensures Pow2(8 * j + r) == Pow256(j) * Pow2(r)
  {
    if j > 0 {
      Pow2Bytes(j - 1, r);
      var k := 8 * (j - 1) + r;
      assert Pow2(k + 2) == 4 * Pow2(k);
      assert Pow2(k + 4) == 4 * Pow2(k + 2);
      assert Pow2(k + 6) == 4 * Pow2(k + 4);
      assert Pow2(k + 8) == 4 * Pow2(k + 6);
      assert 256 * (Pow256(j - 1) * Pow2(r)) == (256 * Pow256(j - 1)) * Pow2(r);
    }
  }

  lemma Pow256Values()
    ensures Pow256(0) == 1 && Pow256(2) == 0x1_0000 && Pow256(3) == 0x100_0000 && Pow256(4) == 0x1_0000_0000
    ensures Pow256(10) == 0x1_0000_0000_0000_0000_0000
    ensures Pow256(14) == 0x1_0000_0000_0000_0000_0000_0000_0000
    ensures Pow256(15) == 0x100_0000_0000_0000_0000_0000_0000_0000
  {
    assert Pow256(2) == 0x1_0000;
    assert Pow256(4) == 0x1_0000_0000;
    assert Pow256(6) == 0x1_0000_0000_0000;
    assert Pow256(8) == 0x1_0000_0000_0000_0000;
    assert Pow256(10) == 0x1_0000_0000_0000_0000_0000;
    assert Pow256(12) == 0x1_0000_0000_0000_0000_0000_0000;
    assert Pow256(14) == 0x1_0000_0000_0000_0000_0000_0000_0000;
  }

  lemma SmallPowers()
    ensures Pow2(0) == 1 && Pow2(1) == 2 && Pow2(4) == 16 && Pow2(6) == 64
  {
    assert Pow2(2) == 4;
  }

  /** The sizes of the blocks in the table. */
  lemma Powers()
    ensures Pow256(2) == 0x1_0000 && Pow256(3) == 0x100_0000 && Pow256(4) == 0x1_0000_0000
    ensures Pow256(10) == 0x1_0000_0000_0000_0000_0000
    ensures Pow256(14) == 0x1_0000_0000_0000_0000_0000_0000_0000
    ensures Pow256(15) == 0x100_0000_0000_0000_0000_0000_0000_0000
    ensures Pow2(0) == 1 && Pow2(16) == Pow256(2) && Pow2(20) == 16 * Pow256(2) && Pow2(22) == 64 * Pow256(2)
    ensures Pow2(24) == Pow256(3) && Pow2(28) == 16 * Pow256(3) && Pow2(32) == Pow256(4)
    ensures Pow2(80) == Pow256(10) && Pow2(118) == 64 * Pow256(14)
    ensures Pow2(120) == Pow256(15) && Pow2(121) == 2 * Pow256(15)
  {
    hide Pow2, Pow256;
    Pow256Values();
    SmallPowers();
    Pow2Bytes(2, 0); Pow2Bytes(2, 4); Pow2Bytes(2, 6);
    Pow2Bytes(3, 0); Pow2Bytes(3, 4); Pow2Bytes(4, 0);
    Pow2Bytes(10, 0); Pow2Bytes(14, 6); Pow2Bytes(15, 0); Pow2Bytes(15, 1);
  }

  /** Membership in a block, read off the prefix of the address. */
  lemma InBlock(ip: seq<Byte>, c: Cidr, m: nat, lo: nat, hi: nat)
    requires |ip| == 16 && m <= 16 && c.bits <= 128
    requires c.base == lo * Pow256(16 - m) && c.base + Pow2(128 - c.bits) == hi * Pow256(16 - m)
    ensures Contains(c, Value(ip)) <==> lo <= Value(ip[..m]) < hi
  {
    PrefixRange(ip, m, lo, hi);
  }

  // ----- Blocked means in the table

  /** The five leading prefixes of an IPv4-mapped address. */
  lemma MappedPrefixes(ip: seq<Byte>)
    requires |ip| == 16
    ensures ip[..12] == V4_IN_V6 <==> Value(ip[..12]) == 0xffff
    ensures Value(ip[..13]) == 256 * Value(ip[..12]) + ip[12]
    ensures Value(ip[..14]) == 256 * Value(ip[..13]) + ip[13]
    ensures Value(ip[..15]) == 256 * Value(ip[..14]) + ip[14]
    ensures Value(ip) == 256 * Value(ip[..15]) + ip[15]
  {
    hide Value;
    PrefixIs(ip, V4_IN_V6);
    Constants();
    PrefixStep(ip, 12);
    PrefixStep(ip, 13);
    PrefixStep(ip, 14);
    PrefixStep(ip, 15);
    assert ip[..16] == ip;
  }

  lemma SomeV4(number: nat)
    ensures (exists k :: 0 <= k < |BLOCKED_V4| && Contains(BLOCKED_V4[k], number))
            <==> (var t := BLOCKED_V4;
                  || Contains(t[0], number) || Contains(t[1], number) || Contains(t[2], number)
                  || Contains(t[3], number) || Contains(t[4], number) || Contains(t[5], number)
                  || Contains(t[6], number) || Contains(t[7], number) || Contains(t[8], number))
  {
    hide Contains;
    var t := BLOCKED_V4;
  }

  lemma SomeV6(number: nat)
    ensures (exists k :: 0 <= k < |BLOCKED_V6| && Contains(BLOCKED_V6[k], number))
            <==> (var t := BLOCKED_V6;
                  || Contains(t[0], number) || Contains(t[1], number) || Contains(t[2], number)
                  || Contains(t[3], number) || Contains(t[4], number) || Contains(t[5], number)
                  || Contains(t[6], number))
  {
    hide Contains;
    var t := BLOCKED_V6;
  }

  lemma V4Blocks(ip: seq<Byte>)
    requires |ip| == 16
    ensures var t, v := BLOCKED_V4, Value(ip);
      && (Contains(t[0], v) <==> Value(ip[..13]) == 0xffff00)
      && (Contains(t[1], v) <==> Value(ip[..13]) == 0xffff0a)
      && (Contains(t[2], v) <==> 0xffff_6440 <= Value(ip[..14]) < 0xffff_6480)
      && (Contains(t[3], v) <==> Value(ip[..13]) == 0xffff7f)
      && (Contains(t[4], v) <==> Value(ip[..14]) == 0xffff_a9fe)
      && (Contains(t[5], v) <==> 0xffff_ac10 <= Value(ip[..14]) < 0xffff_ac20)
      && (Contains(t[6], v) <==> Value(ip[..14]) == 0xffff_c0a8)
      && (Contains(t[7], v) <==> 0xffffe0 <= Value(ip[..13]) < 0xfffff0)
      && (Contains(t[8], v) <==> v == 0xffff_ffff_ffff)
  {
    hide Value;
    var t := BLOCKED_V4;
    Powers();
    hide Pow2, Pow256;
    InBlock(ip, t[0], 13, 0xffff00, 0xffff01);
    InBlock(ip, t[1], 13, 0xffff0a, 0xffff0b);
    InBlock(ip, t[2], 14, 0xffff_6440, 0xffff_6480);
    InBlock(ip, t[3], 13, 0xffff7f, 0xffff80);
    InBlock(ip, t[4], 14, 0xffff_a9fe, 0xffff_a9ff);
    InBlock(ip, t[5], 14, 0xffff_ac10, 0xffff_ac20);
    InBlock(ip, t[6], 14, 0xffff_c0a8, 0xffff_c0a9);
    InBlock(ip, t[7], 13, 0xffffe0, 0xfffff0);
  }

  lemma V4Table(ip: seq<Byte>)
    requires |ip| == 16
    ensures (exists k :: 0 <= k < |BLOCKED_V4| && Contains(BLOCKED_V4[k], Value(ip)))
            <==> Value(ip[..12]) == 0xffff && V4InTable(ip[12], ip[13], ip[14], ip[15])
  {
    hide Value, Contains;
    MappedPrefixes(ip);
    V4Blocks(ip);
    SomeV4(Value(ip));
  }

  predicate V4InTable(a: Byte, b: Byte, c: Byte, d: Byte) {
    || a == 0 || a == 10 || a == 127 || 224 <= a < 240
    || (a == 100 && 64 <= b < 128) || (a == 169 && b == 254)
    || (a == 172 && 16 <= b < 32) || (a == 192 && b == 168)
    || (a == 255 && b == 255 && c == 255 && d == 255)
  }

  lemma V6Blocks(ip: seq<Byte>)
    requires |ip| == 16
    ensures var t, v := BLOCKED_V6, Value(ip);
      && (Contains(t[0], v) <==> v == 0)
      && (Contains(t[1], v) <==> v == 1)
      && (Contains(t[2], v) <==> 0xfe80 <= Value(ip[..2]) < 0xfec0)
      && (Contains(t[3], v) <==> 0xfc <= Value(ip[..1]) < 0xfe)
      && (Contains(t[4], v) <==> Value(ip[..1]) == 0xff)
      && (Contains(t[5], v) <==> Value(ip[..12]) == 0x0064_ff9b_0000_0000_0000_0000)
      && (Contains(t[6], v) <==> Value(ip[..6]) == 0x0064_ff9b_0001)
  {
    hide Value;
    var t := BLOCKED_V6;
    Powers();
    hide Pow2, Pow256;
    InBlock(ip, t[2], 2, 0xfe80, 0xfec0);
    InBlock(ip, t[3], 1, 0xfc, 0xfe);
    InBlock(ip, t[4], 1, 0xff, 0x100);
    InBlock(ip, t[5], 12, 0x0064_ff9b_0000_0000_0000_0000, 0x0064_ff9b_0000_0000_0000_0001);
    InBlock(ip, t[6], 6, 0x0064_ff9b_0001, 0x0064_ff9b_0002);
  }

  lemma V6Table(ip: seq<Byte>)
    requires |ip| == 16
    ensures (exists k :: 0 <= k < |BLOCKED_V6| && Contains(BLOCKED_V6[k], Value(ip)))
            <==> ip == V6_UNSPECIFIED || ip == V6_LOOPBACK || (ip[0] == 0xfe && 128 <= ip[1] < 192)
                 || 0xfc <= ip[0] < 0xfe || ip[0] == 0xff
                 || ip[..12] == WELL_KNOWN_NAT64 || ip[..6] == LOCAL_NAT64
  {
    assert ip[..16] == ip && ip[..0] == [];
    assert Value([]) == 0;
    hide Value, Contains;
    V6Blocks(ip);
    SomeV6(Value(ip));
    PrefixStep(ip, 0);
    PrefixStep(ip, 1);
    PrefixIs(ip, V6_UNSPECIFIED);
    PrefixIs(ip, V6_LOOPBACK);
    PrefixIs(ip, WELL_KNOWN_NAT64);
    PrefixIs(ip, LOCAL_NAT64);
    Constants();
  }

  /** A 4-byte address and its 16-byte mapped form are the same number and get the same verdict. */
  lemma MappedFormAgrees(v4: seq<Byte>)
    requires |v4| == 4
    ensures Number(V4_IN_V6 + v4) == Number(v4)
    ensures IsBlocked(Some(V4_IN_V6 + v4)) <==> IsBlocked(Some(v4))
  {
    var ip := V4_IN_V6 + v4;
    assert ip[..12] == V4_IN_V6 && ip[12..] == v4;
    MappedPrefixes(ip);
    assert v4[..0] == [] && v4[..4] == v4;
    PrefixStep(v4, 0);
    PrefixStep(v4, 1);
    PrefixStep(v4, 2);
    PrefixStep(v4, 3);
  }

  /** isBlockedIP blocks exactly the addresses in the table. */
  lemma BlockedIffInTable(ip: seq<Byte>)
    requires |ip| == 4 || |ip| == 16
    ensures IsBlocked(Some(ip)) <==> InBlockedRange(Number(ip))
  {
    if |ip| == 4 {
      MappedFormAgrees(ip);
      WideBlockedIffInTable(V4_IN_V6 + ip);
    } else {
      WideBlockedIffInTable(ip);
    }
  }

  lemma WideBlockedIffInTable(ip: seq<Byte>)
    requires |ip| == 16
    ensures IsBlocked(Some(ip)) <==> InBlockedRange(Number(ip))
  {
    V4Table(ip);
    V6Table(ip);
    MappedPrefixes(ip);
    if ip[..12] == V4_IN_V6 {
      assert ip == V4_IN_V6 + ip[12..];
      assert ip[..6] == V4_IN_V6[..6];
      assert ip[12..] == [255, 255, 255, 255] <==> ip[12] == 255 && ip[13] == 255 && ip[14] == 255 && ip[15] == 255;
      assert ip[0] == V4_IN_V6[0] && ip[10] == V4_IN_V6[10];
    } else {
      assert ip != V4_ZERO by { assert V4_ZERO[..12] == V4_IN_V6; }
    }
  }

  /** A nil slice is blocked, as documented; a slice of any other odd length is not, although the
      comment on isBlockedIP says invalid input fails closed. */
  lemma InvalidInput(ip: seq<Byte>)
    requires |ip| != 4 && |ip| != 16
    ensures IsBlocked(None) && !IsBlocked(Some(ip))
  {
  }

  // ----- The redirect-time policy

  /** What resolving a host yields. */
  datatype Lookup = LookupFailed | Answer(ips: seq<Option<seq<Byte>>>)

  /** A host as net.ParseIP sees it. */
  datatype Host = Literal(ip: seq<Byte>) | Name(lookup: Lookup)

  /** checkIPPolicy: true means the request may go ahead. */
  predicate Permits(host: Host) {
    match host
    case Literal(ip) => !IsBlocked(Some(ip))
    case Name(LookupFailed) => false
    case Name(Answer(ips)) => ips != [] && forall k :: 0 <= k < |ips| ==> !IsBlocked(ips[k])
  }

  /** An address of one of the two lengths that lies in no blocked range; the other lengths are not
      addresses. */
  ghost predicate Public(ip: seq<Byte>) {
    |ip| in {4, 16} ==> !InBlockedRange(Number(ip))
  }

  lemma BlockedIffNotPublic(ip: seq<Byte>)
    ensures IsBlocked(Some(ip)) <==> !Public(ip)
  {
    if |ip| in {4, 16} {
      hide IsBlocked, InBlockedRange, Number;
      BlockedIffInTable(ip);
    } else {
      InvalidInput(ip);
    }
  }

  /** The IPv4 addresses, in either form, are the numbers of one block of 2^32. */
  predicate IPv4Number(ip: seq<Byte>) {
    0xffff_0000_0000 <= Number(ip) <= 0xffff_ffff_ffff
  }

  lemma To4IsNumeric(ip: seq<Byte>)
    requires |ip| == 4 || |ip| == 16
    ensures To4(ip).Some? <==> IPv4Number(ip)
  {
    Pow256Values();
    hide Pow256;
    if |ip| == 4 {
      ValueBound(ip);
    } else {
      PrefixRange(ip, 12, 0xffff, 0x1_0000);
      MappedPrefixes(ip);
      hide Value;
    }
  }

  /** An accepted host has at least one address and none of its addresses is in a blocked range. */
  lemma PermittedHostIsPublic(host: Host)
    requires Permits(host)
    ensures host.Literal? ==> Public(host.ip)
    ensures host.Name? ==>
              && host.lookup.Answer? && |host.lookup.ips| > 0
              && forall k :: 0 <= k < |host.lookup.ips| ==>
                   host.lookup.ips[k].Some? && Public(host.lookup.ips[k].value)
  {
    match host
    case Literal(ip) => BlockedIffNotPublic(ip);
    case Name(lookup) =>
      forall k | 0 <= k < |lookup.ips| ensures lookup.ips[k].Some? && Public(lookup.ips[k].value) {
        assert lookup.ips[k].Some?;
        hide IsBlocked, Public;
        BlockedIffNotPublic(lookup.ips[k].value);
      }
  }

  /** And a host whose addresses are all public is accepted. */
  lemma PublicHostIsPermitted(host: Host)
    requires host.Literal? ==> Public(host.ip)
    requires host.Name? ==>
               && host.lookup.Answer? && |host.lookup.ips| > 0
               && forall k :: 0 <= k < |host.lookup.ips| ==>
                    host.lookup.ips[k].Some? && Public(host.lookup.ips[k].value)
    ensures Permits(host)
  {
    match host
    case Literal(ip) => BlockedIffNotPublic(ip);
    case Name(lookup) =>
      forall k | 0 <= k < |lookup.ips| ensures !IsBlocked(lookup.ips[k]) {
        hide IsBlocked, Public;
        BlockedIffNotPublic(lookup.ips[k].value);
      }
  }
}
