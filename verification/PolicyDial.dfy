/** The policy front end of newIPPolicyDialContext, the sequential dialer, and what both dialers have
    in common. */
module PolicyDial {
  import opened Arithmetic
  import opened Octets
  import opened IpPolicy
  import DialCoordinator
  import DialRace

  // ----- One dial after the other

  /** What the dial of each address would do, and whether the context is done once it returned. */
  datatype Dial = Dial(connects: bool, ctxDone: bool)

  /** The errors are named by the index of the address; joining none of them is the nil error. */
  datatype Outcome = Connected(index: nat) | Interrupted(errs: seq<nat>) | AllFailed(errs: seq<nat>)

  /** The dial of each of the first k addresses fails and leaves the context alive. */
  ghost predicate FailsQuietly(dials: seq<Dial>, k: nat) {
    k <= |dials| && forall j :: 0 <= j < k ==> !dials[j].connects && !dials[j].ctxDone
  }

  /** How dialing in order ends after n dials. */
  ghost predicate EndsAfter(dials: seq<Dial>, n: nat, outcome: Outcome) {
    match outcome
    case Connected(i) => n == i + 1 <= |dials| && dials[i].connects && FailsQuietly(dials, i)
    case Interrupted(errs) =>
      && 0 < n <= |dials| && errs == UpTo(n) && FailsQuietly(dials, n - 1)
      && !dials[n - 1].connects && dials[n - 1].ctxDone
    case AllFailed(errs) => n == |dials| && errs == UpTo(n) && FailsQuietly(dials, n)
  }

  /** dialApprovedAddressesSequentially: a connection means every earlier address failed, a
      failure carries one error for each address dialed, and the dials are a prefix of the list. */
  method DialSequentially<A>(addresses: seq<A>, dials: seq<Dial>) returns (outcome: Outcome, dialed: seq<A>)
    requires |dials| == |addresses|
    ensures dialed <= addresses
    ensures EndsAfter(dials, |dialed|, outcome)
  {
    var errs: seq<nat> := [];
    dialed := [];
    for k := 0 to |addresses|
      invariant dialed == addresses[..k]
      invariant errs == UpTo(k)
      invariant FailsQuietly(dials, k)
    {
      dialed := dialed + [addresses[k]];
      if dials[k].connects {
        return Connected(k), dialed;
      }
      errs := errs + [k];
      if dials[k].ctxDone {
        return Interrupted(errs), dialed;
      }
    }
    outcome := AllFailed(errs);
  }

  /** Against the same network and without cancellation, one dial after the other and the staggered
      race fail on the same inputs: both iff no address answers; and the race never connects to an
      address before the one the sequential dialer connects to. */
  lemma {:induction false} DialersAgree(good: seq<bool>, es: seq<DialRace.Event>, n: nat, outcome: Outcome)
    requires 0 < |good| && EndsAfter(Network(good), n, outcome)
    requires DialRace.Respects(|good|, es, good)
    requires DialRace.Exec(|good|, es).coord.Returned? && !DialRace.Exec(|good|, es).ctxDone
    ensures var raced := DialRace.Exec(|good|, es).coord.outcome;
      && (outcome.AllFailed? <==> raced.AllFailed?) && (outcome.Connected? <==> raced.Connected?)
      && (outcome.Connected? && raced.Connected? ==> outcome.index <= raced.addr)
  {
    hide DialRace.Exec, DialRace.Respects;
    DialRace.FailsIffAllFail(|good|, es, good);
    DialRace.OutcomeMeaning(|good|, es);
    assert forall i :: 0 <= i < |good| ==> good[i] == Network(good)[i].connects;
  }

  /** The dials of a network whose context is never done. */
  function Network(good: seq<bool>): (dials: seq<Dial>)
    ensures |dials| == |good| && forall i :: 0 <= i < |good| ==> dials[i] == Dial(good[i], false)
  {
    seq(|good|, i requires 0 <= i < |good| => Dial(good[i], false))
  }

  // ----- The front end

  datatype Family = Tcp4 | Tcp6 | AnyNetwork

  predicate MatchesNetwork(ip: seq<Byte>, network: Family) {
    match network
    case Tcp4 => To4(ip).Some?
    case Tcp6 => To4(ip).None?
    case AnyNetwork => true
  }

  /** The dial address as net.SplitHostPort and net.ParseIP see it. */
  datatype Target = Malformed | Address(host: Host)

  datatype Plan =
    | Unparsable
    | Blocked
    | NoAddresses
    | DialOne(ip: seq<Byte>)
    | DialEach(ips: seq<seq<Byte>>)

  /** The answers usable on the network, in the order of the answer. */
  function Usable(ips: seq<Option<seq<Byte>>>, network: Family): seq<seq<Byte>> {
    if ips == [] then []
    else
      var last := ips[|ips| - 1];
      Usable(ips[..|ips| - 1], network)
      + if last.Some? && MatchesNetwork(last.value, network) then [last.value] else []
  }

  /** What is dialed, and how many lookups it took.  One blocked answer refuses the whole host. */
  method Approve(target: Target, network: Family) returns (plan: Plan, lookups: nat)
    ensures lookups == if target.Address? && target.host.Name? then 1 else 0
    ensures plan.Unparsable? <==> target.Malformed?
    ensures plan.Blocked? <==> target.Address? && !Permits(target.host)
    ensures plan.DialOne? ==> target.Address? && target.host == Literal(plan.ip)
    ensures plan.DialEach? || plan.NoAddresses? ==>
              target.Address? && target.host.Name? && target.host.lookup.Answer?
    ensures plan.DialEach? ==> plan.ips == Usable(target.host.lookup.ips, network) != []
    ensures plan.NoAddresses? ==> Usable(target.host.lookup.ips, network) == []
  {
    hide IsLoopback, IsLinkLocalUnicast, IsMulticast, IsUnspecified, IsPrivate, To4, BlockedV4, BlockedV6, MatchesNetwork;
    lookups := 0;
    if target.Malformed? {
      return Unparsable, lookups;
    }
    match target.host
    case Literal(ip) =>
      plan := if IsBlocked(Some(ip)) then Blocked else DialOne(ip);
    case Name(lookup) =>
      lookups := 1;
      if lookup.LookupFailed? || lookup.ips == [] {
        return Blocked, lookups;
      }
      var ips := lookup.ips;
      var addresses: seq<seq<Byte>> := [];
      for k := 0 to |ips|
        invariant forall j :: 0 <= j < k ==> !IsBlocked(ips[j])
        invariant addresses == Usable(ips[..k], network)
      {
        assert ips[..k + 1][..k] == ips[..k];
        if IsBlocked(ips[k]) {
          return Blocked, lookups;
        }
        if MatchesNetwork(ips[k].value, network) {
          addresses := addresses + [ips[k].value];
        }
      }
      assert ips[..|ips|] == ips;
      plan := if addresses == [] then NoAddresses else DialEach(addresses);
  }

  /** The filter drops exactly the addresses of the other family. */
  lemma {:induction false} UsableMeaning(ips: seq<Option<seq<Byte>>>, network: Family)
    ensures forall ip :: ip in Usable(ips, network) <==> Some(ip) in ips && MatchesNetwork(ip, network)
  {
    hide MatchesNetwork;
    if ips != [] {
      UsableMeaning(ips[..|ips| - 1], network);
      assert ips == ips[..|ips| - 1] + [ips[|ips| - 1]];
    }
  }

  /** In numbers: a tcp4 dial keeps the IPv4 addresses of the answer, a tcp6 dial the others, and any
      other network all of them. */
  lemma {:induction false} UsableByNumber(ips: seq<Option<seq<Byte>>>, ip: seq<Byte>)
    requires |ip| == 4 || |ip| == 16
    ensures ip in Usable(ips, Tcp4) <==> Some(ip) in ips && 0xffff_0000_0000 <= Number(ip) <= 0xffff_ffff_ffff
    ensures ip in Usable(ips, Tcp6) <==> Some(ip) in ips && !(0xffff_0000_0000 <= Number(ip) <= 0xffff_ffff_ffff)
    ensures ip in Usable(ips, AnyNetwork) <==> Some(ip) in ips
  {
    UsableMeaning(ips, Tcp4);
    UsableMeaning(ips, Tcp6);
    UsableMeaning(ips, AnyNetwork);
    To4IsNumeric(ip);
    hide To4, Number, Usable;
  }

  /** The filter keeps the order: the usable part of two answers is the one part after the other. */
  lemma {:induction false} UsableKeepsOrder(a: seq<Option<seq<Byte>>>, b: seq<Option<seq<Byte>>>, network: Family)
    ensures Usable(a + b, network) == Usable(a, network) + Usable(b, network)
  {
    hide MatchesNetwork;
    if b == [] {
      assert a + b == a;
    } else {
      UsableKeepsOrder(a, b[..|b| - 1], network);
      assert (a + b)[..|a + b| - 1] == a + b[..|b| - 1];
    }
  }

  /** A tcp4 dial and a tcp6 dial share out the answer between them. */
  lemma {:induction false} FamiliesPartition(ips: seq<Option<seq<Byte>>>)
    requires forall k :: 0 <= k < |ips| ==> ips[k].Some?
    ensures |Usable(ips, Tcp4)| + |Usable(ips, Tcp6)| == |ips|
  {
    if ips != [] {
      FamiliesPartition(ips[..|ips| - 1]);
    }
  }

  /** Whatever a permitted name resolved to, every address left for dialing is public. */
  lemma UsableIsPublic(host: Host, network: Family)
    requires Permits(host) && host.Name? && host.lookup.Answer?
    ensures forall ip :: ip in Usable(host.lookup.ips, network) ==> Public(ip)
  {
    UsableMeaning(host.lookup.ips, network);
    PermittedHostIsPublic(host);
    hide Permits, Public, Usable;
    var ips := host.lookup.ips;
    forall ip | ip in Usable(ips, network) ensures Public(ip) {
      var k :| 0 <= k < |ips| && ips[k] == Some(ip);
    }
  }

  /** The environment of one connection: what the built-in dialer's race meets, or what a caller's dial
      function does with each address; and what dialing a literal address comes to. */
  datatype Environment = Environment(dialer: Dialer, literalConnects: bool)

  datatype Dialer = Racing(turns: seq<DialCoordinator.Turn>) | InOrder(dials: nat -> Dial)

  ghost predicate Plausible(dialer: Dialer) {
    dialer.Racing? ==>
      forall k :: 0 <= k < |dialer.turns| ==>
        DialCoordinator.Others(dialer.turns[k].meanwhile) && DialRace.IsCoordinator(dialer.turns[k].choice)
  }

  /** What the dial function returns: a connection to an address, an error, or nothing yet.  An error
      is a refusal, a context that was done, or the failure of every address. */
  datatype Reply = Conn(ip: seq<Byte>) | Refused | ContextDone | EveryDialFailed | StillWaiting

  /** The dial function, from the address it is given to every dial it starts and what it returns: a
      refused or unparsable target is not dialed at all; of a name, a prefix of the filtered answer is
      dialed, in order, all of it before a failure; whatever is dialed is public, and so is the peer of
      the connection returned. */
  method DialContext(target: Target, network: Family, env: Environment)
    returns (plan: Plan, lookups: nat, dialed: seq<seq<Byte>>, reply: Reply)
    requires Plausible(env.dialer)
    ensures lookups <= 1
    ensures target.Malformed? || !Permits(target.host) ==> dialed == [] && reply.Refused?
    ensures plan.DialOne? ==> target.Address? && target.host == Literal(plan.ip) && dialed == [plan.ip]
    ensures plan.DialOne? ==> reply == if env.literalConnects then Conn(plan.ip) else EveryDialFailed
    ensures plan.DialEach? ==> target.Address? && target.host.Name? && target.host.lookup.Answer?
    ensures plan.DialEach? ==> dialed <= Usable(target.host.lookup.ips, network)
    ensures plan.DialEach? && reply.EveryDialFailed? ==> dialed == Usable(target.host.lookup.ips, network)
    ensures reply.Refused? <==> dialed == []
    ensures reply.Conn? ==> reply.ip in dialed && Public(reply.ip)
    ensures env.dialer.InOrder? ==> !reply.StillWaiting?
    ensures plan.DialEach? && env.dialer.InOrder? ==> AnsweredInOrder(env.dialer.dials, |dialed|, reply)
    ensures plan.DialEach? && env.dialer.Racing? ==>
              AnsweredInRace(Usable(target.host.lookup.ips, network), env.dialer.turns, reply)
    ensures plan.DialEach? && env.dialer.InOrder? && reply.Conn? ==> reply.ip == dialed[|dialed| - 1]
    ensures forall ip :: ip in dialed ==> Public(ip)
    ensures plan.DialEach? && network.Tcp4? ==> forall ip :: ip in dialed && |ip| in {4, 16} ==> IPv4Number(ip)
    ensures plan.DialEach? && network.Tcp6? ==> forall ip :: ip in dialed && |ip| in {4, 16} ==> !IPv4Number(ip)
  {
    hide Public, Permits, Usable, IPv4Number;
    plan, lookups := Approve(target, network);
    dialed, reply := [], Refused;
    match plan
    case DialOne(ip) =>
      PermittedHostIsPublic(target.host);
      dialed := [ip];
      reply := if env.literalConnects then Conn(ip) else EveryDialFailed;
    case DialEach(ips) =>
      UsableIsPublic(target.host, network);
      match env.dialer {
        case Racing(turns) =>
          dialed, reply := Race(ips, turns);
        case InOrder(answer) =>
          dialed, reply := Sequence(ips, answer);
      }
      forall ip | ip in dialed
        ensures Public(ip)
        ensures |ip| in {4, 16} ==> (network.Tcp4? ==> IPv4Number(ip)) && (network.Tcp6? ==> !IPv4Number(ip))
      {
        assert ip in ips;
        OfTheNetwork(target.host.lookup.ips, ip);
      }
    case _ =>
  }

  lemma OfTheNetwork(ips: seq<Option<seq<Byte>>>, ip: seq<Byte>)
    ensures |ip| in {4, 16} && ip in Usable(ips, Tcp4) ==> IPv4Number(ip)
    ensures |ip| in {4, 16} && ip in Usable(ips, Tcp6) ==> !IPv4Number(ip)
  {
    if |ip| in {4, 16} {
      UsableByNumber(ips, ip);
    }
  }

  /** What dialing in order comes to after n dials, by the answers themselves. */
  ghost predicate AnsweredInOrder(answer: nat -> Dial, n: nat, reply: Reply) {
    && 0 < n && (forall k :: 0 <= k < n - 1 ==> !answer(k).connects && !answer(k).ctxDone)
    && (reply.Conn? <==> answer(n - 1).connects)
    && (reply.ContextDone? <==> !answer(n - 1).connects && answer(n - 1).ctxDone)
    && (reply.EveryDialFailed? <==> !answer(n - 1).connects && !answer(n - 1).ctxDone)
  }

  /** What the race comes to, by the dials that returned: the one whose connection is returned had
      connected, a context error needs a cancellation, and otherwise every dial had failed. */
  ghost predicate AnsweredInRace(ips: seq<seq<Byte>>, turns: seq<DialCoordinator.Turn>, reply: Reply) {
    && (reply.Conn? ==>
          exists i :: 0 <= i < |ips| && ips[i] == reply.ip && DialCoordinator.Happened(turns, DialRace.DialReturns(i, true)))
    && (reply.ContextDone? ==> DialCoordinator.Happened(turns, DialRace.CallerCancels))
    && (reply.EveryDialFailed? ==>
          forall i :: 0 <= i < |ips| ==> DialCoordinator.Happened(turns, DialRace.DialReturns(i, false)))
  }

  method Race(ips: seq<seq<Byte>>, turns: seq<DialCoordinator.Turn>) returns (dialed: seq<seq<Byte>>, reply: Reply)
    requires ips != [] && Plausible(Racing(turns))
    ensures dialed != [] && dialed <= ips && !reply.Refused?
    ensures reply.Conn? ==> reply.ip in dialed
    ensures reply.EveryDialFailed? ==> dialed == ips
    ensures AnsweredInRace(ips, turns, reply)
  {
    var race := new DialCoordinator.Race(|ips|);
    var outcome, waited := race.Dial(turns);
    race.Prefix();
    hide DialRace.Exec, DialCoordinator.Happened;
    dialed := ips[..race.started];
    match outcome
    case None => reply := StillWaiting;
    case Some(Connected(i)) =>
      assert ips[i] == dialed[i] && race.phases[i] == DialRace.Sent(true);
      assert DialCoordinator.Happened(turns, DialRace.DialReturns(i, race.phases[i].ok));
      reply := Conn(ips[i]);
    case Some(Cancelled) => reply := ContextDone;
    case Some(AllFailed(_)) =>
      forall i | 0 <= i < |ips| ensures DialCoordinator.Happened(turns, DialRace.DialReturns(i, false)) {
        assert race.phases[i] == DialRace.Sent(false);
        assert DialCoordinator.Happened(turns, DialRace.DialReturns(i, race.phases[i].ok));
      }
      assert race.phases[|ips| - 1] == DialRace.Sent(false);
      reply := EveryDialFailed;
  }

  method Sequence(ips: seq<seq<Byte>>, answer: nat -> Dial) returns (dialed: seq<seq<Byte>>, reply: Reply)
    requires ips != []
    ensures dialed != [] && dialed <= ips && !reply.Refused? && !reply.StillWaiting?
    ensures reply.Conn? ==> reply.ip == dialed[|dialed| - 1]
    ensures reply.EveryDialFailed? ==> dialed == ips
    ensures AnsweredInOrder(answer, |dialed|, reply)
  {
    var dials := seq(|ips|, k requires 0 <= k < |ips| => answer(k));
    var outcome;
    outcome, dialed := DialSequentially(ips, dials);
    forall k | 0 <= k < |ips| ensures dials[k] == answer(k) {
    }
    forall k | 0 <= k < |dialed| - 1 ensures !answer(k).connects && !answer(k).ctxDone {
      assert dials[k] == answer(k);
    }
    match outcome
    case Connected(i) => reply := Conn(ips[i]);
    case Interrupted(_) => reply := ContextDone;
    case AllFailed(_) => reply := EveryDialFailed;
  }
}
