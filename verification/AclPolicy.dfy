/**
 Access policies: what a policy file says, the form it is compiled into, and the
 decision made from that form for each new flow.
 */
module AclPolicy {
  import opened Wrappers
  import opened Flows

  type PeerKey = s: seq<Byte> | |s| == 32 witness seq(32, _ => 0)

  const ZERO_KEY: PeerKey := seq(32, _ => 0)

  datatype Action = Allow | Deny

  /** `ruleIndex` is -1 when no rule decided. */
  datatype Decision = Decision(action: Action, ruleIndex: int, outboundOnly: bool)

  const ANY_PROTO: Proto := 255

  datatype PortRange = PortRange(proto: Proto, start: Port, end: Port, matchICMPv6: bool) {
    predicate ContainsPort(port: Port) {
      if proto != ANY_PROTO && proto != ICMP && proto != ICMPV6 then start <= port <= end else true
    }

    predicate MatchesProto(p: Proto) {
      || proto == ANY_PROTO
      || proto == p
      || (matchICMPv6 && (p == ICMP || p == ICMPV6))
    }
  }

  /** `from` and `to` are a peer name, "tag:" and a tag name, or "*". */
  datatype Rule = Rule(from: string, to: string, ports: seq<PortRange>)

  datatype Policy = Policy(
    default: Action,
    peers: map<string, PeerKey>,
    tags: map<string, seq<string>>,
    rules: seq<Rule>,
    outboundOnly: seq<string>)

  // ----- What a policy means

  predicate IsTag(subject: string) {
    |subject| >= 4 && subject[..4] == "tag:"
  }

  ghost predicate Names(p: Policy, name: string, key: PeerKey) {
    name in p.peers && p.peers[name] == key
  }

  /** The subject of a rule covers the peer with this key. */
  ghost predicate Covers(p: Policy, subject: string, key: PeerKey) {
    if subject == "*" then true
    else if IsTag(subject) then
      subject[4..] in p.tags && exists name <- p.tags[subject[4..]] :: Names(p, name, key)
    else Names(p, subject, key)
  }

  /** A packet, as far as a policy can tell packets apart. */
  datatype Query = Query(src: PeerKey, dst: PeerKey, proto: Proto, port: Port)

  /**
   A range speaks of the packet. By protocol number: 255 is any, and a range written as
   icmp takes both 1 and 58. Ports count only for protocols that have them.
   */
  ghost predicate Spans(pr: PortRange, proto: Proto, port: Port) {
    && (pr.proto == 255 || pr.proto == proto || (pr.matchICMPv6 && proto in {1, 58}))
    && (pr.proto in {255, 1, 58} || pr.start <= port <= pr.end)
  }

  ghost predicate RuleMatches(p: Policy, rule: Rule, q: Query) {
    && Covers(p, rule.from, q.src)
    && Covers(p, rule.to, q.dst)
    && exists pr <- rule.ports :: Spans(pr, q.proto, q.port)
  }

  ghost predicate IsOutboundOnly(p: Policy, key: PeerKey) {
    exists name <- p.outboundOnly :: Names(p, name, key)
  }

  /**
   The decision the policy calls for: an outbound-only destination is denied; else the
   first matching rule allows; else the default applies.
   */
  ghost predicate Decides(p: Policy, q: Query, d: Decision) {
    if IsOutboundOnly(p, q.dst) then d == Decision(Deny, -1, true)
    else if exists i :: 0 <= i < |p.rules| && RuleMatches(p, p.rules[i], q) then
      && d.action == Allow && !d.outboundOnly
      && 0 <= d.ruleIndex < |p.rules| && RuleMatches(p, p.rules[d.ruleIndex], q)
      && forall i :: 0 <= i < d.ruleIndex ==> !RuleMatches(p, p.rules[i], q)
    else d == Decision(p.default, -1, false)
  }

  /** At most one decision is called for. */
  lemma DecidesUnique(p: Policy, q: Query, d: Decision, e: Decision)
    requires Decides(p, q, d) && Decides(p, q, e)
    ensures d == e
  {
    if !IsOutboundOnly(p, q.dst) && d.ruleIndex >= 0 {
      assert !(d.ruleIndex < e.ruleIndex) && !(e.ruleIndex < d.ruleIndex);
    }
  }

  // ----- The compiled form

  datatype CompiledRule = CompiledRule(
    srcPeers: set<PeerKey>,
    dstPeers: set<PeerKey>,
    srcAny: bool,
    dstAny: bool,
    ports: seq<PortRange>,
    ruleIndex: nat)

  datatype CompiledPolicy = CompiledPolicy(
    rules: seq<CompiledRule>,
    defaultAction: Action,
    outboundOnly: set<PeerKey>,
    knownPeers: set<PeerKey>)

  method ResolveNames(names: seq<string>, peers: map<string, PeerKey>) returns (keys: set<PeerKey>)
    ensures forall key :: key in keys <==> exists name <- names :: name in peers && peers[name] == key
  {
    keys := {};
    for i := 0 to |names|
      invariant forall key :: key in keys <==> exists name <- names[..i] :: name in peers && peers[name] == key
    {
      assert names[..i + 1] == names[..i] + [names[i]];
      if names[i] in peers {
        keys := keys + {peers[names[i]]};
      }
    }
    assert names[..|names|] == names;
  }

  /** The peers a subject stands for; "*" is handled apart and resolves to none. */
  method ResolveSubject(subject: string, p: Policy) returns (keys: set<PeerKey>)
    ensures subject == "*" ==> keys == {}
    ensures subject != "*" ==> forall key :: key in keys <==> Covers(p, subject, key)
  {
    keys := {};
    if subject == "*" {
      return;
    }
    if IsTag(subject) {
      if subject[4..] in p.tags {
        keys := ResolveNames(p.tags[subject[4..]], p.peers);
      }
      return;
    }
    if subject in p.peers {
      keys := {p.peers[subject]};
    }
  }

  ghost predicate RuleCompiled(p: Policy, i: nat, cr: CompiledRule)
    requires i < |p.rules|
  {
    var rule := p.rules[i];
    && cr.ruleIndex == i && cr.ports == rule.ports
    && (cr.srcAny <==> rule.from == "*") && (cr.dstAny <==> rule.to == "*")
    && (!cr.srcAny ==> forall key :: key in cr.srcPeers <==> Covers(p, rule.from, key))
    && (!cr.dstAny ==> forall key :: key in cr.dstPeers <==> Covers(p, rule.to, key))
  }

  /** `cp` is what compiling `p` produces. */
  ghost predicate Compiled(p: Policy, cp: CompiledPolicy) {
    && |cp.rules| == |p.rules|
    && (forall i :: 0 <= i < |p.rules| ==> RuleCompiled(p, i, cp.rules[i]))
    && cp.defaultAction == p.default
    && (forall key :: key in cp.outboundOnly <==> IsOutboundOnly(p, key))
    && (forall key :: key in cp.knownPeers <==> exists name :: Names(p, name, key))
  }

  method Compile(p: Policy) returns (cp: CompiledPolicy)
    ensures Compiled(p, cp)
  {
    var knownPeers := p.peers.Values;
    var outboundOnly := ResolveNames(p.outboundOnly, p.peers);
    var rules: seq<CompiledRule> := [];
    for i := 0 to |p.rules|
      invariant |rules| == i
      invariant forall j :: 0 <= j < i ==> RuleCompiled(p, j, rules[j])
    {
      var rule := p.rules[i];
      var srcSet := ResolveSubject(rule.from, p);
      var dstSet := ResolveSubject(rule.to, p);
      rules := rules + [CompiledRule(srcSet, dstSet, rule.from == "*", rule.to == "*", rule.ports, i)];
    }
    cp := CompiledPolicy(rules, p.default, outboundOnly, knownPeers);
    forall key ensures key in knownPeers <==> exists name :: Names(p, name, key) {
      if exists name :: Names(p, name, key) {
        var name :| Names(p, name, key);
        assert name in p.peers;
      }
      if key in knownPeers {
        var name :| name in p.peers && p.peers[name] == key;
        assert Names(p, name, key);
      }
    }
  }

  // ----- Deciding

  predicate PortsMatch(ports: seq<PortRange>, q: Query) {
    exists pr <- ports :: pr.MatchesProto(q.proto) && pr.ContainsPort(q.port)
  }

  predicate CompiledMatches(cr: CompiledRule, q: Query) {
    (cr.dstAny || q.dst in cr.dstPeers) && (cr.srcAny || q.src in cr.srcPeers) && PortsMatch(cr.ports, q)
  }

  /** The rule scan from position `i` on. */
  function DecideFrom(cp: CompiledPolicy, q: Query, i: nat): Decision
    requires i <= |cp.rules|
    decreases |cp.rules| - i
  {
    if i == |cp.rules| then
      if q.dst in cp.knownPeers && q.dst in cp.outboundOnly then Decision(Deny, -1, true)
      else Decision(cp.defaultAction, -1, false)
    else if CompiledMatches(cp.rules[i], q) then
      if q.dst in cp.outboundOnly then Decision(Deny, -1, true)
      else Decision(Allow, cp.rules[i].ruleIndex, false)
    else DecideFrom(cp, q, i + 1)
  }

  method PortsMatchScan(ports: seq<PortRange>, q: Query) returns (found: bool)
    ensures found <==> PortsMatch(ports, q)
  {
    for j := 0 to |ports|
      invariant forall k :: 0 <= k < j ==> !(ports[k].MatchesProto(q.proto) && ports[k].ContainsPort(q.port))
    {
      if ports[j].MatchesProto(q.proto) {
        if ports[j].ContainsPort(q.port) {
          return true;
        }
      }
    }
    return false;
  }

  method Decide(cp: CompiledPolicy, q: Query) returns (d: Decision)
    ensures d == DecideFrom(cp, q, 0)
  {
    for i := 0 to |cp.rules|
      invariant DecideFrom(cp, q, i) == DecideFrom(cp, q, 0)
    {
      var rule := cp.rules[i];
      if !rule.dstAny && q.dst !in rule.dstPeers {
        continue;
      }
      if !rule.srcAny && q.src !in rule.srcPeers {
        continue;
      }
      var found := PortsMatchScan(rule.ports, q);
      if found {
        if q.dst in cp.outboundOnly {
          return Decision(Deny, -1, true);
        }
        return Decision(Allow, rule.ruleIndex, false);
      }
    }
    if q.dst !in cp.knownPeers {
      return Decision(cp.defaultAction, -1, false);
    }
    if q.dst in cp.outboundOnly {
      return Decision(Deny, -1, true);
    }
    return Decision(cp.defaultAction, -1, false);
  }

  lemma CompiledMatchesIff(p: Policy, cp: CompiledPolicy, q: Query, i: nat)
    requires Compiled(p, cp) && i < |p.rules|
    ensures CompiledMatches(cp.rules[i], q) <==> RuleMatches(p, p.rules[i], q)
  {
    assert RuleCompiled(p, i, cp.rules[i]);
  }

  lemma {:induction false} ScanDecides(p: Policy, cp: CompiledPolicy, q: Query, i: nat)
    requires Compiled(p, cp) && i <= |p.rules|
    requires forall j :: 0 <= j < i ==> !RuleMatches(p, p.rules[j], q)
    ensures Decides(p, q, DecideFrom(cp, q, i))
    decreases |p.rules| - i
  {
    if i < |p.rules| {
      CompiledMatchesIff(p, cp, q, i);
      assert RuleCompiled(p, i, cp.rules[i]);
      if !RuleMatches(p, p.rules[i], q) {
        ScanDecides(p, cp, q, i + 1);
      }
    }
  }

  /** Compiling keeps the meaning: for every policy and packet the compiled decision is the one the policy calls for. */
  lemma CompilePreservesMeaning(p: Policy, cp: CompiledPolicy, q: Query)
    requires Compiled(p, cp)
    ensures forall d :: Decides(p, q, d) <==> d == DecideFrom(cp, q, 0)
  {
    ScanDecides(p, cp, q, 0);
    forall d | Decides(p, q, d) ensures d == DecideFrom(cp, q, 0) {
      DecidesUnique(p, q, d, DecideFrom(cp, q, 0));
    }
  }

  // ----- Combining a local and a network policy

  datatype Decider = Single(cp: CompiledPolicy) | Both(local: Decider, network: Decider)

  function DecideBy(decider: Decider, q: Query): Decision {
    match decider
    case Single(cp) => DecideFrom(cp, q, 0)
    case Both(local, network) =>
      var l := DecideBy(local, q);
      if l.action == Deny then l
      else
        var n := DecideBy(network, q);
        if n.action == Deny then n
        else if l.ruleIndex >= 0 then l
        else n
  }

  /** A missing side defers to the other. */
  function Combine(local: Option<Decider>, network: Option<Decider>): Option<Decider> {
    if local.None? then network
    else if network.None? then local
    else Some(Both(local.value, network.value))
  }

  /** The policies a decider is put together from. */
  ghost function Leaves(decider: Decider): set<CompiledPolicy> {
    match decider
    case Single(cp) => {cp}
    case Both(local, network) => Leaves(local) + Leaves(network)
  }

  /** A packet passes a combination, however nested, exactly when every policy in it lets the packet pass. */
  lemma {:induction false} PassesIffAllAllow(decider: Decider, q: Query)
    ensures DecideBy(decider, q).action == Allow
            <==> forall cp :: cp in Leaves(decider) ==> DecideFrom(cp, q, 0).action == Allow
  {
    match decider
    case Single(cp) =>
      assert cp in Leaves(decider);
    case Both(local, network) =>
      PassesIffAllAllow(local, q);
      PassesIffAllAllow(network, q);
      assert forall cp :: cp in Leaves(decider) <==> cp in Leaves(local) || cp in Leaves(network);
  }

  /**
   Under a policy that denies by default, a TCP or UDP packet to a peer that takes inbound
   connections is allowed exactly when some rule covers both its ends and has a range for
   any protocol, or one for its own protocol that reaches from at most its port to at least
   its port.
   */
  lemma DefaultDenyAllowsIff(p: Policy, cp: CompiledPolicy, q: Query)
    requires Compiled(p, cp) && p.default == Deny && q.proto in {6, 17} && !IsOutboundOnly(p, q.dst)
    ensures DecideFrom(cp, q, 0).action == Allow <==>
              exists rule <- p.rules ::
                && Covers(p, rule.from, q.src) && Covers(p, rule.to, q.dst)
                && exists pr <- rule.ports :: pr.proto == 255 || (pr.proto == q.proto && pr.start <= q.port <= pr.end)
  {
    hide Covers, Compiled, DecideFrom;
    CompilePreservesMeaning(p, cp, q);
    var d := DecideFrom(cp, q, 0);
    assert Decides(p, q, d);
    if rule :| rule in p.rules && RuleMatches(p, rule, q) {
      var i :| 0 <= i < |p.rules| && p.rules[i] == rule;
    }
  }

  /** What a subject stands for, by how it is written. */
  lemma SubjectsByForm(p: Policy, name: string, key: PeerKey)
    ensures Covers(p, "*", key)
    ensures Covers(p, "tag:" + name, key) <==> name in p.tags && exists n <- p.tags[name] :: n in p.peers && p.peers[n] == key
    ensures name != "*" && !("tag:" <= name) ==> (Covers(p, name, key) <==> name in p.peers && p.peers[name] == key)
  {
    var tag := "tag:" + name;
    assert tag[..4] == "tag:" && tag[4..] == name && |tag| != |"*"|;
    if name in p.tags {
      assert (exists n <- p.tags[name] :: Names(p, n, key)) <==> exists n <- p.tags[name] :: n in p.peers && p.peers[n] == key;
    }
  }

  /** A combination's decision is one of its sides', the local one's whenever that denies or has matched a rule that the network lets pass. */
  lemma CombinedDecision(local: Decider, network: Decider, q: Query)
    ensures var d, l, n := DecideBy(Both(local, network), q), DecideBy(local, q), DecideBy(network, q);
            && d in {l, n}
            && (l.action == Deny ==> d == l)
            && (l.action == Allow && n.action == Deny ==> d == n)
            && (d.action == Allow && d.ruleIndex < 0 ==> l.ruleIndex < 0 && n.ruleIndex < 0)
            && (l.action == Allow && n.action == Allow && l.ruleIndex >= 0 ==> d == l)
  {}

  /** `Combine` loses no policy: its leaves are those of the sides that are there. */
  lemma CombineKeepsAll(local: Option<Decider>, network: Option<Decider>, q: Query)
    ensures var c := Combine(local, network);
            && (c.None? <==> local.None? && network.None?)
            && (c.Some? ==>
                  (DecideBy(c.value, q).action == Allow
                   <==> (local.Some? ==> DecideBy(local.value, q).action == Allow)
                        && (network.Some? ==> DecideBy(network.value, q).action == Allow)))
  {}

  // ----- Validated policies

  ghost predicate ValidSubject(p: Policy, subject: string) {
    || subject == "*"
    || (if IsTag(subject) then subject[4..] in p.tags else subject in p.peers)
  }

  /** What policy validation guarantees of an accepted file. */
  ghost predicate Valid(p: Policy) {
    && p.peers != map[]
    && (forall t :: t in p.tags ==> p.tags[t] != [] && forall name <- p.tags[t] :: name in p.peers)
    && (forall r <- p.rules :: r.ports != [] && ValidSubject(p, r.from) && ValidSubject(p, r.to))
    && (forall r <- p.rules :: forall pr <- r.ports :: pr.start <= pr.end)
    && (forall name <- p.outboundOnly :: name in p.peers)
  }

  lemma SubjectCoversSomeone(p: Policy, subject: string) returns (key: PeerKey)
    requires Valid(p) && ValidSubject(p, subject)
    ensures Covers(p, subject, key)
  {
    if subject == "*" {
      key := ZERO_KEY;
    } else if IsTag(subject) {
      var name := p.tags[subject[4..]][0];
      key := p.peers[name];
      assert name in p.tags[subject[4..]] && Names(p, name, key);
    } else {
      key := p.peers[subject];
    }
  }

  // ----- The "can never match" warning

  /** The peers validation takes a subject to stand for; here "*" is every peer the policy names. */
  ghost function Stands(p: Policy, subject: string): set<PeerKey> {
    set key | key in p.peers.Values && Covers(p, subject, key)
  }

  /** Validation warns about a rule whose ends are one and the same peer or have no peer in common. */
  ghost predicate Warned(p: Policy, rule: Rule) {
    var from, to := Stands(p, rule.from), Stands(p, rule.to);
    || (|from| == 1 && |to| == 1 && !(from !! to))
    || (from != {} && to != {} && from !! to)
  }

  method ResolveKnown(subject: string, p: Policy) returns (keys: set<PeerKey>)
    ensures keys == Stands(p, subject)
  {
    if subject == "*" {
      return p.peers.Values;
    }
    keys := ResolveSubject(subject, p);
    forall key | Covers(p, subject, key) ensures key in p.peers.Values {
      CoveredIsNamed(p, subject, key);
    }
  }

  lemma CoveredIsNamed(p: Policy, subject: string, key: PeerKey)
    requires subject != "*" && Covers(p, subject, key)
    ensures key in p.peers.Values
  {
    if IsTag(subject) {
      var name :| name in p.tags[subject[4..]] && Names(p, name, key);
      assert p.peers[name] in p.peers.Values;
    } else {
      assert p.peers[subject] in p.peers.Values;
    }
  }

  /** The program looks for a key of `from` in `to`, one by one. */
  method SharesKey(from: set<PeerKey>, to: set<PeerKey>) returns (shares: bool)
    ensures shares <==> !(from !! to)
  {
    var todo := from;
    while todo != {}
      invariant todo <= from && (from - todo) !! to
      decreases todo
    {
      var k :| k in todo;
      todo := todo - {k};
      if k in to {
        return true;
      }
    }
    return false;
  }

  method IsUnmatchable(rule: Rule, p: Policy) returns (warn: bool)
    ensures warn <==> Warned(p, rule)
  {
    var fromSet := ResolveKnown(rule.from, p);
    var toSet := ResolveKnown(rule.to, p);
    if |fromSet| == 1 && |toSet| == 1 {
      var same := SharesKey(fromSet, toSet);
      if same {
        return true;
      }
    }
    if |fromSet| > 0 && |toSet| > 0 {
      var overlap := SharesKey(fromSet, toSet);
      if !overlap {
        return true;
      }
    }
    return false;
  }

  /** The subject covers this key and no other. */
  ghost predicate CoversOnly(p: Policy, subject: string, key: PeerKey) {
    forall k :: Covers(p, subject, k) <==> k == key
  }

  /** Some packet between two different peers matches; the filter never asks about one peer at both ends. */
  ghost predicate CanMatch(p: Policy, rule: Rule) {
    exists q :: RuleMatches(p, rule, q) && q.src != q.dst
  }

  /** If the subject covers more than `key`, another key that it covers. */
  lemma AnotherCovered(p: Policy, subject: string, key: PeerKey) returns (other: PeerKey)
    requires Valid(p) && ValidSubject(p, subject) && !CoversOnly(p, subject, key)
    ensures other != key && Covers(p, subject, other)
  {
    if Covers(p, subject, key) {
      other :| other != key && Covers(p, subject, other);
    } else {
      other := SubjectCoversSomeone(p, subject);
    }
  }

  lemma MatchBetween(p: Policy, rule: Rule, src: PeerKey, dst: PeerKey)
    requires Valid(p) && rule in p.rules && Covers(p, rule.from, src) && Covers(p, rule.to, dst) && src != dst
    ensures CanMatch(p, rule)
  {
    var pr := rule.ports[0];
    assert pr in rule.ports;
    assert RuleMatches(p, rule, Query(src, dst, pr.proto, pr.start));
  }

  /** A rule of a valid policy matches no packet exactly when both its ends cover one and the same peer only. */
  lemma UnmatchableIff(p: Policy, i: nat)
    requires Valid(p) && i < |p.rules|
    ensures !CanMatch(p, p.rules[i]) <==> exists k :: CoversOnly(p, p.rules[i].from, k) && CoversOnly(p, p.rules[i].to, k)
  {
    hide CoversOnly, Covers;
    var rule := p.rules[i];
    assert rule in p.rules;
    var src := SubjectCoversSomeone(p, rule.from);
    if CoversOnly(p, rule.from, src) && CoversOnly(p, rule.to, src) {
      OnlyOneCovered(p, rule, src);
    } else if !CoversOnly(p, rule.to, src) {
      var dst := AnotherCovered(p, rule.to, src);
      MatchBetween(p, rule, src, dst);
      OnlyIsSame(p, rule, src, dst);
    } else {
      var other := AnotherCovered(p, rule.from, src);
      IsCovered(p, rule.to, src);
      MatchBetween(p, rule, other, src);
      OnlyIsSame(p, rule, other, src);
    }
  }

  lemma IsCovered(p: Policy, subject: string, key: PeerKey)
    requires CoversOnly(p, subject, key)
    ensures Covers(p, subject, key)
  {}

  lemma OnlyOneCovered(p: Policy, rule: Rule, key: PeerKey)
    requires CoversOnly(p, rule.from, key) && CoversOnly(p, rule.to, key)
    ensures !CanMatch(p, rule)
  {}

  lemma OnlyIsSame(p: Policy, rule: Rule, src: PeerKey, dst: PeerKey)
    requires Covers(p, rule.from, src) && Covers(p, rule.to, dst) && src != dst
    ensures !exists k :: CoversOnly(p, rule.from, k) && CoversOnly(p, rule.to, k)
  {}

  /** The wildcard covers more than one key. */
  lemma WildcardIsNotOne(p: Policy, key: PeerKey)
    ensures !CoversOnly(p, "*", key)
  {
    var other: PeerKey := key[0 := if key[0] == 0 then 1 else 0];
    assert Covers(p, "*", other) && other[0] != key[0];
  }

  lemma OnlyStands(p: Policy, subject: string, key: PeerKey)
    requires CoversOnly(p, subject, key)
    ensures Stands(p, subject) == {key} && subject != "*"
  {
    if subject == "*" {
      WildcardIsNotOne(p, key);
      assert false;
    }
    CoveredIsNamed(p, subject, key);
  }

  lemma StandsOnly(p: Policy, subject: string, key: PeerKey)
    requires Stands(p, subject) == {key} && subject != "*"
    ensures CoversOnly(p, subject, key)
  {
    assert key in Stands(p, subject);
    forall k | Covers(p, subject, k) ensures k == key {
      CoveredIsNamed(p, subject, k);
      assert k in Stands(p, subject);
    }
  }

  /** What is alone in a set of one. */
  lemma OneAlone(s: set<PeerKey>, key: PeerKey)
    requires |s| == 1 && key in s
    ensures s == {key}
  {
    assert |s - {key}| == 0;
  }

  /** Every rule between ends without a peer in common is warned about, though it can match. */
  lemma DisjointIsWarned(p: Policy, i: nat)
    requires Valid(p) && i < |p.rules|
    requires forall k: PeerKey :: !(Covers(p, p.rules[i].from, k) && Covers(p, p.rules[i].to, k))
    ensures Warned(p, p.rules[i]) && CanMatch(p, p.rules[i])
  {
    var rule := p.rules[i];
    assert rule in p.rules;
    var src := SubjectCoversSomeone(p, rule.from);
    var dst := SubjectCoversSomeone(p, rule.to);
    assert Covers(p, "*", src) && Covers(p, "*", dst);
    CoveredIsNamed(p, rule.from, src);
    CoveredIsNamed(p, rule.to, dst);
    assert src in Stands(p, rule.from) && dst in Stands(p, rule.to);
    MatchBetween(p, rule, src, dst);
  }

  /**
   Every rule that can never match is warned about. A warning is right exactly when the
   two ends share their one peer and neither is the wildcard; a warning about ends without
   a common peer is always wrong.
   */
  lemma WarningRightIff(p: Policy, i: nat)
    requires Valid(p) && i < |p.rules|
    ensures !CanMatch(p, p.rules[i]) ==> Warned(p, p.rules[i])
    ensures Warned(p, p.rules[i]) ==>
              (!CanMatch(p, p.rules[i]) <==>
                 && !(Stands(p, p.rules[i].from) !! Stands(p, p.rules[i].to))
                 && p.rules[i].from != "*" && p.rules[i].to != "*")
  {
    hide Covers, CoversOnly, Stands, CanMatch;
    var rule := p.rules[i];
    var from, to := Stands(p, rule.from), Stands(p, rule.to);
    UnmatchableIff(p, i);
    if !CanMatch(p, rule) {
      var k :| CoversOnly(p, rule.from, k) && CoversOnly(p, rule.to, k);
      OnlyStands(p, rule.from, k);
      OnlyStands(p, rule.to, k);
      assert k in from && k in to;
    }
    if Warned(p, rule) && !(from !! to) && rule.from != "*" && rule.to != "*" {
      var k :| k in from && k in to;
      OneAlone(from, k);
      OneAlone(to, k);
      StandsOnly(p, rule.from, k);
      StandsOnly(p, rule.to, k);
    }
  }
}
