/**
 The stateful filter on decrypted inbound packets: a packet that starts a flow is put
 to the access policy; any other packet passes only if it belongs to a flow that is
 established in the flow table.
 */
module InboundFilter {
  import opened Wrappers
  import opened Flows
  import opened Packets
  import opened AclPolicy
  import opened FlowRecency
  import FlowTable

  /** The data plane's filter state, with the node's own key and table limits. */
  datatype Plane = Plane(self: PeerKey, cfg: Config, policy: Option<Decider>, flows: Contents)

  ghost predicate Allowed(p: Plane, src: PeerKey, f: Flow) {
    p.policy.None? || DecideBy(p.policy.value, Query(src, p.self, f.proto, f.dstPort)).action == Allow
  }

  /** A live record under `key` is established. */
  ghost predicate Open(p: Plane, key: FlowKey, at: int) {
    var r := Live(p.cfg, p.flows, key, at);
    r.Some? && r.value.state == Established
  }

  /** Whether a packet from peer `src` is delivered. With no policy set, everything is. */
  ghost predicate Delivered(p: Plane, src: PeerKey, pkt: Bytes, at: int) {
    if p.policy.None? then true
    else
      var parsed := ParsePacket(pkt);
      parsed.Ok? &&
      var (f, kind) := parsed.value;
      if kind == Start then Allowed(p, src, f) else Open(p, KeyOf(f), at)
  }

  /** The table after the filter has looked the packet's flow up. */
  ghost function Examined(p: Plane, src: PeerKey, pkt: Bytes, at: int): Contents
    requires p.cfg.Valid()
  {
    var parsed := ParsePacket(pkt);
    if p.policy.None? || parsed.Err? then p.flows
    else
      var (f, kind) := parsed.value;
      if kind == Start then
        if Allowed(p, src, f) then Lookup(p.cfg, p.flows, f, true, Established, at) else p.flows
      else Lookup(p.cfg, p.flows, f, false, New, at)
  }

  /** What the filter does to the table after delivering: a FIN or RST closes the flow, other packets stamp it again. */
  ghost function Settled(p: Plane, pkt: Bytes, later: int): Contents {
    var parsed := ParsePacket(pkt);
    if p.policy.None? || parsed.Err? || parsed.value.1 == Start then p.flows
    else if parsed.value.1 == End then UpdateState(p.cfg, p.flows, parsed.value.0, Closing, later)
    else Touch(p.flows, later)
  }

  /** One inbound packet from lookup to delivery, as the receive loop runs it. */
  method HandleInbound(table: FlowTable.FlowTable, ghost p: Plane, policy: Option<Decider>, self: PeerKey,
                       src: PeerKey, pkt: Bytes, now: int, later: int, contended: nat -> set<nat>) returns (delivered: bool)
    requires table.Valid() && FlowTable.Fair(contended)
    requires p == Plane(self, table.config, policy, table.Contents())
    modifies table`flowCount, table.shards, table.list, table.list.order
    ensures table.Valid()
    ensures delivered <==> Delivered(p, src, pkt, now)
    ensures var q := p.(flows := Examined(p, src, pkt, now));
            table.Contents() == if delivered then Settled(q, pkt, later) else q.flows
  {
    hide FlowTable.EvictList.Valid, FlowTable.InStep, FlowTable.Total, FlowTable.Values, KeyOf, ParsePacket, IndexOf;
    if policy.None? {
      return true;
    }
    var parsed := ParsePacket(pkt);
    if parsed.Err? {
      return false;
    }
    var (f, kind) := parsed.value;
    if kind == Start {
      var dec := DecideBy(policy.value, Query(src, self, f.proto, f.dstPort));
      if dec.action == Deny {
        return false;
      }
      var _, _, _ := table.Lookup(f, true, Established, now, contended);
      return true;
    }
    delivered := FollowFlow(table, p, f, kind, now, later, contended);
  }

  /** A packet that starts nothing passes only if its flow is established. */
  method FollowFlow(table: FlowTable.FlowTable, ghost p: Plane, f: Flow, kind: Kind, now: int, later: int, contended: nat -> set<nat>)
    returns (delivered: bool)
    requires table.Valid() && kind != Start && FlowTable.Fair(contended)
    requires p.cfg == table.config && p.flows == table.Contents()
    modifies table`flowCount, table.shards, table.list, table.list.order
    ensures table.Valid()
    ensures delivered <==> Open(p, KeyOf(f), now)
    ensures var looked := Lookup(p.cfg, p.flows, f, false, New, now);
            table.Contents() == if !delivered then looked
                                else if kind == End then UpdateState(p.cfg, looked, f, Closing, later)
                                else Touch(looked, later)
  {
    hide FlowTable.EvictList.Valid, FlowTable.InStep, FlowTable.Total, FlowTable.Values, KeyOf, IndexOf, Lookup, UpdateState;
    var entry, _, created := table.Lookup(f, false, New, now, contended);
    LookupFront(p.cfg, p.flows, f, now);
    if entry == null {
      return false;
    }
    FlowTable.ValuesAt(table.list.order);
    if created || entry.state != Established {
      return false;
    }
    if kind == End {
      var _ := table.UpdateState(f, Closing, later);
    } else {
      Restamp(table, entry, later);
    }
    return true;
  }

  /** The filter's own write of the time stamp, past the table's lock and list. */
  method Restamp(table: FlowTable.FlowTable, entry: FlowTable.FlowEntry, later: int)
    requires table.Valid() && table.list.order != [] && table.list.order[0] == entry
    modifies entry`lastSeen
    ensures table.Valid() && table.Contents() == Touch(old(table.Contents()), later)
  {
    hide FlowTable.EvictList.Valid, FlowTable.InStep, FlowTable.Total, FlowTable.Values, KeyOf;
    ghost var rest := table.list.order[1..];
    table.list.OrderDistinct();
    assert table.list.order == [entry] + rest && entry !in rest;
    FlowTable.ValuesFront(entry, rest);
    entry.lastSeen := later;
    FlowTable.ValuesFront(entry, rest);
  }

  /** A lookup that creates nothing leaves the live record, unchanged but for its time, at the front. */
  lemma LookupFront(cfg: Config, c: Contents, f: Flow, now: int)
    requires cfg.Valid()
    ensures var r := Live(cfg, c, KeyOf(f), now);
            r.Some? ==>
              var d := Lookup(cfg, c, f, false, New, now);
              d != [] && d[0] == r.value.(lastSeen := now)
  {}

  // ----- Outbound packets

  /** The policy lets the node send packets of this flow to the peer; the flow table has no say. */
  ghost predicate AllowedOut(p: Plane, dst: PeerKey, f: Flow) {
    p.policy.None? || f.proto == 0 || DecideBy(p.policy.value, Query(p.self, dst, f.proto, f.dstPort)).action == Allow
  }

  /** Whether a packet for peer `dst` gets past the outbound check. */
  ghost predicate LetOut(p: Plane, dst: PeerKey, pkt: Bytes) {
    ParsePacket(pkt).Ok? && AllowedOut(p, dst, ParsePacket(pkt).value.0)
  }

  /** The packet is sent and starts a flow. `ready` tells that there is a usable session and an endpoint. */
  ghost predicate StartsOut(p: Plane, dst: PeerKey, pkt: Bytes, ready: bool) {
    LetOut(p, dst, pkt) && ready && ParsePacket(pkt).value.1 == Start
  }

  /** The table after an outbound packet. */
  ghost function Tracked(p: Plane, dst: PeerKey, pkt: Bytes, ready: bool, at: int): Contents
    requires p.cfg.Valid()
  {
    if StartsOut(p, dst, pkt, ready) then Lookup(p.cfg, p.flows, ParsePacket(pkt).value.0, true, New, at) else p.flows
  }

  /** One packet from the TUN device, from parsing to sending. */
  method HandleOutbound(table: FlowTable.FlowTable, ghost p: Plane, policy: Option<Decider>, self: PeerKey,
                        dst: PeerKey, pkt: Bytes, ready: bool, now: int, contended: nat -> set<nat>)
    returns (sent: bool, rejected: bool)
    requires table.Valid() && FlowTable.Fair(contended)
    requires p == Plane(self, table.config, policy, table.Contents())
    modifies table`flowCount, table.shards, table.list, table.list.order
    ensures table.Valid()
    ensures sent <==> LetOut(p, dst, pkt) && ready
    ensures rejected <==> ParsePacket(pkt).Ok? && !LetOut(p, dst, pkt)
    ensures table.Contents() == Tracked(p, dst, pkt, ready, now)
  {
    hide FlowTable.EvictList.Valid, FlowTable.InStep, FlowTable.Total, FlowTable.Values, KeyOf, ParsePacket, IndexOf, Lookup;
    var parsed := ParsePacket(pkt);
    if parsed.Err? {
      return false, false;
    }
    var (f, kind) := parsed.value;
    if policy.Some? && f.proto != 0 {
      var dec := DecideBy(policy.value, Query(self, dst, f.proto, f.dstPort));
      if dec.action == Deny {
        return false, true;
      }
    }
    if !ready {
      return false, false;
    }
    if kind == Start {
      var _, _, _ := table.Lookup(f, true, New, now, contended);
    }
    return true, false;
  }

  // ----- Runs

  /**
   The steps of the data plane, each atomic. `Close` and `Stamp` are the second half of
   an inbound packet's handling; they, and the send loop's and the sweeper's steps, may
   fall anywhere between other steps.
   */
  datatype Event =
    | SetPolicy(decider: Decider)
    | Inbound(src: PeerKey, pkt: Bytes, at: int)
    | Close(flow: Flow, at: int)
    | Stamp(key: FlowKey, at: int)
    | Outbound(dst: PeerKey, pkt: Bytes, ready: bool, at: int)
    | Sweep(at: int)
    | Remove(key: FlowKey)

  ghost function Stamped(c: Contents, key: FlowKey, at: int): Contents {
    var i := IndexOf(c, key);
    if i < |c| then c[i := c[i].(lastSeen := at)] else c
  }

  ghost function Next(p: Plane, e: Event): Plane
    requires p.cfg.Valid()
  {
    match e
    case SetPolicy(decider) => p.(policy := Some(decider))
    case Inbound(src, pkt, at) => p.(flows := Examined(p, src, pkt, at))
    case Close(f, at) => p.(flows := UpdateState(p.cfg, p.flows, f, Closing, at))
    case Stamp(key, at) => p.(flows := Stamped(p.flows, key, at))
    case Outbound(dst, pkt, ready, at) => p.(flows := Tracked(p, dst, pkt, ready, at))
    case Sweep(at) => p.(flows := ExpireOldFlows(p.cfg, p.flows, at))
    case Remove(key) => p.(flows := RemoveFlow(p.flows, key))
  }

  /** The state after the first `i` events. */
  ghost function StateAt(p: Plane, events: seq<Event>, i: nat): (q: Plane)
    requires p.cfg.Valid() && i <= |events|
    ensures q.cfg == p.cfg && q.self == p.self
  {
    if i == 0 then p else Next(StateAt(p, events, i - 1), events[i - 1])
  }

  /** Handling a packet is its lookup and, if it is delivered and starts nothing, one more event: a close or a stamp. */
  lemma HandledAsEvents(p: Plane, src: PeerKey, pkt: Bytes, now: int, later: int)
    requires p.cfg.Valid() && p.policy.Some? && Delivered(p, src, pkt, now)
    ensures var q := Next(p, Inbound(src, pkt, now));
            var (f, kind) := ParsePacket(pkt).value;
            Settled(q, pkt, later) ==
              (if kind == Start then q
               else if kind == End then Next(q, Close(f, later))
               else Next(q, Stamp(KeyOf(f), later))).flows
  {
    hide KeyOf, ParsePacket, UpdateState;
    var (f, kind) := ParsePacket(pkt).value;
    if kind != Start {
      LookupFront(p.cfg, p.flows, f, now);
      var d := Lookup(p.cfg, p.flows, f, false, New, now);
      assert IndexOf(d, KeyOf(f)) == 0;
      assert d[0 := d[0].(lastSeen := later)] == [d[0].(lastSeen := later)] + d[1..];
    }
  }

  /** Some record under `key` is established. */
  ghost predicate HasEstablished(c: Contents, key: FlowKey) {
    exists r <- c :: KeyOf(r.flow) == key && r.state == Established
  }

  /** The event is an inbound packet that starts a flow with this key, and the policy in force allows it. */
  ghost predicate AllowedStart(p: Plane, e: Event, key: FlowKey) {
    && e.Inbound? && p.policy.Some?
    && var parsed := ParsePacket(e.pkt);
    && parsed.Ok? && parsed.value.1 == Start && KeyOf(parsed.value.0) == key
    && Allowed(p, e.src, parsed.value.0)
  }

  /** A lookup establishes a flow only if asked to, and only the flow looked up. */
  lemma LookupEstablishes(cfg: Config, c: Contents, f: Flow, create: bool, initial: FlowState, at: int, key: FlowKey)
    requires cfg.Valid()
    requires HasEstablished(Lookup(cfg, c, f, create, initial, at), key)
    ensures HasEstablished(c, key) || (initial == Established && KeyOf(f) == key)
  {
    hide KeyOf;
    var d := Lookup(cfg, c, f, create, initial, at);
    var i := IndexOf(c, KeyOf(f));
    var r :| r in d && KeyOf(r.flow) == key && r.state == Established;
    if Live(cfg, c, KeyOf(f), at).Some? {
      assert r == Promoted(c[i], at, initial) || r in c;
      assert c[i] in c;
    } else {
      assert r in c || r.state == initial;
    }
  }

  lemma UpdateEstablishes(cfg: Config, c: Contents, f: Flow, at: int, key: FlowKey)
    requires HasEstablished(UpdateState(cfg, c, f, Closing, at), key)
    ensures HasEstablished(c, key)
  {
    hide KeyOf;
    var d := UpdateState(cfg, c, f, Closing, at);
    var r :| r in d && KeyOf(r.flow) == key && r.state == Established;
    assert r in c;
  }

  lemma OthersEstablishNothing(p: Plane, e: Event, key: FlowKey)
    requires p.cfg.Valid() && (e.Stamp? || e.Sweep? || e.Remove? || e.SetPolicy?)
    requires HasEstablished(Next(p, e).flows, key)
    ensures HasEstablished(p.flows, key)
  {
    hide KeyOf;
    var r :| r in Next(p, e).flows && KeyOf(r.flow) == key && r.state == Established;
    match e
    case Stamp(k, at) =>
      var i := IndexOf(p.flows, k);
      if r !in p.flows {
        assert p.flows[i] in p.flows;
      }
    case Sweep(at) =>
      ExpireKeeps(p.cfg, p.flows, at);
    case Remove(k) =>
      assert r in p.flows;
    case SetPolicy(d) =>
  }

  /** Only an allowed inbound start makes a flow established. */
  lemma OnlyAllowedStartsEstablish(p: Plane, e: Event, key: FlowKey)
    requires p.cfg.Valid()
    requires HasEstablished(Next(p, e).flows, key) && !HasEstablished(p.flows, key)
    ensures AllowedStart(p, e, key)
  {
    hide KeyOf, ParsePacket, IndexOf, HasEstablished, Lookup, UpdateState;
    match e
    case Inbound(src, pkt, at) =>
      var parsed := ParsePacket(pkt);
      if p.policy.Some? && parsed.Ok? {
        var (f, kind) := parsed.value;
        if kind == Start {
          if Allowed(p, src, f) {
            LookupEstablishes(p.cfg, p.flows, f, true, Established, at, key);
          }
        } else {
          LookupEstablishes(p.cfg, p.flows, f, false, New, at, key);
        }
      }
    case Outbound(dst, pkt, ready, at) =>
      if StartsOut(p, dst, pkt, ready) {
        LookupEstablishes(p.cfg, p.flows, ParsePacket(pkt).value.0, true, New, at, key);
      }
    case Close(f, at) => UpdateEstablishes(p.cfg, p.flows, f, at, key);
    case _ => OthersEstablishNothing(p, e, key);
  }

  /** Event `j` started the flow and the flow has been established ever since, up to state `i`. */
  ghost predicate Admitted(p: Plane, events: seq<Event>, j: nat, i: nat, key: FlowKey)
    requires p.cfg.Valid() && i <= |events|
  {
    && j < i && AllowedStart(StateAt(p, events, j), events[j], key)
    && forall m :: j < m <= i ==> HasEstablished(StateAt(p, events, m).flows, key)
  }

  lemma {:induction false} EstablishedWasAdmitted(p: Plane, events: seq<Event>, i: nat, key: FlowKey)
    requires p.cfg.Valid() && p.flows == [] && i <= |events|
    requires HasEstablished(StateAt(p, events, i).flows, key)
    ensures exists j :: Admitted(p, events, j, i, key)
  {
    hide AllowedStart, HasEstablished, Next;
    if i == 0 {
      assert !HasEstablished([], key) by { NothingEstablished(key); }
    } else if HasEstablished(StateAt(p, events, i - 1).flows, key) {
      EstablishedWasAdmitted(p, events, i - 1, key);
      var j :| Admitted(p, events, j, i - 1, key);
      assert Admitted(p, events, j, i, key);
    } else {
      OnlyAllowedStartsEstablish(StateAt(p, events, i - 1), events[i - 1], key);
      assert Admitted(p, events, i - 1, i, key);
    }
  }

  lemma NothingEstablished(key: FlowKey)
    ensures !HasEstablished([], key)
  {}

  /**
   Over every run that starts with an empty table: a packet delivered while a policy is
   set either starts a flow that the policy then in force allows, or belongs to a live
   established flow that an earlier inbound start, allowed by the policy in force at that
   moment, established, and that has stayed established since.
   */
  lemma DeliveredWasAllowed(p: Plane, events: seq<Event>, i: nat)
    requires p.cfg.Valid() && p.flows == []
    requires i < |events| && events[i].Inbound? && StateAt(p, events, i).policy.Some?
    requires Delivered(StateAt(p, events, i), events[i].src, events[i].pkt, events[i].at)
    ensures var now := StateAt(p, events, i);
            var parsed := ParsePacket(events[i].pkt);
            && parsed.Ok?
            && var key := KeyOf(parsed.value.0);
            && (parsed.value.1 == Start ==> AllowedStart(now, events[i], key))
            && (parsed.value.1 != Start ==> Open(now, key, events[i].at) && exists j :: Admitted(p, events, j, i, key))
  {
    hide KeyOf, ParsePacket, IndexOf;
    var now := StateAt(p, events, i);
    var (f, kind) := ParsePacket(events[i].pkt).value;
    if kind != Start {
      var r := Live(now.cfg, now.flows, KeyOf(f), events[i].at).value;
      assert r in now.flows && KeyOf(r.flow) == KeyOf(f) by {
        IndexFinds(now.flows, KeyOf(f));
      }
      EstablishedWasAdmitted(p, events, i, KeyOf(f));
    }
  }

  lemma IndexFinds(c: Contents, key: FlowKey)
    ensures var i := IndexOf(c, key); i < |c| ==> c[i] in c && KeyOf(c[i].flow) == key
  {}

  // ----- Closing flows

  /**
   An allowed start leaves its flow open exactly when no live record of the flow was
   closing or closed: a FIN or RST is never undone by a new connection on the same ports.
   */
  lemma StartOpensUnlessClosing(p: Plane, src: PeerKey, pkt: Bytes, at: int)
    requires p.cfg.Valid() && p.policy.Some?
    requires ParsePacket(pkt).Ok? && ParsePacket(pkt).value.1 == Start && Allowed(p, src, ParsePacket(pkt).value.0)
    ensures var key := KeyOf(ParsePacket(pkt).value.0);
            var before := Live(p.cfg, p.flows, key, at);
            Open(Next(p, Inbound(src, pkt, at)), key, at)
            <==> before.None? || before.value.state in {New, Established}
  {
    hide KeyOf, ParsePacket;
    var f := ParsePacket(pkt).value.0;
    var q := Next(p, Inbound(src, pkt, at));
    assert q.flows[0].lastSeen == at && KeyOf(q.flows[0].flow) == KeyOf(f);
    assert IndexOf(q.flows, KeyOf(f)) == 0;
  }
}
