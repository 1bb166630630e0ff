/**
 The flow table under the data plane's two loops and its sweeper, over whole runs of the
 inbound filter's events: when the table keeps its order, how long a closing flow stays
 closed, and what becomes of replies.
 */
module FlowRuns {
  import opened Wrappers
  import opened Flows
  import opened Packets
  import opened PacketLaws
  import opened AclPolicy
  import opened FlowRecency
  import opened InboundFilter

  // ----- What an event does to the table

  /** The flow the event looks up in the table, if it is one that looks a flow up. */
  ghost function LookedUp(p: Plane, e: Event): Option<Flow> {
    match e
    case Inbound(src, pkt, at) =>
      var parsed := ParsePacket(pkt);
      if p.policy.None? || parsed.Err? || (parsed.value.1 == Start && !Allowed(p, src, parsed.value.0)) then None
      else Some(parsed.value.0)
    case Outbound(dst, pkt, ready, _) => if StartsOut(p, dst, pkt, ready) then Some(ParsePacket(pkt).value.0) else None
    case Close(f, _) => Some(f)
    case _ => None
  }

  /** The event enters the flow it looks up if the table does not have it. */
  ghost predicate Creates(e: Event) {
    e.Outbound? || (e.Inbound? && ParsePacket(e.pkt).Ok? && ParsePacket(e.pkt).value.1 == Start)
  }

  // ----- The order of the table

  /**
   The event's reading is not before that of the record it puts its own in front of; a
   stamp, which moves nothing, lies between the readings around it.
   */
  ghost predicate InPlace(p: Plane, e: Event)
    requires p.cfg.Valid()
  {
    if e.Stamp? then
      var i := IndexOf(p.flows, e.key);
      i == |p.flows| || ((i == 0 || p.flows[i - 1].lastSeen >= e.at) && Leads(e.at, p.flows[i + 1..]))
    else
      LookedUp(p, e).Some? ==> InFront(e.at, Behind(p.cfg, p.flows, LookedUp(p, e).value, Creates(e), e.at))
  }

  lemma InboundOrder(p: Plane, e: Event)
    requires Inv(p.cfg, p.flows) && e.Inbound?
    ensures p.cfg.Valid() && (Inv(p.cfg, Next(p, e).flows) <==> InPlace(p, e))
  {
    hide ParsePacket, KeyOf, Lookup, Inv, Behind, InFront, Allowed;
    var parsed := ParsePacket(e.pkt);
    InvParts(p.cfg, p.flows);
    if parsed.Ok? {
      LookupInv(p.cfg, p.flows, parsed.value.0, true, Established, e.at);
      LookupInv(p.cfg, p.flows, parsed.value.0, false, New, e.at);
    }
  }

  /** One event keeps the order exactly if it is in place. */
  lemma StepOrder(p: Plane, e: Event)
    requires Inv(p.cfg, p.flows)
    ensures p.cfg.Valid() && (Inv(p.cfg, Next(p, e).flows) <==> InPlace(p, e))
  {
    hide Inv, Lookup, UpdateState, Examined, RemoveFlow, ExpireOldFlows, KeyOf, ParsePacket, Behind, InFront, AllowedOut, Leads;
    InvParts(p.cfg, p.flows);
    match e
    case SetPolicy(_) =>
    case Inbound(_, _, _) => InboundOrder(p, e);
    case Close(f, at) => UpdateStateInv(p.cfg, p.flows, f, Closing, at);
    case Stamp(key, at) =>
      if IndexOf(p.flows, key) < |p.flows| {
        StampKeepsOrderIff(p.cfg, p.flows, IndexOf(p.flows, key), at);
      }
    case Outbound(dst, pkt, ready, at) =>
      if StartsOut(p, dst, pkt, ready) {
        LookupInv(p.cfg, p.flows, ParsePacket(pkt).value.0, true, New, at);
      }
    case Sweep(at) => ExpireInv(p.cfg, p.flows, at);
    case Remove(key) => RemoveInv(p.cfg, p.flows, key);
  }

  /** The table is in order in this state of the run. */
  ghost predicate InOrder(p: Plane, events: seq<Event>, i: nat)
    requires p.cfg.Valid() && i <= |events|
  {
    Inv(p.cfg, StateAt(p, events, i).flows)
  }

  /** Event `i` of the run is in place. */
  ghost predicate PlacedAt(p: Plane, events: seq<Event>, i: nat)
    requires p.cfg.Valid() && i < |events|
  {
    InPlace(StateAt(p, events, i), events[i])
  }

  lemma {:induction false} OrderKept(p: Plane, events: seq<Event>, i: nat)
    requires p.cfg.Valid() && Inv(p.cfg, p.flows) && i <= |events|
    requires forall j :: 0 <= j < i ==> PlacedAt(p, events, j)
    ensures InOrder(p, events, i)
  {
    hide InPlace, Next;
    if i > 0 {
      OrderKept(p, events, i - 1);
      assert PlacedAt(p, events, i - 1);
      StepOrder(StateAt(p, events, i - 1), events[i - 1]);
    }
  }

  /**
   Over every run, whatever the events have read: each state has unique keys, is sorted by
   last-seen time and respects the cap, if and only if every event is in place.
   */
  lemma OrderKeptIff(p: Plane, events: seq<Event>)
    requires p.cfg.Valid() && Inv(p.cfg, p.flows)
    ensures (forall i :: 0 <= i <= |events| ==> InOrder(p, events, i))
            <==> forall i :: 0 <= i < |events| ==> PlacedAt(p, events, i)
  {
    hide InPlace, Next, Inv;
    if forall i :: 0 <= i < |events| ==> PlacedAt(p, events, i) {
      forall i | 0 <= i <= |events| ensures InOrder(p, events, i) {
        OrderKept(p, events, i);
      }
    }
    if forall i :: 0 <= i <= |events| ==> InOrder(p, events, i) {
      forall i | 0 <= i < |events| ensures PlacedAt(p, events, i) {
        assert InOrder(p, events, i) && InOrder(p, events, i + 1);
        StepOrder(StateAt(p, events, i), events[i]);
      }
    }
  }

  // ----- The record of one flow

  function Find(c: Contents, key: FlowKey): Option<Record> {
    var i := IndexOf(c, key);
    if i < |c| then Some(c[i]) else None
  }

  lemma FindFront(r: Record, c: Contents, key: FlowKey)
    ensures Find([r] + c, key) == if KeyOf(r.flow) == key then Some(r) else Find(c, key)
  {
    hide KeyOf;
    if KeyOf(r.flow) != key {
      PrependIndex(r, c, key);
    }
  }

  lemma {:induction false} FindAppend(a: Contents, b: Contents, key: FlowKey)
    ensures Find(a + b, key) == if Find(a, key).Some? then Find(a, key) else Find(b, key)
  {
    hide KeyOf;
    if a == [] {
      assert a + b == b;
    } else {
      assert a + b == [a[0]] + (a[1..] + b) && a == [a[0]] + a[1..];
      FindAppend(a[1..], b, key);
      FindFront(a[0], a[1..] + b, key);
      FindFront(a[0], a[1..], key);
    }
  }

  lemma FindWithout(c: Contents, i: nat, key: FlowKey)
    requires i < |c|
    ensures KeyOf(c[i].flow) != key ==> Find(Without(c, i), key) == Find(c, key)
    ensures KeyOf(c[i].flow) == key && UniqueKeys(c) ==> Find(Without(c, i), key) == None
  {
    hide KeyOf;
    assert c == c[..i] + ([c[i]] + c[i + 1..]);
    FindAppend(c[..i], [c[i]] + c[i + 1..], key);
    FindFront(c[i], c[i + 1..], key);
    FindAppend(c[..i], c[i + 1..], key);
  }

  lemma FindPrefix(c: Contents, n: nat, key: FlowKey)
    requires n <= |c|
    ensures Find(c[..n], key) == if IndexOf(c, key) < n then Find(c, key) else None
  {
    hide KeyOf;
    assert c == c[..n] + c[n..];
    FindAppend(c[..n], c[n..], key);
    var i, j := IndexOf(c[..n], key), IndexOf(c, key);
    assert i < n ==> c[i] == c[..n][i];
    assert j < n ==> c[..n][j] == c[j];
  }

  lemma FindStamped(c: Contents, k: FlowKey, at: int, key: FlowKey)
    ensures Find(Stamped(c, k, at), key) ==
            if k == key && Find(c, key).Some? then Some(Find(c, key).value.(lastSeen := at)) else Find(c, key)
  {
    hide KeyOf;
    var i := IndexOf(c, k);
    if i < |c| {
      var r := c[i].(lastSeen := at);
      assert c == c[..i] + ([c[i]] + c[i + 1..]) && c[i := r] == c[..i] + ([r] + c[i + 1..]);
      FindAppend(c[..i], [c[i]] + c[i + 1..], key);
      FindAppend(c[..i], [r] + c[i + 1..], key);
      FindFront(c[i], c[i + 1..], key);
      FindFront(r, c[i + 1..], key);
      assert KeyOf(r.flow) == k;
    }
  }

  lemma {:induction false} FindExpire(cfg: Config, c: Contents, now: int, key: FlowKey)
    requires UniqueKeys(c)
    ensures Find(ExpireOldFlows(cfg, c, now), key) ==
            var r := Find(c, key);
            if r.Some? && r.value.state != Closed && now - r.value.lastSeen <= IdleLimit(cfg, key.proto) then r else None
  {
    hide KeyOf;
    if c != [] {
      assert c == [c[0]] + c[1..];
      FindExpire(cfg, c[1..], now, key);
      FindFront(c[0], c[1..], key);
      FindFront(c[0], ExpireOldFlows(cfg, c[1..], now), key);
      if KeyOf(c[0].flow) == key {
        KeyProto(c[0].flow);
        assert Find(c[1..], key) == None by {
          var i := IndexOf(c[1..], key);
          assert i < |c[1..]| ==> c[1..][i] == c[i + 1];
        }
      }
    }
  }

  /** Looking a flow up for another key: the record goes only if it is evicted to make room. */
  ghost predicate Evicts(cfg: Config, c: Contents, f: Flow, at: int, key: FlowKey) {
    var rest := Purge(cfg, c, KeyOf(f), at);
    Live(cfg, c, KeyOf(f), at).None? && |rest| >= cfg.maxFlows && IndexOf(rest, key) >= cfg.maxFlows - 1
  }

  lemma FindLookup(cfg: Config, c: Contents, f: Flow, create: bool, initial: FlowState, at: int, key: FlowKey)
    requires cfg.Valid() && UniqueKeys(c)
    ensures var live := Live(cfg, c, KeyOf(f), at);
            Find(Lookup(cfg, c, f, create, initial, at), key) ==
              if KeyOf(f) == key then
                if live.Some? then Some(Promoted(live.value, at, initial))
                else if create then Some(Record(f, at, at, initial, NormalizeFlowKey(f).1))
                else None
              else if create && Evicts(cfg, c, f, at, key) then None
              else Find(c, key)
  {
    hide KeyOf, NormalizeFlowKey, UniqueKeys, IndexOf, Find, Purge, MakeRoom;
    var i := IndexOf(c, KeyOf(f));
    if Live(cfg, c, KeyOf(f), at).Some? {
      FindFront(Promoted(c[i], at, initial), Without(c, i), key);
      FindWithout(c, i, key);
    } else {
      FindPurge(cfg, c, KeyOf(f), at, key);
      if create {
        FindFront(Record(f, at, at, initial, NormalizeFlowKey(f).1), MakeRoom(cfg, Purge(cfg, c, KeyOf(f), at)), key);
        FindRoom(cfg, Purge(cfg, c, KeyOf(f), at), key);
      }
    }
  }

  lemma FindPurge(cfg: Config, c: Contents, k: FlowKey, at: int, key: FlowKey)
    requires UniqueKeys(c)
    ensures k != key ==> Find(Purge(cfg, c, k, at), key) == Find(c, key)
    ensures k == key && Live(cfg, c, k, at).None? ==> Find(Purge(cfg, c, k, at), key) == None
  {
    hide KeyOf, UniqueKeys;
    if IndexOf(c, k) < |c| {
      FindWithout(c, IndexOf(c, k), key);
    }
  }

  lemma FindRoom(cfg: Config, c: Contents, key: FlowKey)
    requires cfg.Valid()
    ensures Find(MakeRoom(cfg, c), key) ==
            if |c| >= cfg.maxFlows && IndexOf(c, key) >= cfg.maxFlows - 1 then None else Find(c, key)
  {
    if |c| >= cfg.maxFlows {
      FindPrefix(c, cfg.maxFlows - 1, key);
    }
  }

  lemma FindUpdate(cfg: Config, c: Contents, f: Flow, state: FlowState, at: int, key: FlowKey)
    requires UniqueKeys(c)
    ensures var live := Live(cfg, c, KeyOf(f), at);
            Find(UpdateState(cfg, c, f, state, at), key) ==
              if KeyOf(f) == key then
                if live.Some? then Some(live.value.(lastSeen := at, state := state)) else None
              else Find(c, key)
  {
    hide KeyOf;
    var i := IndexOf(c, KeyOf(f));
    if i < |c| {
      FindWithout(c, i, key);
      FindFront(c[i].(lastSeen := at, state := state), Without(c, i), key);
    }
  }

  // ----- Keys stay unique, in order or not

  lemma WithoutUnique(c: Contents, i: nat)
    requires UniqueKeys(c) && i < |c|
    ensures UniqueKeys(Without(c, i)) && forall r <- Without(c, i) :: KeyOf(r.flow) != KeyOf(c[i].flow)
  {
    hide KeyOf;
  }

  lemma LookupUnique(cfg: Config, c: Contents, f: Flow, create: bool, initial: FlowState, at: int)
    requires cfg.Valid() && UniqueKeys(c)
    ensures UniqueKeys(Lookup(cfg, c, f, create, initial, at))
  {
    hide KeyOf, NormalizeFlowKey, UniqueKeys;
    var i := IndexOf(c, KeyOf(f));
    if i < |c| {
      WithoutUnique(c, i);
    }
    if Live(cfg, c, KeyOf(f), at).Some? {
      FrontUnique(Promoted(c[i], at, initial), Without(c, i));
    } else if create {
      var rest := MakeRoom(cfg, Purge(cfg, c, KeyOf(f), at));
      PrefixUnique(Purge(cfg, c, KeyOf(f), at), |rest|);
      FrontUnique(Record(f, at, at, initial, NormalizeFlowKey(f).1), rest);
    }
  }

  lemma PrefixUnique(c: Contents, n: nat)
    requires UniqueKeys(c) && n <= |c|
    ensures UniqueKeys(c[..n]) && c[..|c|] == c
  {}

  lemma UpdateUnique(cfg: Config, c: Contents, f: Flow, state: FlowState, at: int)
    requires UniqueKeys(c)
    ensures UniqueKeys(UpdateState(cfg, c, f, state, at))
  {
    hide KeyOf, UniqueKeys;
    var i := IndexOf(c, KeyOf(f));
    if i < |c| {
      WithoutUnique(c, i);
      FrontUnique(c[i].(lastSeen := at, state := state), Without(c, i));
    }
  }

  lemma {:induction false} ExpireUnique(cfg: Config, c: Contents, at: int)
    requires UniqueKeys(c)
    ensures UniqueKeys(ExpireOldFlows(cfg, c, at)) && forall r <- ExpireOldFlows(cfg, c, at) :: r in c
  {
    hide KeyOf;
    if c != [] {
      ExpireUnique(cfg, c[1..], at);
      forall r | r in ExpireOldFlows(cfg, c[1..], at) ensures KeyOf(r.flow) != KeyOf(c[0].flow) {
        var j :| 0 <= j < |c[1..]| && c[1..][j] == r;
        assert c[j + 1] == r;
      }
      FrontUnique(c[0], ExpireOldFlows(cfg, c[1..], at));
    }
  }

  lemma StampUnique(c: Contents, k: FlowKey, at: int)
    requires UniqueKeys(c)
    ensures UniqueKeys(Stamped(c, k, at))
  {
    hide KeyOf;
    var d := Stamped(c, k, at);
    assert |d| == |c| && forall j :: 0 <= j < |c| ==> d[j].flow == c[j].flow;
  }

  lemma NextUnique(p: Plane, e: Event)
    requires p.cfg.Valid() && UniqueKeys(p.flows)
    ensures UniqueKeys(Next(p, e).flows)
  {
    hide KeyOf, ParsePacket, UniqueKeys, Lookup, UpdateState, ExpireOldFlows, Stamped, Allowed;
    match e
    case SetPolicy(_) =>
    case Inbound(src, pkt, at) =>
      var parsed := ParsePacket(pkt);
      if parsed.Ok? {
        LookupUnique(p.cfg, p.flows, parsed.value.0, true, Established, at);
        LookupUnique(p.cfg, p.flows, parsed.value.0, false, New, at);
      }
    case Close(f, at) => UpdateUnique(p.cfg, p.flows, f, Closing, at);
    case Stamp(key, at) => StampUnique(p.flows, key, at);
    case Outbound(dst, pkt, ready, at) =>
      if StartsOut(p, dst, pkt, ready) {
        LookupUnique(p.cfg, p.flows, ParsePacket(pkt).value.0, true, New, at);
      }
    case Sweep(at) => ExpireUnique(p.cfg, p.flows, at);
    case Remove(key) =>
      if IndexOf(p.flows, key) < |p.flows| {
        WithoutUnique(p.flows, IndexOf(p.flows, key));
      }
  }

  // ----- How long a flow stays closing

  /** The record under `key` is closing and was last seen at `since`. */
  ghost predicate ClosingSince(c: Contents, key: FlowKey, since: int) {
    var r := Find(c, key);
    r.Some? && r.value.state == Closing && r.value.lastSeen == since
  }

  ghost predicate IsClosing(c: Contents, key: FlowKey) {
    var r := Find(c, key);
    r.Some? && r.value.state == Closing
  }

  /** The event sets the last-seen time of the record under `key`. */
  ghost predicate Refreshes(p: Plane, e: Event, key: FlowKey) {
    (e.Stamp? && e.key == key) || (LookedUp(p, e).Some? && KeyOf(LookedUp(p, e).value) == key)
  }

  ghost function SinceAfter(p: Plane, e: Event, key: FlowKey, since: int): int {
    if Refreshes(p, e, key) && !e.SetPolicy? && !e.Remove? then e.at else since
  }

  /**
   The event leaves a closing record last seen at `since` where it is. A packet of the
   flow must come within the idle timeout, and so must a sweep; another flow must not be
   entered at its expense; and it must not be removed by name.
   */
  ghost predicate Spares(p: Plane, e: Event, key: FlowKey, since: int) {
    var f := LookedUp(p, e);
    if f.Some? && KeyOf(f.value) == key then e.at - since <= IdleLimit(p.cfg, key.proto)
    else if f.Some? then !(Creates(e) && Evicts(p.cfg, p.flows, f.value, e.at, key))
    else if e.Sweep? then e.at - since <= IdleLimit(p.cfg, key.proto)
    else !(e.Remove? && e.key == key)
  }

  lemma KeyProto(f: Flow)
    ensures KeyOf(f).proto == f.proto
  {}

  lemma TimeoutByProtocol(cfg: Config, proto: Proto)
    ensures cfg.Timeout(proto) == IdleLimit(cfg, proto)
  {}

  lemma InboundClosing(p: Plane, e: Event, key: FlowKey, since: int)
    requires p.cfg.Valid() && UniqueKeys(p.flows) && ClosingSince(p.flows, key, since) && e.Inbound?
    ensures IsClosing(Next(p, e).flows, key) <==> Spares(p, e, key, since)
    ensures IsClosing(Next(p, e).flows, key) ==> ClosingSince(Next(p, e).flows, key, SinceAfter(p, e, key, since))
  {
    hide KeyOf, ParsePacket, Lookup, Evicts, UniqueKeys, Allowed, NormalizeFlowKey, Config.Timeout, IdleLimit;
    KeyProto(Find(p.flows, key).value.flow);
    TimeoutByProtocol(p.cfg, key.proto);
    var parsed := ParsePacket(e.pkt);
    if parsed.Ok? {
      if parsed.value.1 == Start {
        FindLookup(p.cfg, p.flows, parsed.value.0, true, Established, e.at, key);
      } else {
        FindLookup(p.cfg, p.flows, parsed.value.0, false, New, e.at, key);
      }
    }
  }

  /** A closing record survives an event, still closing and stamped as told, exactly if the event spares it. */
  lemma StepClosing(p: Plane, e: Event, key: FlowKey, since: int)
    requires p.cfg.Valid() && UniqueKeys(p.flows) && ClosingSince(p.flows, key, since)
    ensures IsClosing(Next(p, e).flows, key) <==> Spares(p, e, key, since)
    ensures IsClosing(Next(p, e).flows, key) ==> ClosingSince(Next(p, e).flows, key, SinceAfter(p, e, key, since))
  {
    hide KeyOf, ParsePacket, Lookup, UpdateState, ExpireOldFlows, Stamped, Evicts, UniqueKeys, Allowed, NormalizeFlowKey, Examined, AllowedOut;
    KeyProto(Find(p.flows, key).value.flow);
    match e
    case SetPolicy(_) =>
    case Inbound(_, _, _) => InboundClosing(p, e, key, since);
    case Close(f, at) => FindUpdate(p.cfg, p.flows, f, Closing, at, key);
    case Stamp(k, at) => FindStamped(p.flows, k, at, key);
    case Outbound(dst, pkt, ready, at) =>
      if StartsOut(p, dst, pkt, ready) {
        FindLookup(p.cfg, p.flows, ParsePacket(pkt).value.0, true, New, at, key);
      }
    case Sweep(at) => FindExpire(p.cfg, p.flows, at, key);
    case Remove(k) =>
      if IndexOf(p.flows, k) < |p.flows| {
        FindWithout(p.flows, IndexOf(p.flows, k), key);
      }
  }

  /** When the record under `key` was last stamped, as the events tell. */
  ghost function SinceAt(p: Plane, events: seq<Event>, i: nat, key: FlowKey, since: int): int
    requires p.cfg.Valid() && i <= |events|
  {
    if i == 0 then since else SinceAfter(StateAt(p, events, i - 1), events[i - 1], key, SinceAt(p, events, i - 1, key, since))
  }

  /** The flow is closing in this state of the run. */
  ghost predicate ClosingAt(p: Plane, events: seq<Event>, i: nat, key: FlowKey)
    requires p.cfg.Valid() && i <= |events|
  {
    IsClosing(StateAt(p, events, i).flows, key)
  }

  /** Event `i` of the run spares the flow. */
  ghost predicate SparedAt(p: Plane, events: seq<Event>, i: nat, key: FlowKey, since: int)
    requires p.cfg.Valid() && i < |events|
  {
    Spares(StateAt(p, events, i), events[i], key, SinceAt(p, events, i, key, since))
  }

  lemma RunStep(p: Plane, events: seq<Event>, i: nat, key: FlowKey, since: int)
    requires p.cfg.Valid() && i < |events| && UniqueKeys(StateAt(p, events, i).flows)
    requires ClosingSince(StateAt(p, events, i).flows, key, SinceAt(p, events, i, key, since))
    ensures UniqueKeys(StateAt(p, events, i + 1).flows) && (ClosingAt(p, events, i + 1, key) <==> SparedAt(p, events, i, key, since))
    ensures ClosingAt(p, events, i + 1, key) ==>
              ClosingSince(StateAt(p, events, i + 1).flows, key, SinceAt(p, events, i + 1, key, since))
  {
    hide Next, Spares, IsClosing, ClosingSince, UniqueKeys, SinceAfter;
    var q := StateAt(p, events, i);
    NextUnique(q, events[i]);
    StepClosing(q, events[i], key, SinceAt(p, events, i, key, since));
    assert StateAt(p, events, i + 1) == Next(q, events[i]);
  }

  lemma {:induction false} ClosingRun(p: Plane, events: seq<Event>, i: nat, key: FlowKey, since: int)
    requires p.cfg.Valid() && UniqueKeys(p.flows) && ClosingSince(p.flows, key, since) && i <= |events|
    requires (forall j :: 0 <= j < i ==> SparedAt(p, events, j, key, since)) || (forall j :: 0 <= j <= i ==> ClosingAt(p, events, j, key))
    ensures UniqueKeys(StateAt(p, events, i).flows)
    ensures ClosingSince(StateAt(p, events, i).flows, key, SinceAt(p, events, i, key, since))
  {
    hide SparedAt, ClosingAt, ClosingSince, UniqueKeys, SinceAfter, Next;
    if i > 0 {
      ClosingRun(p, events, i - 1, key, since);
      RunStep(p, events, i - 1, key, since);
    }
  }

  /**
   Over every run of any events, a closing flow stays closing if and only if every event
   spares it. Packets of the flow itself, of either loop, only prolong it.
   */
  lemma StaysClosingIff(p: Plane, events: seq<Event>, key: FlowKey, since: int)
    requires p.cfg.Valid() && UniqueKeys(p.flows) && ClosingSince(p.flows, key, since)
    ensures (forall i :: 0 <= i <= |events| ==> ClosingAt(p, events, i, key))
            <==> forall i :: 0 <= i < |events| ==> SparedAt(p, events, i, key, since)
  {
    hide SparedAt, ClosingSince, UniqueKeys, SinceAfter, Next, Find;
    if forall i :: 0 <= i < |events| ==> SparedAt(p, events, i, key, since) {
      forall i | 0 <= i <= |events| ensures ClosingAt(p, events, i, key) {
        ClosingRun(p, events, i, key, since);
        SinceIsClosing(StateAt(p, events, i).flows, key, SinceAt(p, events, i, key, since));
      }
    }
    if forall i :: 0 <= i <= |events| ==> ClosingAt(p, events, i, key) {
      forall i | 0 <= i < |events| ensures SparedAt(p, events, i, key, since) {
        ClosingRun(p, events, i, key, since);
        RunStep(p, events, i, key, since);
      }
    }
  }

  lemma SinceIsClosing(c: Contents, key: FlowKey, since: int)
    requires ClosingSince(c, key, since)
    ensures IsClosing(c, key)
  {}

  /** While a flow is closing, none of its packets but allowed starts is delivered. */
  lemma ClosingBlocks(p: Plane, key: FlowKey, src: PeerKey, pkt: Bytes, at: int)
    requires p.policy.Some? && IsClosing(p.flows, key)
    requires ParsePacket(pkt).Ok? && KeyOf(ParsePacket(pkt).value.0) == key && ParsePacket(pkt).value.1 != Start
    ensures !Delivered(p, src, pkt, at)
  {
    hide ParsePacket, KeyOf;
  }

  // ----- How long a flow stays open

  /** The record under `key` is established and was last seen at `since`. */
  ghost predicate OpenSince(c: Contents, key: FlowKey, since: int) {
    var r := Find(c, key);
    r.Some? && r.value.state == Established && r.value.lastSeen == since
  }

  ghost predicate IsOpen(c: Contents, key: FlowKey) {
    var r := Find(c, key);
    r.Some? && r.value.state == Established
  }

  /**
   The event leaves an established record last seen at `since` established. It must not
   close it; an allowed start may come at any time, for it enters the flow anew.
   */
  ghost predicate SparesOpen(p: Plane, e: Event, key: FlowKey, since: int) {
    !(e.Close? && KeyOf(e.flow) == key) && (AllowedStart(p, e, key) || Spares(p, e, key, since))
  }

  lemma LookupKeepsOpen(cfg: Config, c: Contents, f: Flow, create: bool, initial: FlowState, at: int, key: FlowKey, since: int)
    requires cfg.Valid() && UniqueKeys(c) && OpenSince(c, key, since)
    ensures var d := Lookup(cfg, c, f, create, initial, at);
            && (IsOpen(d, key) <==>
                  if KeyOf(f) == key then at - since <= IdleLimit(cfg, key.proto) || (create && initial == Established)
                  else !(create && Evicts(cfg, c, f, at, key)))
            && (IsOpen(d, key) ==> OpenSince(d, key, if KeyOf(f) == key then at else since))
  {
    hide KeyOf, Lookup, Evicts, UniqueKeys, NormalizeFlowKey;
    KeyProto(Find(c, key).value.flow);
    FindLookup(cfg, c, f, create, initial, at, key);
  }

  lemma InboundOpen(p: Plane, e: Event, key: FlowKey, since: int)
    requires p.cfg.Valid() && UniqueKeys(p.flows) && OpenSince(p.flows, key, since) && e.Inbound?
    ensures IsOpen(Next(p, e).flows, key) <==> SparesOpen(p, e, key, since)
    ensures IsOpen(Next(p, e).flows, key) ==> OpenSince(Next(p, e).flows, key, SinceAfter(p, e, key, since))
  {
    hide KeyOf, ParsePacket, Lookup, Evicts, UniqueKeys, Allowed, IsOpen, OpenSince;
    SinceIsOpen(p.flows, key, since);
    var parsed := ParsePacket(e.pkt);
    if parsed.Ok? {
      if parsed.value.1 == Start {
        LookupKeepsOpen(p.cfg, p.flows, parsed.value.0, true, Established, e.at, key, since);
      } else {
        LookupKeepsOpen(p.cfg, p.flows, parsed.value.0, false, New, e.at, key, since);
      }
    }
  }

  lemma SinceIsOpen(c: Contents, key: FlowKey, since: int)
    requires OpenSince(c, key, since)
    ensures IsOpen(c, key)
  {}

  lemma OutboundOpen(p: Plane, e: Event, key: FlowKey, since: int)
    requires p.cfg.Valid() && UniqueKeys(p.flows) && OpenSince(p.flows, key, since) && e.Outbound?
    ensures IsOpen(Next(p, e).flows, key) <==> SparesOpen(p, e, key, since)
    ensures IsOpen(Next(p, e).flows, key) ==> OpenSince(Next(p, e).flows, key, SinceAfter(p, e, key, since))
  {
    hide KeyOf, ParsePacket, Lookup, Evicts, UniqueKeys, AllowedOut, IsOpen, OpenSince;
    SinceIsOpen(p.flows, key, since);
    if StartsOut(p, e.dst, e.pkt, e.ready) {
      LookupKeepsOpen(p.cfg, p.flows, ParsePacket(e.pkt).value.0, true, New, e.at, key, since);
    }
  }

  /** An established record survives an event, established and stamped as told, exactly if the event spares it. */
  lemma StepOpen(p: Plane, e: Event, key: FlowKey, since: int)
    requires p.cfg.Valid() && UniqueKeys(p.flows) && OpenSince(p.flows, key, since)
    ensures IsOpen(Next(p, e).flows, key) <==> SparesOpen(p, e, key, since)
    ensures IsOpen(Next(p, e).flows, key) ==> OpenSince(Next(p, e).flows, key, SinceAfter(p, e, key, since))
  {
    hide KeyOf, ParsePacket, UpdateState, ExpireOldFlows, Stamped, Evicts, UniqueKeys, Examined, Tracked, StartsOut, Allowed;
    KeyProto(Find(p.flows, key).value.flow);
    match e
    case SetPolicy(_) =>
    case Inbound(_, _, _) => InboundOpen(p, e, key, since);
    case Close(f, at) => FindUpdate(p.cfg, p.flows, f, Closing, at, key);
    case Stamp(k, at) => FindStamped(p.flows, k, at, key);
    case Outbound(_, _, _, _) => OutboundOpen(p, e, key, since);
    case Sweep(at) => FindExpire(p.cfg, p.flows, at, key);
    case Remove(k) =>
      if IndexOf(p.flows, k) < |p.flows| {
        FindWithout(p.flows, IndexOf(p.flows, k), key);
      }
  }

  /** No live record of the flow is closing or closed. */
  ghost predicate CanOpen(p: Plane, key: FlowKey, at: int) {
    var before := Live(p.cfg, p.flows, key, at);
    before.None? || before.value.state in {New, Established}
  }

  /** An allowed start leaves its flow open exactly then. */
  lemma StartOpens(p: Plane, e: Event, key: FlowKey)
    requires p.cfg.Valid() && UniqueKeys(p.flows) && AllowedStart(p, e, key)
    ensures IsOpen(Next(p, e).flows, key) <==> CanOpen(p, key, e.at)
    ensures IsOpen(Next(p, e).flows, key) ==> OpenSince(Next(p, e).flows, key, e.at)
  {
    hide KeyOf, ParsePacket, Lookup, UniqueKeys, NormalizeFlowKey;
    FindLookup(p.cfg, p.flows, ParsePacket(e.pkt).value.0, true, Established, e.at, key);
  }

  lemma EstablishedIsOpen(c: Contents, key: FlowKey)
    requires UniqueKeys(c)
    ensures HasEstablished(c, key) <==> IsOpen(c, key)
  {
    hide KeyOf;
    var i := IndexOf(c, key);
    if i < |c| {
      assert c[i] in c;
      assert forall j :: 0 <= j < |c| && j != i ==> KeyOf(c[j].flow) != key;
    }
  }

  /** Only an allowed start opens a flow that is not open. */
  lemma OnlyStartsOpen(p: Plane, e: Event, key: FlowKey)
    requires p.cfg.Valid() && UniqueKeys(p.flows) && !IsOpen(p.flows, key) && IsOpen(Next(p, e).flows, key)
    ensures AllowedStart(p, e, key) && CanOpen(p, key, e.at)
  {
    hide IsOpen, Next, UniqueKeys, HasEstablished, AllowedStart, CanOpen;
    NextUnique(p, e);
    EstablishedIsOpen(p.flows, key);
    EstablishedIsOpen(Next(p, e).flows, key);
    OnlyAllowedStartsEstablish(p, e, key);
    StartOpens(p, e, key);
  }

  // ----- Replies

  /** Event `j` is an allowed start that leaves its flow open. */
  ghost predicate OpenedAt(p: Plane, events: seq<Event>, j: nat, key: FlowKey)
    requires p.cfg.Valid() && j < |events|
  {
    AllowedStart(StateAt(p, events, j), events[j], key) && CanOpen(StateAt(p, events, j), key, events[j].at)
  }

  /** When a flow opened by event `j` was last stamped before event `i`, as the events tell. */
  ghost function StampedAt(p: Plane, events: seq<Event>, j: nat, i: nat, key: FlowKey): int
    requires p.cfg.Valid() && j < i <= |events| && events[j].Inbound?
  {
    if i == j + 1 then events[j].at
    else SinceAfter(StateAt(p, events, i - 1), events[i - 1], key, StampedAt(p, events, j, i - 1, key))
  }

  /** Event `m` spares the flow that event `j` opened. */
  ghost predicate OpenSparedAt(p: Plane, events: seq<Event>, j: nat, m: nat, key: FlowKey)
    requires p.cfg.Valid() && j < m < |events| && events[j].Inbound?
  {
    SparesOpen(StateAt(p, events, m), events[m], key, StampedAt(p, events, j, m, key))
  }

  /** An allowed start, event `j`, opened the flow and every event since has spared it. */
  ghost predicate OpenFrom(p: Plane, events: seq<Event>, j: nat, i: nat, key: FlowKey)
    requires p.cfg.Valid() && i <= |events|
  {
    j < i && events[j].Inbound? && OpenedAt(p, events, j, key) && forall m :: j < m < i ==> OpenSparedAt(p, events, j, m, key)
  }

  lemma {:induction false} RunUnique(p: Plane, events: seq<Event>, i: nat)
    requires p.cfg.Valid() && UniqueKeys(p.flows) && i <= |events|
    ensures UniqueKeys(StateAt(p, events, i).flows)
  {
    hide UniqueKeys, Next;
    if i > 0 {
      RunUnique(p, events, i - 1);
      NextUnique(StateAt(p, events, i - 1), events[i - 1]);
    }
  }

  lemma {:induction false} OpenFromIsOpen(p: Plane, events: seq<Event>, j: nat, i: nat, key: FlowKey)
    requires p.cfg.Valid() && UniqueKeys(p.flows) && i <= |events| && OpenFrom(p, events, j, i, key)
    ensures OpenSince(StateAt(p, events, i).flows, key, StampedAt(p, events, j, i, key))
    decreases i
  {
    hide UniqueKeys, Next, SparesOpen, CanOpen, OpenSince, SinceAfter, IsOpen;
    RunUnique(p, events, i - 1);
    var q := StateAt(p, events, i - 1);
    if i == j + 1 {
      StartOpens(q, events[j], key);
    } else {
      assert forall m :: j < m < i - 1 ==> OpenSparedAt(p, events, j, m, key);
      OpenFromIsOpen(p, events, j, i - 1, key);
      assert OpenSparedAt(p, events, j, i - 1, key);
      StepOpen(q, events[i - 1], key, StampedAt(p, events, j, i - 1, key));
    }
  }

  lemma {:induction false} OpenHasStart(p: Plane, events: seq<Event>, i: nat, key: FlowKey) returns (j: nat)
    requires p.cfg.Valid() && p.flows == [] && i <= |events| && IsOpen(StateAt(p, events, i).flows, key)
    ensures OpenFrom(p, events, j, i, key)
    decreases i
  {
    hide UniqueKeys, Next, SparesOpen, CanOpen, OpenSince, SinceAfter, IsOpen, ParsePacket, KeyOf, Allowed;
    NothingIsOpen(key);
    EmptyUnique();
    RunUnique(p, events, i - 1);
    var q := StateAt(p, events, i - 1);
    if IsOpen(q.flows, key) {
      j := OpenHasStart(p, events, i - 1, key);
      OpenFromIsOpen(p, events, j, i - 1, key);
      StepOpen(q, events[i - 1], key, StampedAt(p, events, j, i - 1, key));
      assert OpenSparedAt(p, events, j, i - 1, key);
    } else {
      j := i - 1;
      OnlyStartsOpen(q, events[j], key);
    }
  }

  lemma NothingIsOpen(key: FlowKey)
    ensures !IsOpen([], key)
  {}

  lemma EmptyUnique()
    ensures UniqueKeys([])
  {}

  lemma OpenIsLive(p: Plane, key: FlowKey, since: int, at: int)
    requires OpenSince(p.flows, key, since)
    ensures Open(p, key, at) <==> at - since <= IdleLimit(p.cfg, key.proto)
  {
    hide KeyOf;
    KeyProto(Find(p.flows, key).value.flow);
  }

  /** An allowed start, event `j`, opened the flow, every event since has spared it, and it has not timed out at `at`. */
  ghost predicate ReplyInTime(p: Plane, events: seq<Event>, j: nat, i: nat, key: FlowKey, at: int)
    requires p.cfg.Valid() && i <= |events|
  {
    OpenFrom(p, events, j, i, key) && at - StampedAt(p, events, j, i, key) <= IdleLimit(p.cfg, key.proto)
  }

  /** Some allowed start opened the flow and it is open still. */
  ghost predicate ReplyWelcome(p: Plane, events: seq<Event>, i: nat, key: FlowKey, at: int)
    requires p.cfg.Valid() && i <= |events|
  {
    exists j :: ReplyInTime(p, events, j, i, key, at)
  }

  /**
   Over every run from an empty table, a packet that starts nothing is delivered if and
   only if there is no policy, or an allowed inbound start opened its flow, every event
   since has spared it, and the timeout has not passed. What the node itself sent does not
   open a flow.
   */
  lemma ReplyDeliveredIff(p: Plane, events: seq<Event>, i: nat, src: PeerKey, pkt: Bytes, at: int)
    requires p.cfg.Valid() && p.flows == [] && i <= |events|
    requires ParsePacket(pkt).Ok? && ParsePacket(pkt).value.1 != Start
    ensures Delivered(StateAt(p, events, i), src, pkt, at)
            <==> StateAt(p, events, i).policy.None? || ReplyWelcome(p, events, i, KeyOf(ParsePacket(pkt).value.0), at)
  {
    hide ParsePacket, KeyOf, Next, OpenedAt, OpenSparedAt, Open;
    var q := StateAt(p, events, i);
    var key := KeyOf(ParsePacket(pkt).value.0);
    EmptyUnique();
    forall j | OpenFrom(p, events, j, i, key)
      ensures Open(q, key, at) <==> at - StampedAt(p, events, j, i, key) <= IdleLimit(p.cfg, key.proto)
    {
      OpenFromIsOpen(p, events, j, i, key);
      OpenIsLive(q, key, StampedAt(p, events, j, i, key), at);
    }
    if Open(q, key, at) {
      OpenIsOpen(q, key, at);
      var j := OpenHasStart(p, events, i, key);
      assert ReplyInTime(p, events, j, i, key, at);
    }
  }

  /**
   A later fragment is delivered, over every run from an empty table, if and only if there
   is no policy or an allowed inbound start opened the flow without ports between its two
   addresses and that flow is open still. The flow the fragment belongs to has no say.
   */
  lemma FragmentDeliveredIff(p: Plane, events: seq<Event>, i: nat, src: PeerKey, pkt: Bytes, proto: Proto, at: int)
    requires p.cfg.Valid() && p.flows == [] && i <= |events| && LaterFragmentOf(pkt, proto)
    ensures Delivered(StateAt(p, events, i), src, pkt, at)
            <==> StateAt(p, events, i).policy.None? || ReplyWelcome(p, events, i, KeyOf(Portless(pkt, proto)), at)
  {
    hide ParsePacket, KeyOf, ReplyWelcome, Delivered, LaterFragmentOf;
    FragmentHasNoPorts(pkt, proto);
    ReplyDeliveredIff(p, events, i, src, pkt, at);
  }

  /** One of the two ports is not 0, which only TCP and UDP can give. */
  ghost predicate HasPorts(f: Flow) {
    f.srcPort != 0 || f.dstPort != 0
  }

  /**
   So with a policy in force the later fragments of a connection with ports are dropped
   even while it is established: some allowed start without ports must have come first.
   */
  lemma FragmentsOfConnectionsDropped(p: Plane, events: seq<Event>, i: nat, src: PeerKey, pkt: Bytes, proto: Proto, at: int)
    requires p.cfg.Valid() && p.flows == [] && i <= |events| && LaterFragmentOf(pkt, proto)
    requires StateAt(p, events, i).policy.Some?
    requires forall j :: 0 <= j < i && events[j].Inbound? && ParsePacket(events[j].pkt).Ok?
                         && ParsePacket(events[j].pkt).value.1 == Start && ParsePacket(events[j].pkt).value.0.proto == proto
                         ==> HasPorts(ParsePacket(events[j].pkt).value.0)
    ensures !Delivered(StateAt(p, events, i), src, pkt, at)
  {
    hide ParsePacket, KeyOf, Delivered, LaterFragmentOf, Allowed, OpenSparedAt, CanOpen;
    FragmentDeliveredIff(p, events, i, src, pkt, proto, at);
    FragmentHasNoPorts(pkt, proto);
    var key := KeyOf(Portless(pkt, proto));
    forall j: nat | ReplyInTime(p, events, j, i, key, at)
      ensures false
    {
      assert OpenedAt(p, events, j, key);
      SameKeySamePorts(ParsePacket(events[j].pkt).value.0, Portless(pkt, proto));
    }
  }

  lemma SameKeySamePorts(f: Flow, g: Flow)
    requires KeyOf(f) == KeyOf(g)
    ensures f.proto == g.proto && (HasPorts(f) <==> HasPorts(g))
  {}

  lemma OpenIsOpen(p: Plane, key: FlowKey, at: int)
    requires Open(p, key, at)
    ensures IsOpen(p.flows, key)
  {}

  /** A packet gets from one node to another: past the sender's outbound check and the receiver's inbound filter. */
  ghost predicate Arrives(sender: Plane, receiver: Plane, pkt: Bytes, at: int) {
    LetOut(sender, receiver.self, pkt) && Delivered(receiver, sender.self, pkt, at)
  }

  /**
   A packet that starts nothing gets through if and only if the sender's policy would let
   the sender start a connection to the packet's own port, whatever flow it belongs to, and
   the receiver has the flow open from an allowed start.
   */
  lemma ReplyArrivesIff(sender: Plane, p: Plane, events: seq<Event>, i: nat, pkt: Bytes, at: int)
    requires p.cfg.Valid() && p.flows == [] && i <= |events|
    requires ParsePacket(pkt).Ok? && ParsePacket(pkt).value.1 != Start
    ensures var f := ParsePacket(pkt).value.0;
            var receiver := StateAt(p, events, i);
            Arrives(sender, receiver, pkt, at) <==>
              && (sender.policy.None? || f.proto == 0 ||
                  DecideBy(sender.policy.value, Query(sender.self, p.self, f.proto, f.dstPort)).action == Allow)
              && (receiver.policy.None? || ReplyWelcome(p, events, i, KeyOf(f), at))
  {
    hide ParsePacket, KeyOf, ReplyWelcome, Delivered;
    ReplyDeliveredIff(p, events, i, sender.self, pkt, at);
  }

  // ----- Runs that show it

  const ALICE: PeerKey := [1] + Zeros(31)
  const BOB: PeerKey := [2] + Zeros(31)

  /** A policy that allows everything. */
  const OPEN_POLICY := Single(CompiledPolicy([], Allow, {}, {}))

  lemma FirstStates(p: Plane, events: seq<Event>)
    requires p.cfg.Valid() && |events| == 4
    ensures var s1 := Next(p, events[0]);
            var s2 := Next(s1, events[1]);
            var s3 := Next(s2, events[2]);
            && StateAt(p, events, 1) == s1 && StateAt(p, events, 2) == s2
            && StateAt(p, events, 3) == s3 && StateAt(p, events, 4) == Next(s3, events[3])
  {
    hide Next;
    assert StateAt(p, events, 1) == Next(StateAt(p, events, 0), events[0]);
    assert StateAt(p, events, 2) == Next(StateAt(p, events, 1), events[1]);
    assert StateAt(p, events, 3) == Next(StateAt(p, events, 2), events[2]);
  }

  ghost function Fresh(cfg: Config): Plane {
    Plane(BOB, cfg, Some(OPEN_POLICY), [])
  }

  lemma OpenAllows(p: Plane, src: PeerKey, f: Flow)
    requires p.policy == Some(OPEN_POLICY)
    ensures Allowed(p, src, f) && AllowedOut(p, src, f)
  {}

  ghost function Entered(f: Flow, at: int, state: FlowState): Record {
    Record(f, at, at, state, NormalizeFlowKey(f).1)
  }

  /** What one segment of a flow does to a table that holds nothing but that flow, or nothing. */
  lemma OneSegment(p: Plane, f: Flow, flags: Byte, at: int)
    requires p.cfg.Valid() && p.policy == Some(OPEN_POLICY) && f.proto == TCP && Canonical(f)
    ensures p.flows == [] && SegmentKind(flags) == Start ==>
              Next(p, Inbound(ALICE, Segment(f, flags), at)).flows == [Entered(f, at, Established)]
    ensures |p.flows| == 1 && p.flows[0].flow == f && at - p.flows[0].lastSeen <= p.cfg.tcpIdle ==>
              Next(p, Inbound(ALICE, Segment(f, flags), at)).flows ==
                [Promoted(p.flows[0], at, if SegmentKind(flags) == Start then Established else New)]
  {
    hide KeyOf, ParsePacket, Segment, NormalizeFlowKey;
    SegmentReads(f, flags);
    OpenAllows(p, ALICE, f);
    if |p.flows| == 1 && p.flows[0].flow == f {
      assert IndexOf(p.flows, KeyOf(f)) == 0;
      assert Without(p.flows, 0) == [];
    }
  }

  /** A connection is opened and ended by its peer; the same ports are then used for a new one. */
  ghost function Reconnect(f: Flow): seq<Event> {
    [Inbound(ALICE, Segment(f, SYN), 1), Inbound(ALICE, Segment(f, FIN + ACK), 2), Close(f, 2), Inbound(ALICE, Segment(f, SYN), 3)]
  }

  /** Under a policy that allows everything, the second connection's flow is not open and its packets are dropped. */
  lemma ReconnectIsBlocked(cfg: Config, f: Flow, at: int)
    requires cfg.Valid() && f.proto == TCP && Canonical(f)
    ensures var p := Fresh(cfg);
            && Delivered(StateAt(p, Reconnect(f), 1), ALICE, Segment(f, FIN + ACK), 2)
            && Delivered(StateAt(p, Reconnect(f), 3), ALICE, Segment(f, SYN), 3)
            && IsClosing(StateAt(p, Reconnect(f), 4).flows, KeyOf(f))
            && !Delivered(StateAt(p, Reconnect(f), 4), ALICE, Segment(f, ACK), at)
  {
    hide KeyOf, ParsePacket, Segment, NormalizeFlowKey, Lookup, UpdateState, StateAt;
    var p, events := Fresh(cfg), Reconnect(f);
    SegmentReads(f, SYN);
    SegmentReads(f, FIN + ACK);
    SegmentReads(f, ACK);
    var s1 := Next(p, events[0]);
    OneSegment(p, f, SYN, 1);
    var s2 := Next(s1, events[1]);
    OneSegment(s1, f, FIN + ACK, 2);
    var s3 := Next(s2, events[2]);
    CloseOne(s2, f, 2);
    var s4 := Next(s3, events[3]);
    OneSegment(s3, f, SYN, 3);
    OpenAllows(s3, ALICE, f);
    FirstStates(p, events);
    assert IndexOf(s1.flows, KeyOf(f)) == 0 && IndexOf(s4.flows, KeyOf(f)) == 0;
    ClosingBlocks(s4, KeyOf(f), ALICE, Segment(f, ACK), at);
  }

  lemma CloseOne(p: Plane, f: Flow, at: int)
    requires p.cfg.Valid() && |p.flows| == 1 && p.flows[0].flow == f && p.flows[0].lastSeen == at
    ensures Next(p, Close(f, at)).flows == [p.flows[0].(state := Closing)]
  {
    hide KeyOf;
    assert IndexOf(p.flows, KeyOf(f)) == 0;
    assert Without(p.flows, 0) == [];
    assert p.cfg.Timeout(f.proto) > 0;
  }

  /** The node opens a connection and the other end answers. */
  ghost function OwnConnection(f: Flow): seq<Event> {
    [Outbound(ALICE, Segment(f, SYN), true, 1), Inbound(ALICE, Segment(Swap(f), SYN + ACK), 2)]
  }

  /** Under a policy that allows everything, the attempt is recorded under the answer's own key, and the answer is dropped. */
  lemma OwnReplyIsDropped(cfg: Config, f: Flow)
    requires cfg.Valid() && f.proto == TCP && Canonical(f)
    ensures ParsePacket(Segment(Swap(f), SYN + ACK)) == Ok((Swap(f), Other)) && KeyOf(Swap(f)) == KeyOf(f)
    ensures var p := StateAt(Fresh(cfg), OwnConnection(f), 1);
            p.flows == [Entered(f, 1, New)] && !Delivered(p, ALICE, Segment(Swap(f), SYN + ACK), 2)
  {
    hide KeyOf, ParsePacket, Segment, NormalizeFlowKey;
    SwapCanonical(f);
    SegmentReads(Swap(f), SYN + ACK);
    SegmentReads(f, SYN);
    OpenAllows(Fresh(cfg), ALICE, f);
    SameKeyIffSameConversation(f, Swap(f));
    var p0, events := Fresh(cfg), OwnConnection(f);
    var p := Next(p0, events[0]);
    assert StateAt(p0, events, 0) == p0 && StateAt(p0, events, 1) == p;
    assert p.flows == [Entered(f, 1, New)];
    assert IndexOf(p.flows, KeyOf(f)) == 0;
  }

  lemma SwapCanonical(f: Flow)
    requires Canonical(f)
    ensures Canonical(Swap(f)) && Canonicalize(Swap(f)) == Swap(f) && Swap(f).proto == f.proto
  {}

  /** A packet of one flow is handled while the other loop enters another flow between its lookup and its stamp. */
  ghost function LateStamp(f: Flow, g: Flow): seq<Event> {
    [Inbound(ALICE, Segment(f, SYN), 1), Inbound(ALICE, Segment(f, ACK), 2), Outbound(ALICE, Segment(g, SYN), true, 3), Stamp(KeyOf(f), 4)]
  }

  /** The flow seen last is then at the end of the table, where the next eviction takes it. */
  lemma LateStampBreaksOrder(cfg: Config, f: Flow, g: Flow)
    requires cfg.Valid() && cfg.maxFlows == 2 && f.proto == TCP && Canonical(f) && KeyOf(g) != KeyOf(f)
    requires g.proto == TCP && Canonical(g)
    ensures Delivered(StateAt(Fresh(cfg), LateStamp(f, g), 1), ALICE, Segment(f, ACK), 2)
    ensures var c := StateAt(Fresh(cfg), LateStamp(f, g), 4).flows;
            && |c| == 2 && c[0].lastSeen == 3 && c[1].lastSeen == 4 && c[1].flow == f && !Recent(c)
            && MakeRoom(cfg, c) == [c[0]]
  {
    hide KeyOf, ParsePacket, Segment, NormalizeFlowKey, Lookup, Stamped, StateAt;
    var p, events := Fresh(cfg), LateStamp(f, g);
    SegmentReads(f, ACK);
    SegmentReads(g, SYN);
    var s1 := Next(p, events[0]);
    OneSegment(p, f, SYN, 1);
    var s2 := Next(s1, events[1]);
    OneSegment(s1, f, ACK, 2);
    OpenAllows(s2, ALICE, g);
    var s3 := Next(s2, events[2]);
    assert IndexOf(s1.flows, KeyOf(f)) == 0;
    EnterThenStamp(cfg, s2.flows[0], g, 3, 4);
    var s4 := Next(s3, events[3]);
    FirstStates(p, events);
  }

  lemma EnterThenStamp(cfg: Config, r: Record, g: Flow, at: int, later: int)
    requires cfg.maxFlows == 2 && KeyOf(g) != KeyOf(r.flow)
    ensures Lookup(cfg, [r], g, true, New, at) == [Entered(g, at, New), r]
    ensures Stamped([Entered(g, at, New), r], KeyOf(r.flow), later) == [Entered(g, at, New), r.(lastSeen := later)]
  {
    hide KeyOf, NormalizeFlowKey;
    assert IndexOf([r], KeyOf(g)) == 1;
    assert [Entered(g, at, New), r][1..] == [r];
    assert IndexOf([Entered(g, at, New), r], KeyOf(r.flow)) == 1;
  }

  /** Two flows are entered, in different shards, in another order than their clocks were read. */
  ghost function Crossed(f: Flow, g: Flow): seq<Event> {
    [Outbound(ALICE, Segment(f, SYN), true, 2), Outbound(ALICE, Segment(g, SYN), true, 1)]
  }

  lemma CrossedReadingsBreakOrder(cfg: Config, f: Flow, g: Flow)
    requires cfg.Valid() && cfg.maxFlows == 2 && KeyOf(g) != KeyOf(f)
    requires f.proto == TCP && Canonical(f) && g.proto == TCP && Canonical(g)
    ensures var c := StateAt(Fresh(cfg), Crossed(f, g), 2).flows;
            |c| == 2 && c[0].lastSeen == 1 && c[1].lastSeen == 2 && !Recent(c)
  {
    hide KeyOf, ParsePacket, Segment, NormalizeFlowKey, Lookup;
    var p, events := Fresh(cfg), Crossed(f, g);
    SegmentReads(f, SYN);
    SegmentReads(g, SYN);
    OpenAllows(p, ALICE, f);
    var s1 := Next(p, events[0]);
    EnterFirst(cfg, f, 2);
    OpenAllows(s1, ALICE, g);
    EnterThenStamp(cfg, Entered(f, 2, New), g, 1, 1);
    assert StateAt(p, events, 0) == p && StateAt(p, events, 1) == s1 && StateAt(p, events, 2) == Next(s1, events[1]);
  }

  lemma EnterFirst(cfg: Config, f: Flow, at: int)
    requires cfg.Valid()
    ensures Lookup(cfg, [], f, true, New, at) == [Entered(f, at, New)]
  {
    assert MakeRoom(cfg, []) == [];
  }

  // ----- A policy of one rule

  /** Alice may reach Bob's port 22; everything else is denied. */
  const SSH_ONLY := Policy(
    Deny, map["alice" := ALICE, "bob" := BOB], map[], [Rule("alice", "bob", [PortRange(TCP, 22, 22, false)])], [])

  lemma SshDecides(cp: CompiledPolicy, port: Port)
    requires Compiled(SSH_ONLY, cp)
    ensures DecideFrom(cp, Query(ALICE, BOB, TCP, 22), 0).action == Allow
    ensures DecideFrom(cp, Query(BOB, ALICE, TCP, port), 0).action == Deny
  {
    var ask, answer := Query(ALICE, BOB, TCP, 22), Query(BOB, ALICE, TCP, port);
    var rule := SSH_ONLY.rules[0];
    assert ALICE[0] != BOB[0];
    assert rule.ports[0] in rule.ports;
    assert "alice"[..4][0] != "tag:"[0] && |"bob"| == 3 && |"*"| == 1;
    assert Covers(SSH_ONLY, "alice", ALICE) && Covers(SSH_ONLY, "bob", BOB) && !Covers(SSH_ONLY, "alice", BOB);
    assert RuleMatches(SSH_ONLY, rule, ask) && !RuleMatches(SSH_ONLY, rule, answer);
    CompilePreservesMeaning(SSH_ONLY, cp, ask);
    CompilePreservesMeaning(SSH_ONLY, cp, answer);
    assert Decides(SSH_ONLY, ask, Decision(Allow, 0, false));
    assert Decides(SSH_ONLY, answer, Decision(Deny, -1, false));
  }

  /** Alice's connection is let in and Bob answers. */
  ghost function Accepted(f: Flow): seq<Event> {
    [Inbound(ALICE, Segment(f, SYN), 1), Outbound(ALICE, Segment(Swap(f), SYN + ACK), true, 2)]
  }

  /** Under that policy Bob takes Alice's connection, has its flow open, and is not let answer. */
  lemma AcceptedIsNotAnswered(cfg: Config, cp: CompiledPolicy, f: Flow)
    requires cfg.Valid() && Compiled(SSH_ONLY, cp) && f.proto == TCP && f.dstPort == 22 && Canonical(f)
    ensures var p := Plane(BOB, cfg, Some(Single(cp)), []);
            && Delivered(p, ALICE, Segment(f, SYN), 1)
            && Open(StateAt(p, Accepted(f), 1), KeyOf(f), 2)
            && !LetOut(StateAt(p, Accepted(f), 1), ALICE, Segment(Swap(f), SYN + ACK))
  {
    hide KeyOf, ParsePacket, Segment, NormalizeFlowKey, DecideFrom;
    var p, events := Plane(BOB, cfg, Some(Single(cp)), []), Accepted(f);
    SwapCanonical(f);
    SegmentReads(f, SYN);
    SegmentReads(Swap(f), SYN + ACK);
    SshDecides(cp, f.srcPort);
    var s1 := Next(p, events[0]);
    assert StateAt(p, events, 0) == p && StateAt(p, events, 1) == s1;
    assert MakeRoom(cfg, []) == [] && s1.flows == [Entered(f, 1, Established)];
    assert IndexOf(s1.flows, KeyOf(f)) == 0;
  }
}
