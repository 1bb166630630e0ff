/**
 The flow table as a caller sees it: one sequence of flow records, most recently
 used first. Every operation of the sharded table is specified here, and what the
 table promises over whole runs is proved about these functions.
 */
module FlowRecency {
  import opened Wrappers
  import opened Flows

  datatype FlowState = New | Established | Closing | Closed

  datatype Config = Config(maxFlows: nat, tcpIdle: int, udpIdle: int, icmpIdle: int) {
    ghost predicate Valid() {
      0 < maxFlows && 0 < tcpIdle && 0 < udpIdle && 0 < icmpIdle
    }

    function Timeout(proto: Proto): int {
      if proto == TCP then tcpIdle
      else if proto == UDP then udpIdle
      else if proto == ICMP || proto == ICMPV6 then icmpIdle
      else udpIdle
    }
  }

  datatype Record = Record(flow: Flow, created: int, lastSeen: int, state: FlowState, isReply: bool)

  type Contents = seq<Record>

  function Expired(cfg: Config, r: Record, now: int): bool {
    now - r.lastSeen > cfg.Timeout(r.flow.proto)
  }

  /** How long a flow of the protocol may stay idle, by protocol number; whatever is not TCP or ICMP counts as UDP. */
  ghost function IdleLimit(cfg: Config, proto: Proto): int {
    if proto == 6 then cfg.tcpIdle else if proto in {1, 58} then cfg.icmpIdle else cfg.udpIdle
  }

  // ----- Operations

  /** The position of the record stored under `key`, or the length if there is none. */
  function IndexOf(c: Contents, key: FlowKey): (i: nat)
    ensures i <= |c|
    ensures i < |c| ==> KeyOf(c[i].flow) == key
    ensures forall j :: 0 <= j < i ==> KeyOf(c[j].flow) != key
  {
    if c == [] then 0
    else if KeyOf(c[0].flow) == key then 0
    else 1 + IndexOf(c[1..], key)
  }

  function Without<T>(s: seq<T>, i: nat): (r: seq<T>)
    requires i < |s|
  {
    s[..i] + s[i + 1..]
  }

  /** The record under `key`, if there is one that has not expired. */
  function Live(cfg: Config, c: Contents, key: FlowKey, now: int): Option<Record> {
    var i := IndexOf(c, key);
    if i < |c| && !Expired(cfg, c[i], now) then Some(c[i]) else None
  }

  /** Forgets the record under `key` if it has expired. */
  function Purge(cfg: Config, c: Contents, key: FlowKey, now: int): Contents {
    var i := IndexOf(c, key);
    if i < |c| && Expired(cfg, c[i], now) then Without(c, i) else c
  }

  /** Drops least recently used records until one more fits. */
  function MakeRoom(cfg: Config, c: Contents): Contents
    requires 0 < cfg.maxFlows
  {
    if |c| < cfg.maxFlows then c else c[..cfg.maxFlows - 1]
  }

  function Promoted(r: Record, now: int, initial: FlowState): Record {
    r.(lastSeen := now, state := if r.state == New && initial == Established then Established else r.state)
  }

  function Lookup(cfg: Config, c: Contents, f: Flow, create: bool, initial: FlowState, now: int): Contents
    requires 0 < cfg.maxFlows
  {
    var i := IndexOf(c, KeyOf(f));
    if Live(cfg, c, KeyOf(f), now).Some? then [Promoted(c[i], now, initial)] + Without(c, i)
    else
      var rest := Purge(cfg, c, KeyOf(f), now);
      if create then [Record(f, now, now, initial, NormalizeFlowKey(f).1)] + MakeRoom(cfg, rest) else rest
  }

  function UpdateState(cfg: Config, c: Contents, f: Flow, state: FlowState, now: int): Contents {
    var i := IndexOf(c, KeyOf(f));
    if Live(cfg, c, KeyOf(f), now).Some? then [c[i].(lastSeen := now, state := state)] + Without(c, i)
    else Purge(cfg, c, KeyOf(f), now)
  }

  function RemoveFlow(c: Contents, key: FlowKey): Contents {
    var i := IndexOf(c, key);
    if i < |c| then Without(c, i) else c
  }

  predicate Stale(cfg: Config, r: Record, now: int) {
    Expired(cfg, r, now) || r.state == Closed
  }

  function ExpireOldFlows(cfg: Config, c: Contents, now: int): Contents {
    if c == [] then []
    else
      var rest := ExpireOldFlows(cfg, c[1..], now);
      if Stale(cfg, c[0], now) then rest else [c[0]] + rest
  }

  /** Forgets the record under `key` if it is stale. */
  function DropIfStale(cfg: Config, c: Contents, key: FlowKey, now: int): Contents {
    var i := IndexOf(c, key);
    if i < |c| && Stale(cfg, c[i], now) then Without(c, i) else c
  }

  /** What is left once the stale records among the keys `done` have been dropped. */
  ghost function Sift(cfg: Config, c: Contents, now: int, done: set<FlowKey>): Contents {
    if c == [] then []
    else
      var rest := Sift(cfg, c[1..], now, done);
      if Stale(cfg, c[0], now) && KeyOf(c[0].flow) in done then rest else [c[0]] + rest
  }

  lemma {:induction false} SiftNothing(cfg: Config, c: Contents, now: int)
    ensures Sift(cfg, c, now, {}) == c
  {
    if c != [] {
      SiftNothing(cfg, c[1..], now);
    }
  }

  lemma {:induction false} SiftAll(cfg: Config, c: Contents, now: int, done: set<FlowKey>)
    requires forall j :: 0 <= j < |c| ==> KeyOf(c[j].flow) in done
    ensures Sift(cfg, c, now, done) == ExpireOldFlows(cfg, c, now)
  {
    if c != [] {
      SiftAll(cfg, c[1..], now, done);
    }
  }

  lemma {:induction false} SiftAbsent(cfg: Config, c: Contents, now: int, done: set<FlowKey>, key: FlowKey)
    requires forall j :: 0 <= j < |c| ==> KeyOf(c[j].flow) != key
    ensures Sift(cfg, c, now, done + {key}) == Sift(cfg, c, now, done)
    ensures IndexOf(Sift(cfg, c, now, done), key) == |Sift(cfg, c, now, done)|
  {
    if c != [] {
      SiftAbsent(cfg, c[1..], now, done, key);
    }
  }

  /** Sweeping one more key drops its record exactly when that is stale. */
  lemma {:induction false} SiftOne(cfg: Config, c: Contents, now: int, done: set<FlowKey>, key: FlowKey)
    requires UniqueKeys(c)
    ensures Sift(cfg, c, now, done + {key}) == DropIfStale(cfg, Sift(cfg, c, now, done), key, now)
  {
    if c != [] {
      var rest := Sift(cfg, c[1..], now, done);
      if KeyOf(c[0].flow) == key {
        SiftAbsent(cfg, c[1..], now, done, key);
      } else {
        SiftOne(cfg, c[1..], now, done, key);
        PrependIndex(c[0], rest, key);
      }
    }
  }

  lemma PrependIndex(r: Record, c: Contents, key: FlowKey)
    requires KeyOf(r.flow) != key
    ensures IndexOf([r] + c, key) == 1 + IndexOf(c, key)
    ensures IndexOf(c, key) < |c| ==> Without([r] + c, 1 + IndexOf(c, key)) == [r] + Without(c, IndexOf(c, key))
  {
    hide KeyOf;
    assert ([r] + c)[1..] == c;
  }

  /** The data plane's direct write of the time stamp of the record it has just looked up. */
  function Touch(c: Contents, now: int): Contents {
    if c == [] then c else [c[0].(lastSeen := now)] + c[1..]
  }

  // ----- What every operation keeps

  ghost predicate UniqueKeys(c: Contents) {
    forall i, j :: 0 <= i < j < |c| ==> KeyOf(c[i].flow) != KeyOf(c[j].flow)
  }

  /** Most recently seen first. */
  ghost predicate Recent(c: Contents) {
    forall i, j :: 0 <= i < j < |c| ==> c[i].lastSeen >= c[j].lastSeen
  }

  ghost predicate Inv(cfg: Config, c: Contents) {
    cfg.Valid() && UniqueKeys(c) && Recent(c) && |c| <= cfg.maxFlows
  }

  /** A record seen at `at` may stand in front of these. */
  ghost predicate Leads(at: int, rest: Contents) {
    rest == [] || at >= rest[0].lastSeen
  }

  lemma WithoutInv(cfg: Config, c: Contents, i: nat)
    requires Inv(cfg, c) && i < |c|
    ensures Inv(cfg, Without(c, i))
    ensures forall r <- Without(c, i) :: KeyOf(r.flow) != KeyOf(c[i].flow)
  {
    hide KeyOf;
  }

  lemma FrontUnique(r: Record, c: Contents)
    requires UniqueKeys(c) && forall q <- c :: KeyOf(q.flow) != KeyOf(r.flow)
    ensures UniqueKeys([r] + c)
  {
    hide KeyOf;
  }

  lemma FrontRecent(r: Record, c: Contents)
    requires Recent(c)
    ensures Recent([r] + c) <==> Leads(r.lastSeen, c)
  {
    var d := [r] + c;
    if c != [] {
      assert d[0] == r && d[1] == c[0];
    }
    if Leads(r.lastSeen, c) {
      forall i, j | 0 <= i < j < |d| ensures d[i].lastSeen >= d[j].lastSeen {
        assert d[j] == c[j - 1] && (i > 0 ==> d[i] == c[i - 1]);
      }
    }
  }

  lemma FrontInv(cfg: Config, r: Record, c: Contents)
    requires Inv(cfg, c) && |c| < cfg.maxFlows && forall q <- c :: KeyOf(q.flow) != KeyOf(r.flow)
    ensures Inv(cfg, [r] + c) <==> Leads(r.lastSeen, c)
  {
    hide KeyOf, UniqueKeys, Recent;
    FrontUnique(r, c);
    FrontRecent(r, c);
  }

  lemma PurgeInv(cfg: Config, c: Contents, key: FlowKey, now: int)
    requires Inv(cfg, c)
    ensures Inv(cfg, Purge(cfg, c, key, now))
    ensures Live(cfg, c, key, now).None? ==> forall r <- Purge(cfg, c, key, now) :: KeyOf(r.flow) != key
  {
    var i := IndexOf(c, key);
    if i < |c| {
      WithoutInv(cfg, c, i);
    }
  }

  /** What a lookup that reads `now` puts its record in front of, if it moves or enters one. */
  function Behind(cfg: Config, c: Contents, f: Flow, create: bool, now: int): Option<Contents>
    requires 0 < cfg.maxFlows
  {
    var i := IndexOf(c, KeyOf(f));
    if Live(cfg, c, KeyOf(f), now).Some? then Some(Without(c, i))
    else if create then Some(MakeRoom(cfg, Purge(cfg, c, KeyOf(f), now)))
    else None
  }

  ghost predicate InFront(now: int, behind: Option<Contents>) {
    behind.Some? ==> Leads(now, behind.value)
  }

  lemma MakeRoomInv(cfg: Config, c: Contents)
    requires Inv(cfg, c)
    ensures Inv(cfg, MakeRoom(cfg, c)) && |MakeRoom(cfg, c)| < cfg.maxFlows && forall r <- MakeRoom(cfg, c) :: r in c
  {}

  /** A lookup keeps the order exactly if its reading is not before that of the record it goes in front of. */
  lemma LookupInv(cfg: Config, c: Contents, f: Flow, create: bool, initial: FlowState, now: int)
    requires Inv(cfg, c)
    ensures Inv(cfg, Lookup(cfg, c, f, create, initial, now)) <==> InFront(now, Behind(cfg, c, f, create, now))
  {
    hide KeyOf, NormalizeFlowKey, Inv;
    var i := IndexOf(c, KeyOf(f));
    PurgeInv(cfg, c, KeyOf(f), now);
    assert cfg.Valid() && |c| <= cfg.maxFlows by { InvParts(cfg, c); }
    if Live(cfg, c, KeyOf(f), now).Some? {
      WithoutInv(cfg, c, i);
      FrontInv(cfg, Promoted(c[i], now, initial), Without(c, i));
    } else if create {
      var rest := Purge(cfg, c, KeyOf(f), now);
      MakeRoomInv(cfg, rest);
      FrontInv(cfg, Record(f, now, now, initial, NormalizeFlowKey(f).1), MakeRoom(cfg, rest));
    }
  }

  lemma InvParts(cfg: Config, c: Contents)
    requires Inv(cfg, c)
    ensures cfg.Valid() && |c| <= cfg.maxFlows
  {}

  lemma UpdateStateInv(cfg: Config, c: Contents, f: Flow, state: FlowState, now: int)
    requires Inv(cfg, c)
    ensures cfg.Valid() &&
            (Inv(cfg, UpdateState(cfg, c, f, state, now)) <==> InFront(now, Behind(cfg, c, f, false, now)))
  {
    hide KeyOf, Inv;
    var i := IndexOf(c, KeyOf(f));
    PurgeInv(cfg, c, KeyOf(f), now);
    InvParts(cfg, c);
    if Live(cfg, c, KeyOf(f), now).Some? {
      WithoutInv(cfg, c, i);
      FrontInv(cfg, c[i].(lastSeen := now, state := state), Without(c, i));
    }
  }

  lemma {:induction false} ExpireInv(cfg: Config, c: Contents, now: int)
    requires Inv(cfg, c)
    ensures Inv(cfg, ExpireOldFlows(cfg, c, now))
    ensures forall r :: r in ExpireOldFlows(cfg, c, now)
                        <==> r in c && r.state != Closed && now - r.lastSeen <= IdleLimit(cfg, r.flow.proto)
    ensures |ExpireOldFlows(cfg, c, now)| <= |c|
  {
    hide KeyOf;
    if c != [] {
      assert c == [c[0]] + c[1..];
      ExpireInv(cfg, c[1..], now);
      if !Stale(cfg, c[0], now) {
        var rest := ExpireOldFlows(cfg, c[1..], now);
        if rest != [] {
          assert rest[0] in c[1..];
        }
        FrontInv(cfg, c[0], rest);
      }
    }
  }

  lemma RemoveInv(cfg: Config, c: Contents, key: FlowKey)
    requires Inv(cfg, c)
    ensures Inv(cfg, RemoveFlow(c, key))
  {
    if IndexOf(c, key) < |c| {
      WithoutInv(cfg, c, IndexOf(c, key));
    }
  }

  /**
   Making room removes the least recently used records, as few as needed: whatever
   goes was seen no later than anything that stays.
   */
  lemma EvictsLeastRecent(cfg: Config, c: Contents)
    requires Inv(cfg, c)
    ensures var kept := MakeRoom(cfg, c);
            && kept <= c && |kept| < cfg.maxFlows
            && (|c| < cfg.maxFlows ==> kept == c)
            && (|c| == cfg.maxFlows ==> |kept| == |c| - 1)
            && forall i, j :: 0 <= i < |kept| <= j < |c| ==> c[j].lastSeen <= kept[i].lastSeen
  {}

  /**
   The inbound filter stamps a record again without moving it. That keeps the order
   exactly if the reading lies between those of the records around it.
   */
  lemma StampKeepsOrderIff(cfg: Config, c: Contents, i: nat, now: int)
    requires Inv(cfg, c) && i < |c|
    ensures Inv(cfg, c[i := c[i].(lastSeen := now)]) <==> (i == 0 || c[i - 1].lastSeen >= now) && Leads(now, c[i + 1..])
  {
    hide KeyOf;
    var d := c[i := c[i].(lastSeen := now)];
    assert forall j :: 0 <= j < |c| ==> d[j].flow == c[j].flow;
    if i > 0 {
      assert d[i - 1] == c[i - 1] && d[i].lastSeen == now;
    }
    if i + 1 < |c| {
      assert d[i + 1] == c[i + 1] && c[i + 1..][0] == c[i + 1];
    }
  }

  // ----- Runs

  datatype Op =
    | DoLookup(flow: Flow, create: bool, initial: FlowState)
    | DoUpdateState(flow: Flow, state: FlowState)
    | DoRemoveFlow(key: FlowKey)
    | DoExpireOldFlows

  /** An operation, in the order in which it reaches the list, and the time it has read. */
  datatype Call = Call(op: Op, at: int)

  function Apply(cfg: Config, c: Contents, e: Call): Contents
    requires 0 < cfg.maxFlows
  {
    match e.op
    case DoLookup(f, create, initial) => Lookup(cfg, c, f, create, initial, e.at)
    case DoUpdateState(f, state) => UpdateState(cfg, c, f, state, e.at)
    case DoRemoveFlow(key) => RemoveFlow(c, key)
    case DoExpireOldFlows => ExpireOldFlows(cfg, c, e.at)
  }

  /** The operation's reading is not before that of the record it goes in front of. */
  ghost predicate InPlace(cfg: Config, c: Contents, e: Call)
    requires 0 < cfg.maxFlows
  {
    match e.op
    case DoLookup(f, create, _) => InFront(e.at, Behind(cfg, c, f, create, e.at))
    case DoUpdateState(f, _) => InFront(e.at, Behind(cfg, c, f, false, e.at))
    case _ => true
  }

  lemma ApplyInv(cfg: Config, c: Contents, e: Call)
    requires Inv(cfg, c)
    ensures cfg.Valid() && (Inv(cfg, Apply(cfg, c, e)) <==> InPlace(cfg, c, e))
  {
    hide Inv, KeyOf;
    InvParts(cfg, c);
    match e.op
    case DoLookup(f, create, initial) => LookupInv(cfg, c, f, create, initial, e.at);
    case DoUpdateState(f, state) => UpdateStateInv(cfg, c, f, state, e.at);
    case DoRemoveFlow(key) => RemoveInv(cfg, c, key);
    case DoExpireOldFlows => ExpireInv(cfg, c, e.at);
  }

  /** The table is in order in every state of the run. */
  ghost predicate OrderedThroughout(cfg: Config, c: Contents, calls: seq<Call>)
    requires 0 < cfg.maxFlows
    decreases |calls|
  {
    Inv(cfg, c) && (calls != [] ==> OrderedThroughout(cfg, Apply(cfg, c, calls[0]), calls[1..]))
  }

  ghost predicate AllInPlace(cfg: Config, c: Contents, calls: seq<Call>)
    requires 0 < cfg.maxFlows
    decreases |calls|
  {
    calls != [] ==> InPlace(cfg, c, calls[0]) && AllInPlace(cfg, Apply(cfg, c, calls[0]), calls[1..])
  }

  /**
   Over every run of the table's operations, whatever they have read: the table holds at
   most `maxFlows` records, one per key, in the order they were last seen, in every state,
   if and only if no operation goes in front of a record with a later reading.
   */
  lemma {:induction false} RunInv(cfg: Config, c: Contents, calls: seq<Call>)
    requires Inv(cfg, c)
    ensures cfg.Valid() && (OrderedThroughout(cfg, c, calls) <==> AllInPlace(cfg, c, calls))
    decreases |calls|
  {
    hide Inv, Apply, InPlace;
    InvParts(cfg, c);
    if calls != [] {
      ApplyInv(cfg, c, calls[0]);
      if Inv(cfg, Apply(cfg, c, calls[0])) {
        RunInv(cfg, Apply(cfg, c, calls[0]), calls[1..]);
      }
    }
  }

  /** Readings never go back, from `from` on. */
  ghost predicate Clocked(calls: seq<Call>, from: int)
    decreases |calls|
  {
    calls != [] ==> from <= calls[0].at && Clocked(calls[1..], calls[0].at)
  }

  ghost predicate SeenBy(c: Contents, now: int) {
    forall r <- c :: r.lastSeen <= now
  }

  lemma ApplySeen(cfg: Config, c: Contents, e: Call)
    requires cfg.Valid() && SeenBy(c, e.at)
    ensures SeenBy(Apply(cfg, c, e), e.at) && InPlace(cfg, c, e)
  {
    hide KeyOf, NormalizeFlowKey;
    if e.op.DoExpireOldFlows? {
      ExpireKeeps(cfg, c, e.at);
    }
  }

  lemma {:induction false} ExpireKeeps(cfg: Config, c: Contents, now: int)
    ensures forall r <- ExpireOldFlows(cfg, c, now) :: r in c
  {
    if c != [] {
      ExpireKeeps(cfg, c[1..], now);
    }
  }

  /** With readings in the order of the list, nothing ever goes out of place. */
  lemma {:induction false} ClockedIsInPlace(cfg: Config, c: Contents, calls: seq<Call>, from: int)
    requires cfg.Valid() && SeenBy(c, from) && Clocked(calls, from)
    ensures AllInPlace(cfg, c, calls)
    decreases |calls|
  {
    hide Apply, InPlace;
    if calls != [] {
      assert SeenBy(c, calls[0].at);
      ApplySeen(cfg, c, calls[0]);
      ClockedIsInPlace(cfg, Apply(cfg, c, calls[0]), calls[1..], calls[0].at);
    }
  }
}
