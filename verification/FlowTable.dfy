/**
 The flow table itself: 64 shard maps for lookup, and one hand-linked list through
 all entries, most recently used first, for eviction. Every operation is proved to
 act on the list's contents as `FlowRecency` says, and to keep maps and list in step.

 Each operation is one step: its locks are held throughout.
 */
module FlowTable {
  import opened Collections
  import opened Flows
  import opened FlowRecency

  const SHARDS := 64
  const MAX_EVICT_ATTEMPTS := 8

  class FlowEntry {
    const flow: Flow
    const created: int
    var lastSeen: int
    var state: FlowState
    const isReplyDir: bool
    var next: FlowEntry?
    var prev: FlowEntry?

    constructor (flow: Flow, now: int, state: FlowState, isReplyDir: bool)
      ensures Value() == Record(flow, now, now, state, isReplyDir)
      ensures next == null && prev == null
    {
      this.flow, created, lastSeen, this.state, this.isReplyDir := flow, now, now, state, isReplyDir;
      next, prev := null, null;
    }

    ghost function Value(): Record
      reads this`lastSeen, this`state
    {
      Record(flow, created, lastSeen, state, isReplyDir)
    }
  }

  /** Position `k`, if it is one, holds what no other position holds. */
  ghost predicate Apart<T>(s: seq<T>, k: int) {
    forall j :: 0 <= j < |s| && 0 <= k < |s| && j != k ==> s[j] != s[k]
  }

  lemma AllApart<T>(s: seq<T>)
    requires Distinct(s)
    ensures forall k :: Apart(s, k)
  {}

  lemma WithoutMembers<T>(s: seq<T>, i: nat)
    requires Distinct(s) && i < |s|
    ensures Distinct(Without(s, i))
    ensures forall x :: x in Without(s, i) <==> x in s && x != s[i]
  {
    forall x | x in s && x != s[i] ensures x in Without(s, i) {
      var j :| 0 <= j < |s| && s[j] == x;
      assert Without(s, i)[if j < i then j else j - 1] == x;
    }
  }

  /** The entry at a position, or nothing outside the sequence. */
  ghost function At(es: seq<FlowEntry>, i: int): FlowEntry? {
    if 0 <= i < |es| then es[i] else null
  }

  /** The doubly linked eviction list; `order` is the sequence it stores. */
  class EvictList {
    var head: FlowEntry?
    var tail: FlowEntry?
    ghost var order: seq<FlowEntry>

    ghost predicate Valid()
      reads this, order`next, order`prev
    {
      && Distinct(order)
      && head == At(order, 0)
      && tail == At(order, |order| - 1)
      && (forall i {:trigger order[i].next} :: 0 <= i < |order| ==> order[i].next == At(order, i + 1))
      && (forall i {:trigger order[i].prev} :: 0 <= i < |order| ==> order[i].prev == At(order, i - 1))
    }

    constructor ()
      ensures Valid() && order == []
    {
      head, tail, order := null, null, [];
    }

    lemma OrderDistinct()
      requires Valid()
      ensures Distinct(order)
    {}

    /** The neighbours of position `i`, and that no other position holds the same entry. */
    lemma Around(i: nat)
      requires Valid() && i < |order|
      ensures order[i].next == At(order, i + 1) && order[i].prev == At(order, i - 1)
      ensures Apart(order, i - 1) && Apart(order, i) && Apart(order, i + 1)
      ensures Distinct(Without(order, i))
    {
      WithoutMembers(order, i);
    }

    method Unlink(entry: FlowEntry, ghost i: nat)
      requires Valid() && i < |order| && order[i] == entry
      modifies this, order`next, order`prev
      ensures Valid() && order == Without(old(order), i)
      ensures entry.next == null && entry.prev == null
    {
      hide Distinct;
      ghost var was := order;
      Around(i);
      if entry.prev != null {
        entry.prev.next := entry.next;
      } else {
        head := entry.next;
      }
      if entry.next != null {
        entry.next.prev := entry.prev;
      } else {
        tail := entry.prev;
      }
      entry.prev := null;
      entry.next := null;
      order := Without(was, i);
      forall j | 0 <= j < |order|
        ensures order[j].next == At(order, j + 1) && order[j].prev == At(order, j - 1)
      {
        assert order[j] == was[if j < i then j else j + 1];
      }
    }

    method LinkFront(entry: FlowEntry)
      requires Valid() && entry !in order
      modifies this, entry`next, entry`prev, order`prev
      ensures Valid() && order == [entry] + old(order)
    {
      ghost var was := order;
      AllApart(was);
      assert Distinct([entry] + was);
      hide Distinct;
      entry.next := head;
      entry.prev := null;
      if head != null {
        head.prev := entry;
      }
      head := entry;
      if tail == null {
        tail := entry;
      }
      order := [entry] + was;
      assert Apart(was, 0);
      forall j | 0 <= j < |order|
        ensures order[j].next == At(order, j + 1) && order[j].prev == At(order, j - 1)
      {
        assert order[j] == if j == 0 then entry else was[j - 1];
      }
    }

    method LinkBack(entry: FlowEntry)
      requires Valid() && entry !in order
      modifies this, entry`next, entry`prev, order`next
      ensures Valid() && order == old(order) + [entry]
    {
      ghost var was := order;
      AllApart(was);
      assert Distinct(was + [entry]);
      hide Distinct;
      entry.prev := tail;
      entry.next := null;
      if tail != null {
        tail.next := entry;
      }
      tail := entry;
      if head == null {
        head := entry;
      }
      order := was + [entry];
      assert Apart(was, |was| - 1);
      forall j | 0 <= j < |order|
        ensures order[j].next == At(order, j + 1) && order[j].prev == At(order, j - 1)
      {
        assert order[j] == if j == |was| then entry else was[j];
      }
    }

    method MoveToFront(entry: FlowEntry, ghost i: nat)
      requires Valid() && i < |order| && order[i] == entry
      modifies this, order`next, order`prev
      ensures Valid() && order == [entry] + Without(old(order), i)
    {
      Unlink(entry, i);
      LinkFront(entry);
    }

    method PopOldest() returns (e: FlowEntry?)
      requires Valid()
      modifies this, order`next, order`prev
      ensures Valid()
      ensures e == null ==> old(order) == [] && order == []
      ensures e != null ==> old(order) != [] && e == old(order)[|old(order)| - 1]
                            && order == old(order)[..|old(order)| - 1]
    {
      e := tail;
      if e == null {
        return;
      }
      Unlink(e, |order| - 1);
    }
  }

  // ----- Shards

  type Shard = map<FlowKey, FlowEntry>

  /** The number of entries in all shards together. */
  ghost function Total(shards: seq<Shard>): nat {
    if shards == [] then 0 else |shards[0]| + Total(shards[1..])
  }

  function ShardOf(hash: FlowKey -> nat, key: FlowKey): (s: nat)
    ensures s < SHARDS
  {
    hash(key) % SHARDS
  }

  ghost predicate Stored(hash: FlowKey -> nat, shards: seq<Shard>, e: FlowEntry)
    requires |shards| == SHARDS
  {
    var key := KeyOf(e.flow);
    var shard := shards[ShardOf(hash, key)];
    key in shard && shard[key] == e
  }

  /** Shard `s` holds entries of `order` only, each under its own key, and `s` is that key's shard. */
  ghost predicate ShardInStep(hash: FlowKey -> nat, shard: Shard, s: nat, order: seq<FlowEntry>) {
    forall key :: key in shard ==> ShardOf(hash, key) == s && KeyOf(shard[key].flow) == key && shard[key] in order
  }

  /** The shards together hold exactly the entries of `order`. */
  ghost predicate InStep(hash: FlowKey -> nat, shards: seq<Shard>, order: seq<FlowEntry>) {
    && |shards| == SHARDS
    && (forall e :: e in order ==> Stored(hash, shards, e))
    && (forall s :: 0 <= s < SHARDS ==> ShardInStep(hash, shards[s], s, order))
  }

  lemma InStepDelete(hash: FlowKey -> nat, shards: seq<Shard>, order: seq<FlowEntry>, i: nat)
    requires InStep(hash, shards, order) && Distinct(order) && i < |order|
    ensures var key := KeyOf(order[i].flow);
            var s := ShardOf(hash, key);
            && key in shards[s]
            && InStep(hash, shards[s := shards[s] - {key}], Without(order, i))
  {
    var entry := order[i];
    var key := KeyOf(entry.flow);
    var s := ShardOf(hash, key);
    var after := shards[s := shards[s] - {key}];
    assert Stored(hash, shards, entry);
    WithoutMembers(order, i);
    forall e | e in Without(order, i) ensures Stored(hash, after, e) {
      assert Stored(hash, shards, e);
    }
    forall t | 0 <= t < SHARDS ensures ShardInStep(hash, after[t], t, Without(order, i)) {
      assert ShardInStep(hash, shards[t], t, order);
    }
  }

  lemma InStepAdd(hash: FlowKey -> nat, shards: seq<Shard>, order: seq<FlowEntry>, entry: FlowEntry)
    requires InStep(hash, shards, order)
    requires KeyOf(entry.flow) !in shards[ShardOf(hash, KeyOf(entry.flow))]
    ensures var key := KeyOf(entry.flow);
            var s := ShardOf(hash, key);
            InStep(hash, shards[s := shards[s][key := entry]], [entry] + order)
  {
    var key := KeyOf(entry.flow);
    var s := ShardOf(hash, key);
    var after := shards[s := shards[s][key := entry]];
    forall e | e in [entry] + order ensures Stored(hash, after, e) {
      if e != entry {
        assert Stored(hash, shards, e);
      }
    }
    forall t | 0 <= t < SHARDS ensures ShardInStep(hash, after[t], t, [entry] + order) {
      assert ShardInStep(hash, shards[t], t, order);
    }
  }

  /** Keys swept in every shard include the keys of all entries. */
  lemma AllKeysIn(hash: FlowKey -> nat, shards: seq<Shard>, order: seq<FlowEntry>, c: Contents, keys: set<FlowKey>)
    requires InStep(hash, shards, order)
    requires |c| == |order| && forall j :: 0 <= j < |c| ==> c[j].flow == order[j].flow
    requires forall t :: 0 <= t < |shards| ==> shards[t].Keys <= keys
    ensures forall j :: 0 <= j < |c| ==> KeyOf(c[j].flow) in keys
  {
    forall j | 0 <= j < |c| ensures KeyOf(c[j].flow) in keys {
      assert Stored(hash, shards, order[j]);
    }
  }

  lemma InStepReorder(hash: FlowKey -> nat, shards: seq<Shard>, order: seq<FlowEntry>, other: seq<FlowEntry>)
    requires InStep(hash, shards, order)
    requires forall e :: e in order <==> e in other
    ensures InStep(hash, shards, other)
  {
    forall t | 0 <= t < SHARDS ensures ShardInStep(hash, shards[t], t, other) {
      assert ShardInStep(hash, shards[t], t, order);
    }
  }

  lemma {:induction false} TotalUpdate(shards: seq<Shard>, i: nat, m: Shard)
    requires i < |shards|
    ensures Total(shards[i := m]) == Total(shards) - |shards[i]| + |m|
  {
    if i == 0 {
      assert shards[0 := m][1..] == shards[1..];
    } else {
      assert shards[i := m][1..] == shards[1..][i - 1 := m];
      TotalUpdate(shards[1..], i - 1, m);
    }
  }

  lemma {:induction false} TotalEmpty(shards: seq<Shard>)
    requires forall i :: 0 <= i < |shards| ==> shards[i] == map[]
    ensures Total(shards) == 0
  {
    if shards != [] {
      TotalEmpty(shards[1..]);
    }
  }

  ghost function Values(es: seq<FlowEntry>): (c: Contents)
    reads es`lastSeen, es`state
    ensures |c| == |es|
  {
    if es == [] then [] else [es[0].Value()] + Values(es[1..])
  }

  lemma {:induction false} ValuesAt(es: seq<FlowEntry>)
    ensures forall i :: 0 <= i < |es| ==> Values(es)[i] == es[i].Value()
  {
    if es != [] {
      ValuesAt(es[1..]);
    }
  }

  lemma ValuesWithout(es: seq<FlowEntry>, i: nat)
    requires i < |es|
    ensures Values(Without(es, i)) == Without(Values(es), i)
  {
    hide Values;
    ValuesAt(es);
    ValuesAt(Without(es, i));
    assert Without(Values(es), i) == Values(Without(es, i));
  }

  lemma ValuesWithoutLast(es: seq<FlowEntry>)
    requires es != [] && Distinct(es)
    ensures var last := |es| - 1;
            && Without(es, last) == es[..last]
            && Values(es[..last]) == Values(es)[..last]
            && es[last] !in es[..last]
  {
    hide Values;
    ValuesAt(es);
    ValuesAt(es[..|es| - 1]);
    assert Values(es[..|es| - 1]) == Values(es)[..|es| - 1];
  }

  lemma ValuesFront(e: FlowEntry, es: seq<FlowEntry>)
    ensures Values([e] + es) == [e.Value()] + Values(es)
  {
    assert ([e] + es)[1..] == es;
  }

  // ----- The table

  ghost predicate FreeFrom(contended: nat -> set<nat>, n: nat, s: nat) {
    exists m :: m >= n && s !in contended(m)
  }

  /** No shard is found locked from some attempt on for ever. */
  ghost predicate Fair(contended: nat -> set<nat>) {
    forall n, s :: FreeFrom(contended, n, s)
  }

  class FlowTable {
    const config: Config
    /** The shard hash; any fixed function of the key. */
    const hash: FlowKey -> nat
    const shards: array<Shard>
    const list: EvictList
    var flowCount: int

    ghost predicate Valid()
      reads this, shards, list, list.order`next, list.order`prev
    {
      && config.Valid()
      && shards.Length == SHARDS
      && list.Valid()
      && InStep(hash, shards[..], list.order)
      && flowCount == |list.order| == Total(shards[..])
      && flowCount <= config.maxFlows
    }

    ghost function Contents(): Contents
      reads this, list, list.order`lastSeen, list.order`state
    {
      Values(list.order)
    }

    /** Caps and timeouts of 0 or less stand for the defaults; times are in nanoseconds. */
    constructor (maxFlows: int, tcpIdle: int, udpIdle: int, icmpIdle: int, hash: FlowKey -> nat)
      ensures Valid() && Contents() == [] && this.hash == hash
      ensures config.maxFlows == if maxFlows > 0 then maxFlows else 16384
      ensures config.tcpIdle == if tcpIdle > 0 then tcpIdle else 300_000_000_000
      ensures config.udpIdle == if udpIdle > 0 then udpIdle else 60_000_000_000
      ensures config.icmpIdle == if icmpIdle > 0 then icmpIdle else 30_000_000_000
    {
      this.config := Config(
        if maxFlows <= 0 then 16384 else maxFlows,
        if tcpIdle <= 0 then 300_000_000_000 else tcpIdle,
        if udpIdle <= 0 then 60_000_000_000 else udpIdle,
        if icmpIdle <= 0 then 30_000_000_000 else icmpIdle);
      this.hash := hash;
      shards := new Shard[SHARDS](_ => map[]);
      list := new EvictList();
      flowCount := 0;
      new;
      TotalEmpty(shards[..]);
    }

    /** The list position of the entry a shard holds for `key`, as `IndexOf` finds it in the contents. */
    lemma Position(key: FlowKey)
      requires Valid()
      ensures var i, shard := IndexOf(Contents(), key), shards[ShardOf(hash, key)];
              && (i < |list.order| <==> key in shard)
              && (i < |list.order| ==> list.order[i] == shard[key] && Contents()[i] == shard[key].Value())
    {
      hide EvictList.Valid, Values;
      ValuesAt(list.order);
      var i, s := IndexOf(Contents(), key), ShardOf(hash, key);
      if i < |list.order| {
        assert Stored(hash, shards[..], list.order[i]);
      }
      if key in shards[s] {
        assert ShardInStep(hash, shards[..][s], s, list.order);
        var j :| 0 <= j < |list.order| && list.order[j] == shards[s][key];
        assert KeyOf(Contents()[j].flow) == key;
      }
    }

    /** Keys are unique in the contents, since a shard holds one entry per key. */
    lemma KeysUnique()
      requires Valid()
      ensures UniqueKeys(Contents())
    {
      hide EvictList.Valid, Values;
      ValuesAt(list.order);
      list.OrderDistinct();
      var c := Contents();
      forall i, j | 0 <= i < j < |c| ensures KeyOf(c[i].flow) != KeyOf(c[j].flow) {
        assert Stored(hash, shards[..], list.order[i]) && Stored(hash, shards[..], list.order[j]);
      }
    }

    method DeleteFromShard(entry: FlowEntry, ghost order: seq<FlowEntry>, ghost i: nat)
      requires InStep(hash, shards[..], order) && Distinct(order)
      requires i < |order| && order[i] == entry
      modifies shards
      ensures InStep(hash, shards[..], Without(order, i))
      ensures var key := KeyOf(entry.flow);
              var s := ShardOf(hash, key);
              shards[..] == old(shards[..])[s := old(shards[..])[s] - {key}]
      ensures Total(shards[..]) == old(Total(shards[..])) - 1
    {
      var key := KeyOf(entry.flow);
      var s := ShardOf(hash, key);
      ghost var before := shards[..];
      InStepDelete(hash, before, order, i);
      TotalUpdate(before, s, before[s] - {key});
      shards[s] := shards[s] - {key};
      assert shards[..] == before[s := before[s] - {key}];
    }

    method AddToShard(entry: FlowEntry, ghost order: seq<FlowEntry>)
      requires InStep(hash, shards[..], order)
      requires KeyOf(entry.flow) !in shards[ShardOf(hash, KeyOf(entry.flow))]
      modifies shards
      ensures InStep(hash, shards[..], [entry] + order)
      ensures Total(shards[..]) == old(Total(shards[..])) + 1
    {
      var key := KeyOf(entry.flow);
      var s := ShardOf(hash, key);
      ghost var before := shards[..];
      InStepAdd(hash, before, order, entry);
      TotalUpdate(before, s, before[s][key := entry]);
      shards[s] := shards[s][key := entry];
      assert shards[..] == before[s := before[s][key := entry]];
    }

    /** Takes an entry out of its shard, the list and the count. */
    method Forget(entry: FlowEntry, ghost i: nat)
      requires Valid() && i < |list.order| && list.order[i] == entry
      modifies this`flowCount, shards, list, list.order`next, list.order`prev
      ensures Valid() && Contents() == Without(old(Contents()), i)
      ensures list.order == Without(old(list.order), i)
      ensures var key := KeyOf(entry.flow);
              var s := ShardOf(hash, key);
              shards[..] == old(shards[..])[s := old(shards[..])[s] - {key}]
      ensures flowCount == old(flowCount) - 1
    {
      hide EvictList.Valid, InStep, Total, Values;
      list.OrderDistinct();
      DeleteFromShard(entry, list.order, i);
      list.Unlink(entry, i);
      flowCount := flowCount - 1;
      assert Values(old(list.order)) == old(Contents());
      ValuesWithout(old(list.order), i);
    }

    /** Stamps an entry and moves it to the front of the list. */
    method Refresh(entry: FlowEntry, state: FlowState, now: int, ghost i: nat)
      requires Valid() && i < |list.order| && list.order[i] == entry
      modifies list, list.order`next, list.order`prev, entry`lastSeen, entry`state
      ensures Valid() && list.order == [entry] + Without(old(list.order), i)
      ensures Contents() == [old(Contents())[i].(lastSeen := now, state := state)] + Without(old(Contents()), i)
    {
      hide EvictList.Valid, InStep, Total, Values;
      list.OrderDistinct();
      ghost var was := list.order;
      ghost var rest := Without(was, i);
      WithoutMembers(was, i);
      ValuesWithout(was, i);
      ValuesAt(was);
      entry.lastSeen := now;
      entry.state := state;
      assert Values(rest) == old(Values(rest));
      list.MoveToFront(entry, i);
      InStepReorder(hash, shards[..], was, list.order);
      ValuesFront(entry, rest);
    }

    /** Adds a new entry whose key is not stored. */
    method Insert(entry: FlowEntry)
      requires Valid() && entry !in list.order && flowCount < config.maxFlows
      requires KeyOf(entry.flow) !in shards[ShardOf(hash, KeyOf(entry.flow))]
      modifies this`flowCount, shards, list, list.order`prev, entry`next, entry`prev
      ensures Valid() && list.order == [entry] + old(list.order)
      ensures Contents() == [entry.Value()] + old(Contents())
    {
      hide EvictList.Valid, InStep, Total, Values;
      ghost var was := list.order;
      AddToShard(entry, was);
      list.LinkFront(entry);
      flowCount := flowCount + 1;
      ValuesFront(entry, was);
    }

    /** One attempt at evicting the least recently used entry; a victim in a contended shard is put back. */
    method TryEvict(callerShard: nat, contended: set<nat>) returns (done: bool)
      requires Valid()
      modifies this`flowCount, shards, list, list.order`next, list.order`prev
      ensures Valid()
      ensures done <==> old(list.order) == [] || CanEvict(old(list.order), callerShard, contended)
      ensures if done && old(list.order) != [] then
                && list.order == old(list.order)[..|old(list.order)| - 1]
                && Contents() == old(Contents())[..|old(list.order)| - 1]
              else list.order == old(list.order)
    {
      hide EvictList.Valid, InStep, Total, Values, KeyOf, Config.Valid, Distinct;
      ghost var was := list.order;
      list.OrderDistinct();
      var e := list.PopOldest();
      if e == null {
        return true;
      }
      ValuesWithoutLast(was);
      var s := ShardOf(hash, KeyOf(e.flow));
      if s == callerShard || s !in contended {
        DeleteFromShard(e, was, |was| - 1);
        flowCount := flowCount - 1;
        return true;
      }
      list.LinkBack(e);
      assert list.order == was;
      return false;
    }

    /** The victim's shard is the caller's own or nobody else has locked it. */
    ghost predicate CanEvict(order: seq<FlowEntry>, callerShard: nat, contended: set<nat>) {
      order != [] &&
      var victim := ShardOf(hash, KeyOf(order[|order| - 1].flow));
      victim == callerShard || victim !in contended
    }

    /** Some attempt of the eight that begin with number `n` finds the victim's shard free. */
    ghost predicate SomeAttempt(order: seq<FlowEntry>, callerShard: nat, contended: nat -> set<nat>, n: nat) {
      exists i :: n <= i < n + MAX_EVICT_ATTEMPTS && CanEvict(order, callerShard, contended(i))
    }

    /**
     Evicts the least recently used entry, in up to eight attempts numbered from `n`.
     `contended` tells which shards other goroutines keep locked at each attempt; if the
     victim's is locked at all of them the table is left as it was.
     */
    method EvictOne(callerShard: nat, contended: nat -> set<nat>, n: nat)
      requires Valid()
      modifies this`flowCount, shards, list, list.order`next, list.order`prev
      ensures Valid()
      ensures if SomeAttempt(old(list.order), callerShard, contended, n) then
                && old(list.order) != [] && list.order == old(list.order)[..|old(list.order)| - 1]
                && Contents() == old(Contents())[..|old(list.order)| - 1]
              else list.order == old(list.order) && Contents() == old(Contents())
    {
      hide EvictList.Valid, InStep, Total, Values, KeyOf, CanEvict, Config.Valid;
      for attempts := 0 to MAX_EVICT_ATTEMPTS
        invariant Valid() && list.order == old(list.order)
        invariant forall i :: n <= i < n + attempts ==> !CanEvict(old(list.order), callerShard, contended(i))
      {
        var done := TryEvict(callerShard, contended(n + attempts));
        if done {
          forall i ensures old(list.order) == [] ==> !CanEvict(old(list.order), callerShard, contended(i)) {
            NothingToEvict(old(list.order), callerShard, contended(i));
          }
          return;
        }
      }
    }

    lemma NothingToEvict(order: seq<FlowEntry>, callerShard: nat, contended: set<nat>)
      ensures order == [] ==> !CanEvict(order, callerShard, contended)
    {}

    /** A later attempt that finds the victim's shard free. */
    lemma FreeAttempt(order: seq<FlowEntry>, callerShard: nat, contended: nat -> set<nat>, n: nat) returns (m: nat)
      requires Fair(contended) && order != []
      ensures m >= n && CanEvict(order, callerShard, contended(m))
    {
      var victim := ShardOf(hash, KeyOf(order[|order| - 1].flow));
      assert FreeFrom(contended, n, victim);
      m :| m >= n && victim !in contended(m);
    }

    /** Evicts until one more entry fits; a key that is not stored stays absent. Ends because no shard stays locked for ever. */
    method EvictUntilRoom(callerShard: nat, contended: nat -> set<nat>, ghost key: FlowKey)
      requires Valid() && key !in shards[ShardOf(hash, key)] && Fair(contended)
      modifies this`flowCount, shards, list, list.order`next, list.order`prev
      ensures Valid() && flowCount < config.maxFlows
      ensures Contents() == MakeRoom(config, old(Contents()))
      ensures list.order <= old(list.order)
      ensures key !in shards[ShardOf(hash, key)]
    {
      hide EvictList.Valid, InStep, Total, Values, IndexOf, CanEvict;
      ghost var c := Contents();
      Position(key);
      var n: nat := 0;
      ghost var m: nat := 0;
      if flowCount >= config.maxFlows {
        m := FreeAttempt(list.order, callerShard, contended, n);
      }
      while flowCount >= config.maxFlows
        invariant Valid() && list.order <= old(list.order)
        invariant flowCount < |c| ==> flowCount >= config.maxFlows - 1
        invariant Contents() == c[..flowCount]
        invariant flowCount >= config.maxFlows ==> n <= m && CanEvict(list.order, callerShard, contended(m))
        decreases flowCount, m - n
      {
        EvictOne(callerShard, contended, n);
        n := n + MAX_EVICT_ATTEMPTS;
      }
      Position(key);
    }

    /** The unexpired entry stored under `key`; an expired one is forgotten. */
    method FindLive(key: FlowKey, now: int) returns (entry: FlowEntry?)
      requires Valid()
      modifies this`flowCount, shards, list, list.order`next, list.order`prev
      ensures Valid()
      ensures Contents() == Purge(config, old(Contents()), key, now)
      ensures entry == null <==> Live(config, old(Contents()), key, now).None?
      ensures entry == null ==> key !in shards[ShardOf(hash, key)]
      ensures forall j :: 0 <= j < |list.order| ==> list.order[j] in old(list.order)
      ensures entry != null ==>
                && list.order == old(list.order)
                && (var i := IndexOf(Contents(), key);
                    i < |list.order| && list.order[i] == entry && Contents()[i] == entry.Value())
    {
      hide EvictList.Valid, InStep, Total, Values, IndexOf;
      var s := ShardOf(hash, key);
      ghost var i := IndexOf(Contents(), key);
      Position(key);
      if key !in shards[s] {
        return null;
      }
      entry := shards[s][key];
      if now - entry.lastSeen > config.Timeout(entry.flow.proto) {
        Forget(entry, i);
        entry := null;
      }
    }

    /** Makes room and a new entry for a flow whose key is not stored. */
    method Create(f: Flow, initialState: FlowState, now: int, contended: nat -> set<nat>) returns (entry: FlowEntry)
      requires Valid() && KeyOf(f) !in shards[ShardOf(hash, KeyOf(f))] && Fair(contended)
      modifies this`flowCount, shards, list, list.order`next, list.order`prev
      ensures Valid() && fresh(entry) && list.order != [] && list.order[0] == entry
      ensures Contents() == [Record(f, now, now, initialState, NormalizeFlowKey(f).1)] + MakeRoom(config, old(Contents()))
      ensures forall j :: 0 <= j < |list.order| ==> list.order[j] in old(list.order) || list.order[j] == entry
    {
      hide EvictList.Valid, InStep, Total, Values, IndexOf, MakeRoom;
      var (key, isReply) := NormalizeFlowKey(f);
      EvictUntilRoom(ShardOf(hash, key), contended, key);
      entry := new FlowEntry(f, now, initialState, isReply);
      Insert(entry);
    }

    /**
     Finds the live entry of a flow, refreshing it, or makes one if asked to. The
     entry returned is at the front of the list.
     */
    method Lookup(f: Flow, createIfMissing: bool, initialState: FlowState, now: int, contended: nat -> set<nat>)
      returns (entry: FlowEntry?, isReply: bool, created: bool)
      requires Valid() && Fair(contended)
      modifies this`flowCount, shards, list, list.order
      ensures Valid()
      ensures Contents() == FlowRecency.Lookup(config, old(Contents()), f, createIfMissing, initialState, now)
      ensures isReply == NormalizeFlowKey(f).1
      ensures created <==> createIfMissing && Live(config, old(Contents()), KeyOf(f), now).None?
      ensures entry == null <==> !createIfMissing && Live(config, old(Contents()), KeyOf(f), now).None?
      ensures entry != null ==> list.order != [] && list.order[0] == entry
      ensures forall j :: 0 <= j < |list.order| ==> list.order[j] in old(list.order) || fresh(list.order[j])
    {
      hide EvictList.Valid, InStep, Total, Values, IndexOf, NormalizeFlowKey;
      var (key, reply) := NormalizeFlowKey(f);
      isReply := reply;
      entry := FindLive(key, now);
      if entry != null {
        var state := entry.state;
        if state == New && initialState == Established {
          state := Established;
        }
        Refresh(entry, state, now, IndexOf(Contents(), key));
        return entry, isReply, false;
      }
      if !createIfMissing {
        return null, isReply, false;
      }
      entry := Create(f, initialState, now, contended);
      created := true;
    }

    method UpdateState(f: Flow, state: FlowState, now: int) returns (found: bool)
      requires Valid()
      modifies this`flowCount, shards, list, list.order
      ensures Valid()
      ensures Contents() == FlowRecency.UpdateState(config, old(Contents()), f, state, now)
      ensures found <==> Live(config, old(Contents()), KeyOf(f), now).Some?
      ensures forall j :: 0 <= j < |list.order| ==> list.order[j] in old(list.order)
    {
      hide EvictList.Valid, InStep, Total, Values, IndexOf, NormalizeFlowKey;
      var key := KeyOf(f);
      var entry := FindLive(key, now);
      if entry == null {
        return false;
      }
      Refresh(entry, state, now, IndexOf(Contents(), key));
      return true;
    }

    method RemoveFlow(key: FlowKey) returns (found: bool)
      requires Valid()
      modifies this`flowCount, shards, list, list.order`next, list.order`prev
      ensures Valid()
      ensures Contents() == FlowRecency.RemoveFlow(old(Contents()), key)
      ensures found <==> IndexOf(old(Contents()), key) < |old(Contents())|
    {
      hide EvictList.Valid, InStep, Total, Values, IndexOf;
      var s := ShardOf(hash, key);
      Position(key);
      if key !in shards[s] {
        return false;
      }
      Forget(shards[s][key], IndexOf(Contents(), key));
      return true;
    }

    /** One entry of the sweep. */
    method ExpireOne(s: nat, key: FlowKey, now: int) returns (removed: nat)
      requires Valid() && s < SHARDS && key in shards[s]
      modifies this`flowCount, shards, list, list.order`next, list.order`prev
      ensures Valid()
      ensures Contents() == DropIfStale(config, old(Contents()), key, now)
      ensures removed == |old(Contents())| - |Contents()|
      ensures forall t :: 0 <= t < SHARDS && t != s ==> shards[t] == old(shards[t])
      ensures old(shards[s].Keys) - {key} <= shards[s].Keys
      ensures forall j :: 0 <= j < |list.order| ==> list.order[j] in old(list.order)
    {
      hide EvictList.Valid, InStep, Total, Values, IndexOf, KeyOf;
      OwnShard(s, key);
      Position(key);
      var entry := shards[s][key];
      var expired := now - entry.lastSeen > config.Timeout(entry.flow.proto);
      var closed := entry.state == Closed;
      if expired || closed {
        Forget(entry, IndexOf(Contents(), key));
        return 1;
      }
      return 0;
    }

    lemma OwnShard(s: nat, key: FlowKey)
      requires Valid() && s < SHARDS && key in shards[s]
      ensures ShardOf(hash, key) == s && KeyOf(shards[s][key].flow) == key
    {
      hide EvictList.Valid;
      assert ShardInStep(hash, shards[..][s], s, list.order);
    }

    /** The sweep of one shard; `done` collects the keys swept so far. */
    method ExpireShard(s: nat, now: int, ghost c: Contents, ghost done: set<FlowKey>)
      returns (removed: nat, ghost done': set<FlowKey>)
      requires Valid() && s < SHARDS && UniqueKeys(c) && Contents() == Sift(config, c, now, done)
      modifies this`flowCount, shards, list, list.order`next, list.order`prev
      ensures Valid() && Contents() == Sift(config, c, now, done')
      ensures done' == done + old(shards[s].Keys)
      ensures removed == |old(Contents())| - |Contents()|
      ensures forall t :: 0 <= t < SHARDS && t != s ==> shards[t] == old(shards[t])
      ensures forall j :: 0 <= j < |list.order| ==> list.order[j] in old(list.order)
    {
      hide EvictList.Valid, InStep, Total, Values, IndexOf, KeyOf, Config.Valid, UniqueKeys, Sift, DropIfStale;
      var todo := shards[s].Keys;
      ghost var keys := todo;
      done', removed := done, 0;
      while todo != {}
        invariant Valid() && todo <= shards[s].Keys && todo <= keys
        invariant forall t :: 0 <= t < SHARDS && t != s ==> shards[t] == old(shards[t])
        invariant done' == done + (keys - todo)
        invariant Contents() == Sift(config, c, now, done') && removed == |old(Contents())| - |Contents()|
        invariant forall j :: 0 <= j < |list.order| ==> list.order[j] in old(list.order)
        decreases todo
      {
        var key :| key in todo;
        todo := todo - {key};
        SiftOne(config, c, now, done', key);
        var one := ExpireOne(s, key, now);
        removed := removed + one;
        done' := done' + {key};
      }
    }

    /** Sweeps every shard for expired and closed entries; `count` is how many went. */
    method ExpireOldFlows(now: int) returns (count: nat)
      requires Valid()
      modifies this`flowCount, shards, list, list.order`next, list.order`prev
      ensures Valid()
      ensures Contents() == FlowRecency.ExpireOldFlows(config, old(Contents()), now)
      ensures count == |old(Contents())| - |Contents()|
    {
      hide EvictList.Valid, InStep, Total, Values, IndexOf, KeyOf, Config.Valid, UniqueKeys, Sift;
      ghost var c := Contents();
      ghost var before := shards[..];
      ghost var done: set<FlowKey> := {};
      KeysUnique();
      ValuesAt(list.order);
      SiftNothing(config, c, now);
      count := 0;
      for s := 0 to SHARDS
        invariant Valid()
        invariant forall t :: s <= t < SHARDS ==> shards[t] == before[t]
        invariant forall t :: 0 <= t < s ==> before[t].Keys <= done
        invariant Contents() == Sift(config, c, now, done) && count == |c| - |Contents()|
        invariant forall j :: 0 <= j < |list.order| ==> list.order[j] in old(list.order)
      {
        var removed;
        removed, done := ExpireShard(s, now, c, done);
        count := count + removed;
      }
      AllKeysIn(hash, before, old(list.order), c, done);
      SiftAll(config, c, now, done);
    }
  }
}
