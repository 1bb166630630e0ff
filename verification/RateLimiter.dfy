/**
 The coordinator's per-address token bucket. Tokens and seconds are real numbers.
 */
module RateLimiter {
  import opened Wrappers
  import opened Collections

  const MAX_ENTRIES := 10000
  /** A bucket not used for this many seconds is collected. */
  const IDLE := 900.0

  datatype Bucket = Bucket(tokens: real, lastFill: real)

  datatype Params = Params(rate: real, burst: real) {
    ghost predicate Valid() {
      rate >= 0.0 && burst >= 1.0
    }
  }

  function Min(a: real, b: real): real {
    if a < b then a else b
  }

  /** The tokens that arrive in `seconds`. */
  function Gain(p: Params, seconds: real): real {
    seconds * p.rate
  }

  /** The tokens a key has at time `now`; a key without a bucket counts as full. */
  function Level(p: Params, b: Option<Bucket>, now: real): real {
    if b.None? then p.burst else Min(p.burst, b.value.tokens + Gain(p, now - b.value.lastFill))
  }

  /** The answer to a request. A new key is always let through. */
  predicate Granted(p: Params, b: Option<Bucket>, now: real) {
    b.None? || Level(p, b, now) >= 1.0
  }

  function AfterRequest(p: Params, b: Option<Bucket>, now: real): Bucket {
    Bucket(if Granted(p, b, now) then Level(p, b, now) - 1.0 else Level(p, b, now), now)
  }

  ghost predicate Oldest(entries: map<string, Bucket>, key: string) {
    key in entries && forall k :: k in entries ==> entries[key].lastFill <= entries[k].lastFill
  }

  function Get(entries: map<string, Bucket>, key: string): Option<Bucket> {
    if key in entries then Some(entries[key]) else None
  }

  // ----- The entry cap

  /** The entries that were not idle at `now`. */
  ghost function NotIdle(entries: map<string, Bucket>, now: real): map<string, Bucket> {
    map k | k in entries && !(entries[k].lastFill < now - IDLE) :: entries[k]
  }

  /** A request by `key`; a new key at the cap has an oldest entry evicted, unless that is the empty key. */
  ghost predicate Asked(p: Params, before: map<string, Bucket>, key: string, now: real, after: map<string, Bucket>) {
    exists victim :: AskedWith(p, before, key, now, victim, after)
  }

  ghost predicate AskedWith(p: Params, before: map<string, Bucket>, key: string, now: real, victim: Option<string>,
                            after: map<string, Bucket>)
  {
    && (victim.Some? <==> key !in before && |before| >= MAX_ENTRIES)
    && (victim.Some? ==> Oldest(before, victim.value))
    && after == (if victim.Some? && victim.value != "" then before - {victim.value} else before)
                [key := AfterRequest(p, Get(before, key), now)]
  }

  /** Evicting the oldest one by one, with some choice among equals, leads from `before` to `after` within the cap. */
  ghost predicate TrimmedTo(before: map<string, Bucket>, after: map<string, Bucket>)
    decreases |before|
  {
    if |before| <= MAX_ENTRIES then after == before
    else exists v :: v != "" && Oldest(before, v) && Shrinks(before, v) && TrimmedTo(before - {v}, after)
  }

  ghost predicate Shrinks(entries: map<string, Bucket>, key: string) {
    |entries - {key}| < |entries|
  }

  /** Evicting the oldest, with some choice among equals, meets the empty key above the cap and so removes nothing. */
  ghost predicate MaySpin(entries: map<string, Bucket>)
    decreases |entries|
  {
    |entries| > MAX_ENTRIES &&
    (Oldest(entries, "") || exists v :: v != "" && Oldest(entries, v) && Shrinks(entries, v) && MaySpin(entries - {v}))
  }

  /** The keys seen after the empty key, and those seen no earlier, itself included. */
  ghost function Newer(entries: map<string, Bucket>): set<string>
    requires "" in entries
  {
    set k | k in entries && entries[k].lastFill > entries[""].lastFill
  }

  ghost function AsNew(entries: map<string, Bucket>): set<string>
    requires "" in entries
  {
    set k | k in entries && entries[k].lastFill >= entries[""].lastFill
  }

  class IPRateLimiter {
    const params: Params
    var entries: map<string, Bucket>

    constructor (ratePerSec: real, burst: real)
      ensures params == Params(ratePerSec, burst) && entries == map[]
    {
      params, entries := Params(ratePerSec, burst), map[];
    }

    /** Removes a least recently used key; the empty key is found but never removed. */
    method EvictOldest() returns (ghost oldest: string)
      modifies this`entries
      ensures old(entries) != map[] ==> Oldest(old(entries), oldest)
      ensures entries == if old(entries) != map[] && oldest != "" then old(entries) - {oldest} else old(entries)
    {
      oldest := "";
      if |entries| == 0 {
        return;
      }
      var oldestKey, oldestTime, first := "", 0.0, true;
      var todo := entries.Keys;
      while todo != {}
        invariant todo <= entries.Keys
        invariant first <==> todo == entries.Keys
        invariant !first ==>
            && oldestKey in entries && entries[oldestKey].lastFill == oldestTime
            && forall k :: k in entries && k !in todo ==> oldestTime <= entries[k].lastFill
        decreases todo
      {
        var k :| k in todo;
        todo := todo - {k};
        if first || entries[k].lastFill < oldestTime {
          oldestKey, oldestTime, first := k, entries[k].lastFill, false;
        }
      }
      oldest := oldestKey;
      if oldestKey != "" {
        entries := entries - {oldestKey};
      }
    }

    method Allow(key: string, now: real) returns (ok: bool, ghost victim: Option<string>)
      modifies this`entries
      ensures ok <==> Granted(params, Get(old(entries), key), now)
      ensures AskedWith(params, old(entries), key, now, victim, entries)
    {
      victim := None;
      if key !in entries {
        if |entries| >= MAX_ENTRIES {
          ghost var oldest := EvictOldest();
          victim := Some(oldest);
        }
        entries := entries[key := Bucket(params.burst - 1.0, now)];
        return true, victim;
      }
      var b := entries[key];
      var tokens := b.tokens + Gain(params, now - b.lastFill);
      if tokens > params.burst {
        tokens := params.burst;
      }
      ok := tokens >= 1.0;
      entries := entries[key := Bucket(if ok then tokens - 1.0 else tokens, now)];
    }

    /**
     One pass of the collector. Its final loop evicts while there are too many entries;
     `spins` tells that an eviction there found the empty key and removed nothing, from
     where the program's loop goes round again.
     */
    method Collect(now: real) returns (spins: bool)
      modifies this`entries
      ensures var live := NotIdle(old(entries), now);
              && (|live| <= MAX_ENTRIES ==> !spins && entries == live)
              && (spins ==> "" in live && |AsNew(live)| > MAX_ENTRIES && Oldest(entries, "") && |entries| > MAX_ENTRIES)
              && ("" in live && |Newer(live)| >= MAX_ENTRIES ==> spins)
              && (!spins ==> TrimmedTo(live, entries))
    {
      DropIdle(now);
      ghost var live := entries;
      while |entries| > MAX_ENTRIES
        invariant |live| <= MAX_ENTRIES ==> entries == live
        invariant MaySpin(entries) ==> MaySpin(live)
        invariant forall after :: TrimmedTo(entries, after) ==> TrimmedTo(live, after)
        decreases |entries|
      {
        ghost var before := entries;
        var size := |entries|;
        ghost var oldest := EvictOldest();
        EvictedSize(before, oldest);
        if |entries| == size {
          SpinsIff(live);
          TrimmableIff(live);
          return true;
        }
        assert Shrinks(before, oldest);
      }
      SpinsIff(live);
      TrimmableIff(live);
      assert TrimmedTo(live, entries);
      return false;
    }

    method DropIdle(now: real)
      modifies this`entries
      ensures entries == NotIdle(old(entries), now)
      ensures forall k :: k in entries <==> k in old(entries) && now - old(entries)[k].lastFill <= 900.0
    {
      var all := entries;
      var todo := all.Keys;
      while todo != {}
        invariant todo <= all.Keys
        invariant forall k :: k in entries <==> k in all && (k in todo || !(all[k].lastFill < now - IDLE))
        invariant forall k :: k in entries ==> entries[k] == all[k]
        decreases todo
      {
        var k :| k in todo;
        todo := todo - {k};
        if all[k].lastFill < now - IDLE {
          entries := entries - {k};
        }
      }
    }
  }

  lemma EvictedSize(entries: map<string, Bucket>, key: string)
    requires key in entries
    ensures |entries - {key}| == |entries| - 1
  {
    assert (entries - {key}).Keys == entries.Keys - {key};
    assert |entries| == |entries.Keys| && |entries - {key}| == |(entries - {key}).Keys|;
  }

  // ----- When the collector spins

  lemma {:induction false} OldestExists(entries: map<string, Bucket>) returns (k: string)
    requires entries != map[]
    ensures Oldest(entries, k)
    decreases |entries|
  {
    var x :| x in entries;
    var rest := entries - {x};
    if rest == map[] {
      assert forall j :: j in entries && j != x ==> j in rest;
      k := x;
    } else {
      EvictedSize(entries, x);
      var y := OldestExists(rest);
      k := if entries[x].lastFill <= entries[y].lastFill then x else y;
      forall j | j in entries ensures entries[k].lastFill <= entries[j].lastFill {
        if j != x {
          assert j in rest;
        }
      }
    }
  }

  /** Evicting an oldest entry other than the empty key takes away none that is newer than it. */
  lemma EvictionKeepsNewer(entries: map<string, Bucket>, v: string)
    requires Oldest(entries, v) && v != "" && "" in entries
    ensures "" in entries - {v} && Newer(entries - {v}) == Newer(entries) && AsNew(entries - {v}) <= AsNew(entries)
    ensures entries[v].lastFill < entries[""].lastFill ==> AsNew(entries - {v}) == AsNew(entries)
  {}

  lemma NewerIsFewer(entries: map<string, Bucket>)
    requires "" in entries
    ensures |Newer(entries)| < |entries| && |AsNew(entries)| <= |entries|
    ensures Oldest(entries, "") ==> |AsNew(entries)| == |entries|
  {
    assert |entries| == |entries.Keys|;
    assert Newer(entries) <= entries.Keys - {""};
    SubsetSize(Newer(entries), entries.Keys - {""});
    SubsetSize(AsNew(entries), entries.Keys);
    if Oldest(entries, "") {
      assert AsNew(entries) == entries.Keys;
    }
  }

  /** Above the cap with room among the newer ones, some entry other than the empty key is oldest. */
  lemma EvictableExists(entries: map<string, Bucket>) returns (v: string)
    requires |entries| > MAX_ENTRIES && ("" in entries ==> |Newer(entries)| < MAX_ENTRIES)
    ensures v != "" && Oldest(entries, v)
  {
    if "" !in entries {
      v := OldestExists(entries);
    } else {
      var rest := entries - {""};
      EvictedSize(entries, "");
      assert |rest| == |rest.Keys|;
      v := OldestExists(rest);
      forall j | j in entries ensures entries[v].lastFill <= entries[j].lastFill {
        if j != "" {
          assert j in rest;
        } else if entries[v].lastFill > entries[""].lastFill {
          forall i | i in rest ensures i in Newer(entries) {
            assert rest[v].lastFill <= rest[i].lastFill;
          }
          SubsetSize(rest.Keys, Newer(entries));
        }
      }
    }
  }

  /** The collector's loop can end if and only if fewer than 10000 live entries are newer than a live empty key. */
  lemma {:induction false} TrimmableIff(entries: map<string, Bucket>)
    ensures (exists after :: TrimmedTo(entries, after)) <==> ("" in entries ==> |Newer(entries)| < MAX_ENTRIES)
    decreases |entries|
  {
    if |entries| <= MAX_ENTRIES {
      assert TrimmedTo(entries, entries);
      if "" in entries {
        NewerIsFewer(entries);
      }
    } else {
      forall v | v != "" && Oldest(entries, v)
        ensures Shrinks(entries, v)
        ensures (exists after :: TrimmedTo(entries - {v}, after)) <==> ("" in entries ==> |Newer(entries)| < MAX_ENTRIES)
      {
        EvictedSize(entries, v);
        TrimmableIff(entries - {v});
        if "" in entries {
          EvictionKeepsNewer(entries, v);
        }
      }
      if "" in entries ==> |Newer(entries)| < MAX_ENTRIES {
        var v := EvictableExists(entries);
        var after :| TrimmedTo(entries - {v}, after);
        assert TrimmedTo(entries, after);
      }
    }
  }

  /** It can meet the empty key if and only if more than 10000 live entries are as new as a live empty key. */
  lemma {:induction false} SpinsIff(entries: map<string, Bucket>)
    ensures MaySpin(entries) <==> "" in entries && |AsNew(entries)| > MAX_ENTRIES
    decreases |entries|
  {
    if "" in entries {
      NewerIsFewer(entries);
    }
    if |entries| > MAX_ENTRIES {
      forall v | v != "" && Oldest(entries, v)
        ensures Shrinks(entries, v)
        ensures MaySpin(entries - {v}) ==> "" in entries && |AsNew(entries)| > MAX_ENTRIES
        ensures "" in entries && |AsNew(entries)| > MAX_ENTRIES && !Oldest(entries, "") ==> MaySpin(entries - {v})
      {
        EvictedSize(entries, v);
        SpinsIff(entries - {v});
        if "" in entries {
          EvictionKeepsNewer(entries, v);
          SubsetSize(AsNew(entries - {v}), AsNew(entries));
        }
      }
      var v := OldestExists(entries);
    }
  }

  // ----- The cap over runs

  datatype Event = Ask(key: string, at: real) | Gc(at: real)

  /** One event; a collection that spins for ever leads nowhere. */
  ghost predicate Steps(p: Params, before: map<string, Bucket>, e: Event, after: map<string, Bucket>) {
    match e
    case Ask(key, at) => Asked(p, before, key, at, after)
    case Gc(at) => TrimmedTo(NotIdle(before, at), after)
  }

  ghost predicate RunsThrough(p: Params, worlds: seq<map<string, Bucket>>, events: seq<Event>) {
    && |worlds| == |events| + 1 && worlds[0] == map[]
    && forall i :: 0 <= i < |events| ==> Steps(p, worlds[i], events[i], worlds[i + 1])
  }

  lemma {:induction false} TrimKeeps(before: map<string, Bucket>, after: map<string, Bucket>)
    requires TrimmedTo(before, after)
    ensures |after| <= MAX_ENTRIES && after.Keys <= before.Keys
    decreases |before|
  {
    if |before| > MAX_ENTRIES {
      var v :| v != "" && Oldest(before, v) && Shrinks(before, v) && TrimmedTo(before - {v}, after);
      TrimKeeps(before - {v}, after);
    }
  }

  lemma OldestIsEntry(entries: map<string, Bucket>, victim: Option<string>)
    requires victim.Some? ==> Oldest(entries, victim.value)
    ensures victim.Some? ==> victim.value in entries
  {}

  lemma AskKeepsCap(p: Params, before: map<string, Bucket>, key: string, at: real, after: map<string, Bucket>)
    requires Asked(p, before, key, at, after) && |before| <= MAX_ENTRIES && "" !in before && key != ""
    ensures |after| <= MAX_ENTRIES && "" !in after
  {
    hide AfterRequest, Get, Oldest;
    var victim :| AskedWith(p, before, key, at, victim, after);
    OldestIsEntry(before, victim);
    var kept := if victim.Some? then before - {victim.value} else before;
    if victim.Some? {
      EvictedSize(before, victim.value);
    }
    assert after.Keys == kept.Keys + {key};
    assert |after| == |after.Keys| && |kept| == |kept.Keys|;
  }

  /** While no request comes with an empty key, the cap holds in every state of every run and no collection can spin. */
  lemma {:induction false} CapHolds(p: Params, worlds: seq<map<string, Bucket>>, events: seq<Event>, i: nat, at: real)
    requires RunsThrough(p, worlds, events) && i <= |events|
    requires forall e <- events :: e.Ask? ==> e.key != ""
    ensures |worlds[i]| <= MAX_ENTRIES && "" !in worlds[i]
    ensures !MaySpin(NotIdle(worlds[i], at)) && exists after :: TrimmedTo(NotIdle(worlds[i], at), after)
    decreases i
  {
    hide Steps, TrimmedTo, MaySpin;
    if i > 0 {
      CapHolds(p, worlds, events, i - 1, at);
      assert Steps(p, worlds[i - 1], events[i - 1], worlds[i]);
      StepKeepsCap(p, worlds[i - 1], events[i - 1], worlds[i]);
    }
    SpinsIff(NotIdle(worlds[i], at));
    TrimmableIff(NotIdle(worlds[i], at));
  }

  lemma StepKeepsCap(p: Params, before: map<string, Bucket>, e: Event, after: map<string, Bucket>)
    requires Steps(p, before, e, after) && |before| <= MAX_ENTRIES && "" !in before && (e.Ask? ==> e.key != "")
    ensures |after| <= MAX_ENTRIES && "" !in after
  {
    hide TrimmedTo;
    match e
    case Ask(key, at) => AskKeepsCap(p, before, key, at, after);
    case Gc(at) => TrimKeeps(NotIdle(before, at), after);
  }

  // ----- A run past the cap

  function Name(i: nat): (k: string)
    ensures |k| == i + 1
  {
    seq(i + 1, _ => 'a')
  }

  /** The empty key at time 0, then `n` others at time 1. */
  ghost function Crowd(p: Params, n: nat): (entries: map<string, Bucket>)
    ensures "" in entries && entries[""] == Bucket(p.burst - 1.0, 0.0)
    ensures forall k :: k in entries && k != "" ==> 1 <= |k| <= n && entries[k].lastFill == 1.0
    ensures |entries| == n + 1
  {
    if n == 0 then map["" := Bucket(p.burst - 1.0, 0.0)]
    else
      var rest := Crowd(p, n - 1);
      assert Name(n - 1) !in rest;
      assert rest[Name(n - 1) := Bucket(p.burst - 1.0, 1.0)].Keys == rest.Keys + {Name(n - 1)};
      rest[Name(n - 1) := Bucket(p.burst - 1.0, 1.0)]
  }

  lemma CrowdGrows(p: Params, n: nat)
    requires p.Valid()
    ensures Asked(p, Crowd(p, n), Name(n), 1.0, Crowd(p, n + 1))
  {
    var before := Crowd(p, n);
    assert Name(n) !in before;
    assert Oldest(before, "");
    var victim: Option<string> := if |before| >= MAX_ENTRIES then Some("") else None;
    assert Crowd(p, n + 1) == before[Name(n) := AfterRequest(p, Get(before, Name(n)), 1.0)];
    assert AskedWith(p, before, Name(n), 1.0, victim, Crowd(p, n + 1));
  }

  ghost function CrowdWorlds(p: Params, n: nat): (worlds: seq<map<string, Bucket>>)
    ensures |worlds| == n + 2 && worlds[0] == map[]
    ensures forall i :: 1 <= i < n + 2 ==> worlds[i] == Crowd(p, i - 1)
  {
    [map[]] + seq(n + 1, i requires 0 <= i => Crowd(p, i))
  }

  ghost function CrowdEvents(n: nat): (events: seq<Event>)
    ensures |events| == n + 1 && events[0] == Ask("", 0.0)
    ensures forall i :: 1 <= i < n + 1 ==> events[i] == Ask(Name(i - 1), 1.0)
  {
    [Ask("", 0.0)] + seq(n, i requires 0 <= i => Ask(Name(i), 1.0))
  }

  /**
   Once a request has come with an empty key the cap means nothing: for every `n` there is
   a run to `n + 1` entries within a second, and from 10001 on the next collection never ends.
   */
  lemma EmptyKeyDefeatsCap(p: Params, n: nat)
    requires p.Valid()
    ensures RunsThrough(p, CrowdWorlds(p, n), CrowdEvents(n))
    ensures CrowdWorlds(p, n)[n + 1] == Crowd(p, n) && |Crowd(p, n)| == n + 1
    ensures n >= MAX_ENTRIES ==> !exists after :: Steps(p, Crowd(p, n), Gc(2.0), after)
  {
    hide Asked, TrimmedTo, Crowd, NotIdle, CrowdWorlds, CrowdEvents, Name;
    var worlds, events := CrowdWorlds(p, n), CrowdEvents(n);
    forall i: nat | i < |events| ensures Steps(p, worlds[i], events[i], worlds[i + 1]) {
      CrowdStep(p, n, i);
    }
    if n >= MAX_ENTRIES {
      CrowdSpins(p, n);
    }
  }

  lemma CrowdStep(p: Params, n: nat, i: nat)
    requires p.Valid() && i <= n
    ensures Steps(p, CrowdWorlds(p, n)[i], CrowdEvents(n)[i], CrowdWorlds(p, n)[i + 1])
  {
    hide Asked, Crowd, CrowdWorlds, CrowdEvents, Name, NotIdle, TrimmedTo;
    if i == 0 {
      FirstAsk(p);
    } else {
      CrowdGrows(p, i - 1);
    }
  }

  lemma CrowdSpins(p: Params, n: nat)
    requires n >= MAX_ENTRIES
    ensures !exists after :: TrimmedTo(NotIdle(Crowd(p, n), 2.0), after)
  {
    hide TrimmedTo, Crowd;
    var crowd := Crowd(p, n);
    assert NotIdle(crowd, 2.0) == crowd;
    assert Newer(crowd) == crowd.Keys - {""};
    assert |crowd| == |crowd.Keys|;
    TrimmableIff(crowd);
  }

  lemma FirstAsk(p: Params)
    requires p.Valid()
    ensures Asked(p, map[], "", 0.0, Crowd(p, 0))
  {
    var none: map<string, Bucket> := map[];
    assert Crowd(p, 0) == none["" := AfterRequest(p, None, 0.0)];
    assert AskedWith(p, none, "", 0.0, None, Crowd(p, 0));
  }

  // ----- One key over time, while the entry cap does not evict it

  datatype Step = Request(at: real) | Collection(at: real)

  /** The key's bucket after a step. */
  function Next(p: Params, b: Option<Bucket>, s: Step): Option<Bucket> {
    match s
    case Request(at) => Some(AfterRequest(p, b, at))
    case Collection(at) => if b.Some? && b.value.lastFill < at - IDLE then None else b
  }

  /** The answers to the requests of a run. */
  function Answers(p: Params, b: Option<Bucket>, steps: seq<Step>): seq<bool>
    decreases |steps|
  {
    if steps == [] then []
    else
      var rest := Answers(p, Next(p, b, steps[0]), steps[1..]);
      if steps[0].Request? then [Granted(p, b, steps[0].at)] + rest else rest
  }

  /** Times never go back, from `from` on. */
  ghost predicate Ordered(steps: seq<Step>, from: real) {
    steps != [] ==> from <= steps[0].at && Ordered(steps[1..], steps[0].at)
  }

  ghost predicate BucketInv(p: Params, b: Option<Bucket>, now: real) {
    b.Some? ==> 0.0 <= b.value.tokens <= p.burst && b.value.lastFill <= now
  }

  lemma GainRises(p: Params, a: real, b: real)
    requires p.Valid() && a <= b
    ensures Gain(p, a) <= Gain(p, b) && Gain(p, b) == Gain(p, a) + Gain(p, b - a) && Gain(p, 0.0) == 0.0
  {}

  lemma NextInv(p: Params, b: Option<Bucket>, s: Step, now: real)
    requires p.Valid() && BucketInv(p, b, now) && now <= s.at
    ensures BucketInv(p, Next(p, b, s), s.at)
  {
    hide Gain;
    if b.Some? {
      GainRises(p, 0.0, s.at - b.value.lastFill);
    }
  }

  function Count(answers: seq<bool>): nat {
    if answers == [] then 0 else (if answers[0] then 1 else 0) + Count(answers[1..])
  }

  /** The time of the last step, or `from` if there is none. */
  function EndTime(steps: seq<Step>, from: real): real
    decreases |steps|
  {
    if steps == [] then from else EndTime(steps[1..], steps[0].at)
  }

  /** Between two moments a level rises by no more than the rate allows, and never falls. */
  lemma LevelRises(p: Params, b: Option<Bucket>, now: real, later: real)
    requires p.Valid() && BucketInv(p, b, now) && now <= later
    ensures 0.0 <= Level(p, b, now) <= Level(p, b, later) <= Level(p, b, now) + Gain(p, later - now)
    ensures Level(p, b, later) == Min(p.burst, Level(p, b, now) + Gain(p, later - now))
  {
    hide Gain;
    GainRises(p, 0.0, later - now);
    if b.Some? {
      GainRises(p, 0.0, now - b.value.lastFill);
      GainRises(p, now - b.value.lastFill, later - b.value.lastFill);
      assert later - b.value.lastFill - (now - b.value.lastFill) == later - now;
    }
  }

  /** Collecting an idle bucket does not change the level at any later time, when a full refill takes at most 900 s. */
  lemma CollectionKeepsLevel(p: Params, b: Option<Bucket>, at: real, later: real)
    requires p.Valid() && p.burst <= Gain(p, IDLE) && BucketInv(p, b, at) && at <= later
    ensures Level(p, Next(p, b, Collection(at)), later) == Level(p, b, later)
  {
    hide Gain;
    if b.Some? && b.value.lastFill < at - IDLE {
      GainRises(p, IDLE, later - b.value.lastFill);
    }
  }

  /**
   From any point of a run on, at most `burst + rate * T` requests are granted in the
   next `T` seconds, collections included.
   */
  lemma {:induction false} GrantsAreBounded(p: Params, b: Option<Bucket>, steps: seq<Step>, from: real)
    requires p.Valid() && p.burst <= Gain(p, IDLE) && BucketInv(p, b, from) && Ordered(steps, from)
    ensures Count(Answers(p, b, steps)) as real <= Level(p, b, from) + Gain(p, EndTime(steps, from) - from)
    decreases |steps|
  {
    hide Gain;
    GainRises(p, 0.0, 0.0);
    LevelRises(p, b, from, from);
    if steps != [] {
      var s, at := steps[0], steps[0].at;
      var b' := Next(p, b, s);
      NextInv(p, b, s, from);
      EndTimeLater(steps[1..], at);
      GrantsAreBounded(p, b', steps[1..], at);
      LevelRises(p, b, from, at);
      LevelRises(p, b', at, at);
      GainRises(p, at - from, EndTime(steps, from) - from);
      assert EndTime(steps, from) - from - (at - from) == EndTime(steps[1..], at) - at;
      if s.Collection? {
        CollectionKeepsLevel(p, b, at, at);
      } else {
        var answers := Answers(p, b, steps);
        assert answers[1..] == Answers(p, b', steps[1..]);
        assert Level(p, b', at) == Level(p, b, at) - (if Granted(p, b, at) then 1.0 else 0.0) by {
          GainRises(p, 0.0, at - at);
        }
      }
    }
  }

  lemma {:induction false} EndTimeLater(steps: seq<Step>, from: real)
    requires Ordered(steps, from)
    ensures from <= EndTime(steps, from)
    decreases |steps|
  {
    if steps != [] {
      EndTimeLater(steps[1..], steps[0].at);
    }
  }

  function After(p: Params, b: Option<Bucket>, steps: seq<Step>): Option<Bucket>
    decreases |steps|
  {
    if steps == [] then b else After(p, Next(p, b, steps[0]), steps[1..])
  }

  lemma {:induction false} AfterInv(p: Params, b: Option<Bucket>, steps: seq<Step>, from: real)
    requires p.Valid() && BucketInv(p, b, from) && Ordered(steps, from)
    ensures BucketInv(p, After(p, b, steps), EndTime(steps, from))
    decreases |steps|
  {
    if steps != [] {
      NextInv(p, b, steps[0], from);
      AfterInv(p, Next(p, b, steps[0]), steps[1..], steps[0].at);
    }
  }

  lemma {:induction false} OrderedSplit(steps: seq<Step>, i: nat, from: real)
    requires Ordered(steps, from) && i <= |steps|
    ensures Ordered(steps[..i], from) && Ordered(steps[i..], EndTime(steps[..i], from))
    decreases |steps|
  {
    if i == 0 {
      assert steps[..0] == [] && steps[0..] == steps;
    } else {
      assert steps[..i][0] == steps[0] && steps[..i][1..] == steps[1..][..i - 1] && steps[i..] == steps[1..][i - 1..];
      OrderedSplit(steps[1..], i - 1, steps[0].at);
    }
  }

  /**
   In any run of a key, and any stretch of it lasting `T` seconds, at most
   `burst + rate * T` requests are granted.
   */
  lemma RateHolds(p: Params, steps: seq<Step>, i: nat, j: nat, from: real)
    requires p.Valid() && p.burst <= Gain(p, IDLE) && Ordered(steps, from) && i < j <= |steps|
    ensures var granted := Count(Answers(p, After(p, None, steps[..i]), steps[i..j]));
            granted as real <= p.burst + p.rate * (steps[j - 1].at - steps[i].at)
  {
    hide Answers, Gain, Ordered, After, EndTime, Count;
    var b := After(p, None, steps[..i]);
    StretchOrdered(steps, i, j, from);
    AfterInv(p, None, steps[..i], from);
    InvLater(p, b, EndTime(steps[..i], from), steps[i].at);
    GrantsAreBounded(p, b, steps[i..j], steps[i].at);
    EndTimeIsLast(steps[i..j], steps[i].at);
    GainIsRate(p, steps[j - 1].at - steps[i].at);
  }

  lemma InvLater(p: Params, b: Option<Bucket>, now: real, later: real)
    requires BucketInv(p, b, now) && now <= later
    ensures BucketInv(p, b, later)
  {}

  lemma StretchOrdered(steps: seq<Step>, i: nat, j: nat, from: real)
    requires Ordered(steps, from) && i < j <= |steps|
    ensures Ordered(steps[..i], from)
    ensures Ordered(steps[i..j], steps[i].at) && EndTime(steps[..i], from) <= steps[i].at
  {
    OrderedSplit(steps, i, from);
    OrderedSplit(steps[i..], j - i, EndTime(steps[..i], from));
    assert steps[i..][..j - i] == steps[i..j];
  }

  lemma GainIsRate(p: Params, t: real)
    ensures Gain(p, t) == p.rate * t
  {}

  lemma {:induction false} EndTimeIsLast(steps: seq<Step>, from: real)
    requires steps != []
    ensures EndTime(steps, from) == steps[|steps| - 1].at
    decreases |steps|
  {
    if |steps| > 1 {
      EndTimeIsLast(steps[1..], steps[0].at);
    }
  }

  // ----- When collection is invisible

  /** The same run without its collections. */
  function Requests(steps: seq<Step>): seq<Step> {
    if steps == [] then []
    else if steps[0].Request? then [steps[0]] + Requests(steps[1..])
    else Requests(steps[1..])
  }

  /** Buckets with the same level at `now` answer alike from then on, collected or not. */
  lemma {:induction false} SameLevelSameAnswers(p: Params, b: Option<Bucket>, c: Option<Bucket>, steps: seq<Step>, now: real)
    requires p.Valid() && p.burst <= Gain(p, IDLE) && Ordered(steps, now)
    requires BucketInv(p, b, now) && BucketInv(p, c, now) && Level(p, b, now) == Level(p, c, now)
    ensures Answers(p, b, steps) == Answers(p, c, Requests(steps))
    decreases |steps|
  {
    hide Gain;
    if steps != [] {
      var s, at := steps[0], steps[0].at;
      LevelRises(p, b, now, at);
      LevelRises(p, c, now, at);
      NextInv(p, b, s, now);
      if s.Request? {
        NextInv(p, c, s, now);
        GainRises(p, 0.0, at - at);
        SameLevelSameAnswers(p, Next(p, b, s), Next(p, c, s), steps[1..], at);
        assert Requests(steps)[1..] == Requests(steps[1..]);
      } else {
        CollectionKeepsLevel(p, b, at, at);
        SameLevelSameAnswers(p, Next(p, b, s), c, steps[1..], at);
      }
    }
  }

  /** A run of requests at times `times`, from level `level` at time `last`. */
  function LevelAnswers(p: Params, level: real, last: real, times: seq<real>): seq<bool>
    decreases |times|
  {
    if times == [] then []
    else
      var l := Min(p.burst, level + Gain(p, times[0] - last));
      [l >= 1.0] + LevelAnswers(p, if l >= 1.0 then l - 1.0 else l, times[0], times[1..])
  }

  ghost predicate OrderedTimes(times: seq<real>, from: real) {
    times != [] ==> from <= times[0] && OrderedTimes(times[1..], times[0])
  }

  function AsRequests(times: seq<real>): (steps: seq<Step>)
    ensures |steps| == |times|
  {
    if times == [] then [] else [Request(times[0])] + AsRequests(times[1..])
  }

  /** Only the level matters for the answers to requests. */
  lemma {:induction false} AnswersAreLevels(p: Params, b: Option<Bucket>, times: seq<real>, now: real)
    requires p.Valid() && BucketInv(p, b, now) && OrderedTimes(times, now)
    ensures Answers(p, b, AsRequests(times)) == LevelAnswers(p, Level(p, b, now), now, times)
    ensures Ordered(AsRequests(times), now) && Requests(AsRequests(times)) == AsRequests(times)
    decreases |times|
  {
    hide Gain;
    if times != [] {
      var s := Request(times[0]);
      LevelRises(p, b, now, times[0]);
      NextInv(p, b, s, now);
      GainRises(p, 0.0, times[0] - times[0]);
      AnswersAreLevels(p, Next(p, b, s), times[1..], times[0]);
      assert AsRequests(times)[1..] == AsRequests(times[1..]);
    }
  }

  // ----- Which requests are granted

  /** The key's bucket before the request at position `i`, the first being that of a new key. */
  ghost function BucketAt(p: Params, times: seq<real>, i: nat): Option<Bucket>
    requires i <= |times|
  {
    if i == 0 then None else Some(AfterRequest(p, BucketAt(p, times, i - 1), times[i - 1]))
  }

  /** The first `i` answers. */
  ghost function Given(p: Params, times: seq<real>, i: nat): (answers: seq<bool>)
    requires i <= |times|
    ensures |answers| == i
  {
    if i == 0 then [] else Given(p, times, i - 1) + [Granted(p, BucketAt(p, times, i - 1), times[i - 1])]
  }

  lemma {:induction false} AsRequestsSnoc(times: seq<real>, at: real)
    ensures AsRequests(times + [at]) == AsRequests(times) + [Request(at)]
  {
    if times != [] {
      assert (times + [at])[1..] == times[1..] + [at];
      AsRequestsSnoc(times[1..], at);
    }
  }

  lemma {:induction false} AfterSnoc(p: Params, b: Option<Bucket>, steps: seq<Step>, s: Step)
    ensures After(p, b, steps + [s]) == Next(p, After(p, b, steps), s)
    decreases |steps|
  {
    if steps != [] {
      assert (steps + [s])[1..] == steps[1..] + [s];
      AfterSnoc(p, Next(p, b, steps[0]), steps[1..], s);
    } else {
      assert After(p, b, [s]) == After(p, Next(p, b, s), []);
    }
  }

  lemma {:induction false} GivenAreAnswers(p: Params, times: seq<real>, i: nat)
    requires i <= |times|
    ensures Answers(p, None, AsRequests(times[..i])) == Given(p, times, i)
    ensures After(p, None, AsRequests(times[..i])) == BucketAt(p, times, i)
  {
    if i > 0 {
      hide Granted, AfterRequest;
      var s := Request(times[i - 1]);
      assert times[..i] == times[..i - 1] + [times[i - 1]];
      GivenAreAnswers(p, times, i - 1);
      AsRequestsSnoc(times[..i - 1], times[i - 1]);
      AnswersAppend(p, None, AsRequests(times[..i - 1]), [s]);
      AfterSnoc(p, None, AsRequests(times[..i - 1]), s);
      assert [s][1..] == [];
    }
  }

  lemma {:induction false} CountSnoc(answers: seq<bool>, a: bool)
    ensures Count(answers + [a]) == Count(answers) + if a then 1 else 0
  {
    if answers == [] {
      assert [a][1..] == [];
    } else {
      assert (answers + [a])[1..] == answers[1..] + [a];
      CountSnoc(answers[1..], a);
    }
  }

  ghost predicate Rising(times: seq<real>) {
    forall i, j :: 0 <= i <= j < |times| ==> times[i] <= times[j]
  }

  /** What the burst and the time since request `k` leave over from the grants since then. */
  ghost function Slack(p: Params, times: seq<real>, answers: seq<bool>, k: nat, i: nat): real
    requires k <= i < |times| && i <= |answers|
  {
    p.burst + Gain(p, times[i] - times[k]) - Count(answers[k..i]) as real
  }

  lemma SlackStep(p: Params, times: seq<real>, k: nat, i: nat)
    requires p.Valid() && Rising(times) && k <= i < |times| - 1
    ensures Slack(p, times, Given(p, times, i + 1), k, i + 1) ==
            Slack(p, times, Given(p, times, i), k, i) + Gain(p, times[i + 1] - times[i])
            - if Granted(p, BucketAt(p, times, i), times[i]) then 1.0 else 0.0
  {
    hide Gain, Granted, BucketAt;
    var g := Granted(p, BucketAt(p, times, i), times[i]);
    assert Given(p, times, i + 1)[k..i + 1] == Given(p, times, i)[k..i] + [g];
    CountSnoc(Given(p, times, i)[k..i], g);
    GainRises(p, times[i] - times[k], times[i + 1] - times[k]);
    assert times[i + 1] - times[k] - (times[i] - times[k]) == times[i + 1] - times[i];
  }

  /** The level is the least slack over all requests so far. */
  lemma {:induction false} LevelIsLeastSlack(p: Params, times: seq<real>, i: nat)
    requires p.Valid() && Rising(times) && i < |times|
    ensures var level := Level(p, BucketAt(p, times, i), times[i]);
            && (forall k: nat :: k <= i ==> level <= Slack(p, times, Given(p, times, i), k, i))
            && exists k: nat :: k <= i && level == Slack(p, times, Given(p, times, i), k, i)
  {
    hide Gain, Given;
    NoSlackYet(p, times, i);
    if i > 0 {
      LevelIsLeastSlack(p, times, i - 1);
      var level := Level(p, BucketAt(p, times, i - 1), times[i - 1]);
      var least: nat :| least <= i - 1 && level == Slack(p, times, Given(p, times, i - 1), least, i - 1);
      hide Slack;
      forall k: nat | k < i
        ensures Slack(p, times, Given(p, times, i), k, i) ==
                Slack(p, times, Given(p, times, i - 1), k, i - 1) + Gain(p, times[i] - times[i - 1])
                - if Granted(p, BucketAt(p, times, i - 1), times[i - 1]) then 1.0 else 0.0
      {
        SlackStep(p, times, k, i - 1);
      }
      var now := Level(p, BucketAt(p, times, i), times[i]);
      assert now == Slack(p, times, Given(p, times, i), i, i) || now == Slack(p, times, Given(p, times, i), least, i);
    }
  }

  lemma NoSlackYet(p: Params, times: seq<real>, i: nat)
    requires i < |times|
    ensures Slack(p, times, Given(p, times, i), i, i) == p.burst
  {
    assert Given(p, times, i)[i..i] == [];
  }

  /** Granting request `i` too keeps the grants since request `k` within `burst + rate` times the seconds between the two. */
  ghost predicate Conforms(p: Params, times: seq<real>, answers: seq<bool>, k: nat, i: nat)
    requires k <= i < |times| && i <= |answers|
  {
    Count(answers[k..i]) as real + 1.0 <= p.burst + p.rate * (times[i] - times[k])
  }

  /**
   For a key's requests in order of time, the limiter grants exactly those that keep every
   stretch up to them within `burst + rate * T`: nothing more, and nothing less.
   */
  lemma GrantedIffConforming(p: Params, times: seq<real>, i: nat)
    requires p.Valid() && Rising(times) && i < |times|
    ensures var answers := Answers(p, None, AsRequests(times));
            |answers| == |times| && (answers[i] <==> forall k: nat :: k <= i ==> Conforms(p, times, answers, k, i))
  {
    hide Gain, Granted, BucketAt, Count, Level, Slack, Conforms, Answers, AsRequests;
    assert times[..|times|] == times;
    GivenAreAnswers(p, times, |times|);
    GivenPrefix(p, times, i, |times|);
    GivenPrefix(p, times, i + 1, |times|);
    var answers := Given(p, times, |times|);
    assert answers[..i] == Given(p, times, i) && answers[i] == Granted(p, BucketAt(p, times, i), times[i]);
    LevelIsLeastSlack(p, times, i);
    GrantedIffLevel(p, times, i);
    forall k: nat | k <= i
      ensures Conforms(p, times, answers, k, i) <==> Slack(p, times, Given(p, times, i), k, i) >= 1.0
    {
      ConformsIffSlack(p, times, answers, k, i);
    }
  }

  lemma ConformsIffSlack(p: Params, times: seq<real>, answers: seq<bool>, k: nat, i: nat)
    requires k <= i < |times| && i <= |answers|
    ensures Conforms(p, times, answers, k, i) <==> Slack(p, times, answers[..i], k, i) >= 1.0
  {
    hide Gain, Count;
    assert answers[..i][k..i] == answers[k..i];
    var c := Count(answers[k..i]) as real;
    GainIsRate(p, times[i] - times[k]);
    assert Slack(p, times, answers[..i], k, i) == p.burst + Gain(p, times[i] - times[k]) - c;
    assert Conforms(p, times, answers, k, i) <==> c + 1.0 <= p.burst + p.rate * (times[i] - times[k]);
  }

  lemma GrantedIffLevel(p: Params, times: seq<real>, i: nat)
    requires p.Valid() && i < |times|
    ensures Granted(p, BucketAt(p, times, i), times[i]) <==> Level(p, BucketAt(p, times, i), times[i]) >= 1.0
  {}

  lemma {:induction false} GivenPrefix(p: Params, times: seq<real>, i: nat, n: nat)
    requires i <= n <= |times|
    ensures Given(p, times, n)[..i] == Given(p, times, i)
    decreases n
  {
    hide Granted, BucketAt;
    if i < n {
      GivenPrefix(p, times, i, n - 1);
      assert Given(p, times, n)[..n - 1] == Given(p, times, n - 1);
      assert Given(p, times, n)[..i] == Given(p, times, n)[..n - 1][..i];
    }
  }

  // ----- Levels told apart

  /** Seconds until `missing` more tokens have arrived. */
  function Wait(p: Params, missing: real): (t: real)
    requires p.rate > 0.0
    ensures Gain(p, t) == missing
    ensures missing >= 0.0 ==> t >= 0.0
  {
    missing / p.rate
  }

  /** Two different levels can be told apart by further requests. */
  lemma {:induction false} LevelsTellApart(p: Params, high: real, low: real, now: real) returns (times: seq<real>)
    requires p.Valid() && 0.0 <= low < high <= p.burst && (p.rate > 0.0 || (low < 1.0 <= high))
    ensures OrderedTimes(times, now)
    ensures LevelAnswers(p, high, now, times) != LevelAnswers(p, low, now, times)
    decreases high.Floor
  {
    hide Gain;
    GainRises(p, 0.0, now - now);
    if high < 1.0 {
      var at := now + Wait(p, 1.0 - high);
      assert at - now == Wait(p, 1.0 - high);
      times := [at];
      assert LevelAnswers(p, high, now, times)[0] && !LevelAnswers(p, low, now, times)[0];
    } else if low < 1.0 {
      times := [now];
      assert LevelAnswers(p, high, now, times)[0] && !LevelAnswers(p, low, now, times)[0];
    } else {
      var rest := LevelsTellApart(p, high - 1.0, low - 1.0, now);
      times := [now] + rest;
      assert times[1..] == rest;
      assert LevelAnswers(p, high, now, times)[1..] == LevelAnswers(p, high - 1.0, now, rest);
      assert LevelAnswers(p, low, now, times)[1..] == LevelAnswers(p, low - 1.0, now, rest);
    }
  }

  lemma {:induction false} AnswersAppend(p: Params, b: Option<Bucket>, x: seq<Step>, y: seq<Step>)
    ensures Answers(p, b, x + y) == Answers(p, b, x) + Answers(p, After(p, b, x), y)
    ensures Requests(x + y) == Requests(x) + Requests(y)
    decreases |x|
  {
    if x == [] {
      assert x + y == y;
    } else {
      assert (x + y)[1..] == x[1..] + y;
      AnswersAppend(p, Next(p, b, x[0]), x[1..], y);
    }
  }

  lemma {:induction false} OrderedAppend(x: seq<Step>, y: seq<Step>, from: real)
    requires Ordered(x, from) && Ordered(y, EndTime(x, from))
    ensures Ordered(x + y, from)
    decreases |x|
  {
    if x == [] {
      assert x + y == y;
    } else {
      assert (x + y)[1..] == x[1..] + y;
      OrderedAppend(x[1..], y, x[0].at);
    }
  }

  /** Requests that empty a bucket: down to nothing if tokens ever arrive, else below one. */
  lemma {:induction false} Drain(p: Params, b: Bucket) returns (times: seq<real>, rest: Bucket)
    requires p.Valid() && 0.0 <= b.tokens <= p.burst
    ensures OrderedTimes(times, b.lastFill)
    ensures After(p, Some(b), AsRequests(times)) == Some(rest) && EndTime(AsRequests(times), b.lastFill) == rest.lastFill
    ensures 0.0 <= rest.tokens < 1.0 && (p.rate > 0.0 ==> rest.tokens == 0.0)
    decreases b.tokens.Floor
  {
    hide Gain;
    GainRises(p, 0.0, b.lastFill - b.lastFill);
    if b.tokens >= 1.0 {
      var c := Bucket(b.tokens - 1.0, b.lastFill);
      assert Next(p, Some(b), Request(b.lastFill)) == Some(c);
      times, rest := Drain(p, c);
      times := [b.lastFill] + times;
      assert AsRequests(times)[1..] == AsRequests(times[1..]);
    } else if p.rate > 0.0 && b.tokens > 0.0 {
      var at := b.lastFill + Wait(p, 1.0 - b.tokens);
      assert at - b.lastFill == Wait(p, 1.0 - b.tokens);
      times, rest := [at], Bucket(0.0, at);
      assert Next(p, Some(b), Request(at)) == Some(rest);
      assert AsRequests(times)[1..] == [];
    } else {
      times, rest := [], b;
    }
  }

  /** If a full refill takes longer than the idle limit, some run shows the difference. */
  lemma CollectionShows(p: Params) returns (steps: seq<Step>)
    requires p.Valid() && p.burst > Gain(p, IDLE)
    ensures Ordered(steps, 0.0) && Answers(p, None, steps) != Answers(p, None, Requests(steps))
  {
    var first := Bucket(p.burst - 1.0, 0.0);
    var times, rest := Drain(p, first);
    var at := rest.lastFill + IdleWait(p);
    var drain := [Request(0.0)] + AsRequests(times);
    IdleWaitTooShort(p);
    hide Gain;
    assert drain[1..] == AsRequests(times);
    assert After(p, None, drain) == Some(rest) && EndTime(drain, 0.0) == rest.lastFill;
    AnswersAreLevels(p, Some(first), times, 0.0);
    GainRises(p, 0.0, at - rest.lastFill);
    var low := Level(p, Some(rest), at);
    assert at - rest.lastFill == IdleWait(p);
    var apart := LevelsTellApart(p, p.burst, low, at);
    var tail := AsRequests(apart);
    AnswersAreLevels(p, None, apart, at);
    AnswersAreLevels(p, Some(rest), apart, at);
    var collected := [Collection(at)] + tail;
    assert collected[1..] == tail;
    steps := drain + collected;
    OrderedAppend(drain, collected, 0.0);
    AnswersAppend(p, None, drain, collected);
    assert Requests(drain) == drain;
    AnswersAppend(p, None, drain, tail);
    assert Requests(steps) == drain + tail;
    assert Answers(p, Some(rest), collected) == Answers(p, None, tail);
    DifferentTails(Answers(p, None, drain), Answers(p, None, tail), Answers(p, Some(rest), tail));
  }

  lemma DifferentTails(x: seq<bool>, y: seq<bool>, z: seq<bool>)
    requires y != z
    ensures x + y != x + z
  {
    assert (x + y)[|x|..] == y && (x + z)[|x|..] == z;
  }

  /** A wait past the idle limit that does not fill a bucket. */
  function IdleWait(p: Params): real {
    if p.rate > 0.0 then (IDLE + p.burst / p.rate) / 2.0 else IDLE + 1.0
  }

  lemma IdleWaitTooShort(p: Params)
    requires p.Valid() && p.burst > Gain(p, IDLE)
    ensures IdleWait(p) > IDLE
    ensures if p.rate > 0.0 then Gain(p, IdleWait(p)) < p.burst else Gain(p, IdleWait(p)) == 0.0
  {
    if p.rate > 0.0 {
      var full := p.burst / p.rate;
      assert full * p.rate == p.burst;
      assert full > IDLE;
      assert IdleWait(p) * p.rate == (IDLE * p.rate + full * p.rate) / 2.0;
    }
  }

  /**
   For a limiter whose burst is at least one: idle collection never changes an answer, in
   any run, if and only if the burst refills within the idle limit.
   */
  lemma CollectionInvisibleIff(p: Params)
    requires p.Valid()
    ensures (forall steps :: Ordered(steps, 0.0) ==> Answers(p, None, steps) == Answers(p, None, Requests(steps)))
            <==> p.burst <= IDLE * p.rate
  {
    if p.burst <= IDLE * p.rate {
      forall steps | Ordered(steps, 0.0) ensures Answers(p, None, steps) == Answers(p, None, Requests(steps)) {
        SameLevelSameAnswers(p, None, None, steps, 0.0);
      }
    } else {
      var steps := CollectionShows(p);
    }
  }
}
