/**
 Replay protection of handshake initiations: for each peer the greatest timestamp of an
 Init that was taken is kept in memory and, after every Init, in a file. Entries too old
 to pass the freshness check are dropped from both. The process may crash at any point
 and restart from the file.
 */
module Handshake {
  import opened Wrappers

  type Int64 = x: int | -0x8000_0000_0000_0000 <= x < 0x8000_0000_0000_0000
  type Peer = seq<int>
  type Stamps = map<Peer, Int64>

  /** 30 seconds, in nanoseconds. */
  const MAX_SKEW := 30_000_000_000
  const SECONDS_LIMIT := 1_000_000_000_000
  const NANOS_PER_SEC := 1_000_000_000
  const TWO64 := 0x1_0000_0000_0000_0000

  /** Nanoseconds since the epoch, as far as a signed 64-bit clock reaches, less the skew. */
  type Clock = t: int | 0 <= t < 0x8000_0000_0000_0000 - MAX_SKEW

  /** Two's complement wrap-around of 64-bit arithmetic. */
  function Wrap(n: int): Int64 {
    (n + 0x8000_0000_0000_0000) % TWO64 - 0x8000_0000_0000_0000
  }

  /** Raw timestamps up to the limit are seconds; the multiplication may wrap. */
  function NormalizeTimestamp(raw: Int64): Int64 {
    if raw > SECONDS_LIMIT then raw else Wrap(raw * NANOS_PER_SEC)
  }

  predicate InWindow(now: Clock, ts: Int64) {
    var diff := Wrap(now - ts);
    !(diff < -MAX_SKEW || diff > MAX_SKEW)
  }

  /** On such a clock the subtraction's wrap-around never lets a far timestamp through. */
  lemma WindowIsExact(now: Clock, ts: Int64)
    ensures InWindow(now, ts) <==> -MAX_SKEW <= now - ts <= MAX_SKEW
  {}

  /**
   A raw timestamp above 10^12 counts nanoseconds and stands for itself; one up to that
   counts seconds and stands for 10^9 times itself, wrapped into 64 bits.
   */
  lemma NormalizedByNumbers(raw: Int64)
    ensures raw > 1_000_000_000_000 ==> NormalizeTimestamp(raw) == raw
    ensures raw <= 1_000_000_000_000 ==> (raw * 1_000_000_000 - NormalizeTimestamp(raw)) % TWO64 == 0
    ensures raw <= 1_000_000_000_000 && -0x8000_0000_0000_0000 <= raw * 1_000_000_000 < 0x8000_0000_0000_0000 ==>
              NormalizeTimestamp(raw) == raw * 1_000_000_000
  {
    if raw <= 1_000_000_000_000 {
      WrapIsCongruent(raw * 1_000_000_000);
    }
  }

  lemma WrapIsCongruent(n: int)
    ensures (n - Wrap(n)) % TWO64 == 0
    ensures -0x8000_0000_0000_0000 <= n < 0x8000_0000_0000_0000 ==> Wrap(n) == n
  {
    var m := n + 0x8000_0000_0000_0000;
    assert n - Wrap(n) == m - m % TWO64 == TWO64 * (m / TWO64);
  }

  /** A normalized timestamp that is negative lies at least 512 ns before the epoch. */
  lemma NegativeStampsAreCoarse(raw: Int64)
    ensures NormalizeTimestamp(raw) < 0 ==> NormalizeTimestamp(raw) <= -512
  {
    if raw <= SECONDS_LIMIT {
      var n := raw * NANOS_PER_SEC;
      assert n == 512 * (raw * 1_953_125);
      MultipleOf512(raw * 1_953_125);
    }
  }

  lemma MultipleOf512(k: int)
    ensures Wrap(512 * k) % 512 == 0
  {
    var n := 512 * k + 0x8000_0000_0000_0000;
    var q := n / TWO64;
    assert n % TWO64 == n - q * TWO64;
    assert n % TWO64 == 512 * (k + 0x40_0000_0000_0000 - q * 0x80_0000_0000_0000);
  }

  // ----- The kept timestamps

  /** The entries not older than `cutoff`. */
  ghost function Pruned(m: Stamps, cutoff: int): Stamps {
    map id | id in m && m[id] >= cutoff :: m[id]
  }

  function Known(m: Stamps, id: Peer): int {
    if id in m then m[id] else 0
  }

  /** Memory after loading a saved file into it. */
  ghost function Loaded(m: Stamps, file: Stamps, cutoff: int): Stamps {
    map id | id in m.Keys + file.Keys && (id in m || Takes(m, file, cutoff, id)) ::
      if Takes(m, file, cutoff, id) then file[id] else m[id]
  }

  ghost predicate Takes(m: Stamps, file: Stamps, cutoff: int, id: Peer) {
    id in file && file[id] >= cutoff && file[id] > Known(m, id)
  }

  class Manager {
    var initTimestamps: Stamps
    var file: Stamps

    constructor (file: Stamps)
      ensures initTimestamps == map[] && this.file == file
    {
      initTimestamps, this.file := map[], file;
    }

    method UseReplayState(now: Clock)
      modifies this`initTimestamps
      ensures initTimestamps == Loaded(old(initTimestamps), file, now - MAX_SKEW)
      ensures forall id :: id in file && file[id] > 0 && now - file[id] <= 30_000_000_000 ==>
                id in initTimestamps && initTimestamps[id] >= file[id]
      ensures forall id :: id in initTimestamps ==>
                || (id in old(initTimestamps) && initTimestamps[id] == old(initTimestamps)[id])
                || (id in file && initTimestamps[id] == file[id] && now - file[id] <= 30_000_000_000)
    {
      var cutoff := now - MAX_SKEW;
      var todo := file.Keys;
      while todo != {}
        invariant todo <= file.Keys
        invariant forall id :: id in initTimestamps <==> id in old(initTimestamps) || (id !in todo && Takes(old(initTimestamps), file, cutoff, id))
        invariant forall id :: id in initTimestamps ==>
            initTimestamps[id] == if id !in todo && Takes(old(initTimestamps), file, cutoff, id) then file[id] else old(initTimestamps)[id]
        decreases todo
      {
        var id :| id in todo;
        todo := todo - {id};
        var ts := file[id];
        if ts >= cutoff && ts > Known(initTimestamps, id) {
          initTimestamps := initTimestamps[id := ts];
        }
      }
    }

    /** Drops old entries and returns a copy of the rest. */
    method PruneTimestamps(now: Clock) returns (out: Stamps)
      modifies this`initTimestamps
      ensures initTimestamps == Pruned(old(initTimestamps), now - MAX_SKEW) && out == initTimestamps
      ensures forall id :: id in initTimestamps <==> id in old(initTimestamps) && now - old(initTimestamps)[id] <= 30_000_000_000
      ensures forall id :: id in initTimestamps ==> initTimestamps[id] == old(initTimestamps)[id]
    {
      var cutoff := now - MAX_SKEW;
      var all := initTimestamps;
      var todo := all.Keys;
      out := map[];
      while todo != {}
        invariant todo <= all.Keys
        invariant forall id :: id in out <==> id in all && id !in todo && all[id] >= cutoff
        invariant forall id :: id in out ==> out[id] == all[id]
        invariant forall id :: id in initTimestamps <==> id in all && (id in todo || all[id] >= cutoff)
        invariant forall id :: id in initTimestamps ==> initTimestamps[id] == all[id]
        decreases todo
      {
        var id :| id in todo;
        todo := todo - {id};
        if all[id] < cutoff {
          initTimestamps := initTimestamps - {id};
        } else {
          out := out[id := all[id]];
        }
      }
    }

    /** The locked section of an Init: refuse a timestamp not above the last, else record it, prune, and copy for saving. */
    method RecordInit(peer: Peer, ts: Int64, now: Clock) returns (snapshot: Option<Stamps>)
      modifies this`initTimestamps
      ensures Refused(old(initTimestamps), peer, ts) ==> snapshot.None? && initTimestamps == old(initTimestamps)
      ensures !Refused(old(initTimestamps), peer, ts) ==>
                && initTimestamps == Pruned(old(initTimestamps)[peer := ts], now - MAX_SKEW)
                && snapshot == Some(initTimestamps)
    {
      if peer in initTimestamps && ts <= initTimestamps[peer] {
        return None;
      }
      initTimestamps := initTimestamps[peer := ts];
      var out := PruneTimestamps(now);
      snapshot := Some(out);
    }

    /**
     One Init whose signature verifies, from normalizing its timestamp to the saved file,
     without a crash: true if it goes on to take effect.
     */
    method HandleInit(peer: Peer, raw: Int64, now: Clock) returns (taken: bool)
      modifies this
      ensures taken <==> InWindow(now, NormalizeTimestamp(raw)) && NormalizeTimestamp(raw) != 0 &&
                         !Refused(old(initTimestamps), peer, NormalizeTimestamp(raw))
      ensures raw > 1_000_000_000_000 ==>
                (taken <==> -30_000_000_000 <= now - raw <= 30_000_000_000 &&
                            (peer in old(initTimestamps) ==> raw > old(initTimestamps)[peer]))
      ensures 0 < raw <= 1_000_000_000_000 && raw * 1_000_000_000 < 0x8000_0000_0000_0000 ==>
                (taken <==> -30_000_000_000 <= now - raw * 1_000_000_000 <= 30_000_000_000 &&
                            (peer in old(initTimestamps) ==> raw * 1_000_000_000 > old(initTimestamps)[peer]))
      ensures var s := State(now, old(initTimestamps), old(file), Idle, []);
              var t := Handled(s, peer, raw);
              initTimestamps == t.memory && file == t.file && t.effects == if taken then [Effect(peer, NormalizeTimestamp(raw))] else []
    {
      var ts := NormalizeTimestamp(raw);
      NormalizedByNumbers(raw);
      WindowIsExact(now, ts);
      hide NormalizeTimestamp, InWindow;
      if !InWindow(now, ts) {
        return false;
      }
      if ts == 0 {
        return false;
      }
      var snapshot := RecordInit(peer, ts, now);
      if snapshot.None? {
        return false;
      }
      file := snapshot.value;
      return true;
    }
  }

  /** The steps of one Init, undisturbed. */
  ghost function Handled(s: State, peer: Peer, raw: Int64): State {
    Advance(Advance(Advance(Advance(Next(s, Receive(peer, raw))))))
  }

  lemma HandledIsRun(s: State, peer: Peer, raw: Int64)
    ensures Run(s, [Receive(peer, raw), Proceed, Proceed, Proceed, Proceed]) == Handled(s, peer, raw)
  {
    hide Advance;
    var steps := [Receive(peer, raw), Proceed, Proceed, Proceed, Proceed];
    assert steps[1..] == [Proceed, Proceed, Proceed, Proceed] && steps[1..][1..] == [Proceed, Proceed, Proceed];
    assert [Proceed, Proceed, Proceed][1..] == [Proceed, Proceed] && [Proceed, Proceed][1..] == [Proceed];
    var s1 := Next(s, steps[0]);
    assert Run(s, steps) == Run(s1, steps[1..]) == Run(Advance(s1), [Proceed, Proceed, Proceed])
        == Run(Advance(Advance(s1)), [Proceed, Proceed]) == Run(Advance(Advance(Advance(s1))), [Proceed])
        == Run(Advance(Advance(Advance(Advance(s1)))), []);
  }

  ghost predicate Refused(m: Stamps, peer: Peer, ts: Int64) {
    peer in m && ts <= m[peer]
  }

  // ----- Runs with crashes

  /** Where the receive loop is inside the handling of one Init. */
  datatype Stage =
    | Idle
    | Verified(peer: Peer, ts: Int64)
    | Marked(peer: Peer, ts: Int64)
    | Recorded(peer: Peer, ts: Int64, snapshot: Stamps)
    | Saved(peer: Peer, ts: Int64)

  datatype Effect = Effect(peer: Peer, ts: Int64)

  datatype State = State(clock: Clock, memory: Stamps, file: Stamps, stage: Stage, effects: seq<Effect>)

  /**
   `Receive` is any Init whose signature verifies, new or replayed. `Proceed` moves the
   handling one step on; `Drop` ends it early, as an unknown peer or a pin mismatch does.
   Time passes between any two steps, and `Crash` is a restart.
   */
  datatype Step = Tick(to: Clock) | Receive(peer: Peer, raw: Int64) | Proceed | Drop | Crash

  ghost function Start(clock: Clock): State {
    State(clock, map[], map[], Idle, [])
  }

  ghost function Next(s: State, step: Step): State {
    match step
    case Tick(to) => if to >= s.clock then s.(clock := to) else s
    case Receive(peer, raw) =>
      var ts := NormalizeTimestamp(raw);
      if s.stage.Idle? && InWindow(s.clock, ts) && ts != 0 then s.(stage := Verified(peer, ts)) else s
    case Proceed => Advance(s)
    case Drop => if s.stage.Verified? || s.stage.Saved? then s.(stage := Idle) else s
    case Crash => s.(memory := Loaded(map[], s.file, s.clock - MAX_SKEW), stage := Idle)
  }

  ghost function Advance(s: State): State {
    match s.stage
    case Idle => s
    case Verified(peer, ts) =>
      if Refused(s.memory, peer, ts) then s.(stage := Idle)
      else s.(memory := s.memory[peer := ts], stage := Marked(peer, ts))
    case Marked(peer, ts) =>
      var kept := Pruned(s.memory, s.clock - MAX_SKEW);
      s.(memory := kept, stage := Recorded(peer, ts, kept))
    case Recorded(peer, ts, snapshot) => s.(file := snapshot, stage := Saved(peer, ts))
    case Saved(peer, ts) => s.(effects := s.effects + [Effect(peer, ts)], stage := Idle)
  }

  ghost function Run(s: State, steps: seq<Step>): State
    decreases |steps|
  {
    if steps == [] then s else Run(Next(s, steps[0]), steps[1..])
  }

  ghost predicate Increasing(effects: seq<Effect>) {
    forall i, j :: 0 <= i < j < |effects| && effects[i].peer == effects[j].peer ==> effects[i].ts < effects[j].ts
  }

  /** `m` still refuses timestamp `ts` of the peer, or the freshness check does from now on. */
  ghost predicate Covers(m: Stamps, peer: Peer, ts: int, clock: int) {
    (peer in m && m[peer] >= ts) || ts < clock - MAX_SKEW
  }

  ghost predicate CoversAll(m: Stamps, effects: seq<Effect>, clock: int) {
    forall e <- effects :: Covers(m, e.peer, e.ts, clock)
  }

  ghost predicate AllPositive(m: Stamps) {
    forall id :: id in m ==> m[id] > 0
  }

  /** Every past effect of the peer is older than `ts`. */
  ghost predicate Newest(effects: seq<Effect>, peer: Peer, ts: int) {
    forall e <- effects :: e.peer == peer ==> e.ts < ts
  }

  ghost predicate StageInv(s: State) {
    match s.stage
    case Idle => true
    case Verified(peer, ts) => ts > 0 && (Refused(s.memory, peer, ts) || Newest(s.effects, peer, ts))
    case Marked(peer, ts) => ts > 0 && Newest(s.effects, peer, ts) && Covers(s.memory, peer, ts, s.clock)
    case Recorded(peer, ts, snapshot) =>
      && ts > 0 && Newest(s.effects, peer, ts) && AllPositive(snapshot)
      && Covers(s.memory, peer, ts, s.clock)
      && CoversAll(snapshot, s.effects, s.clock) && Covers(snapshot, peer, ts, s.clock)
    case Saved(peer, ts) =>
      && ts > 0 && Newest(s.effects, peer, ts)
      && Covers(s.memory, peer, ts, s.clock) && Covers(s.file, peer, ts, s.clock)
  }

  ghost predicate Inv(s: State) {
    && s.clock > MAX_SKEW - 512
    && Increasing(s.effects)
    && AllPositive(s.memory) && AllPositive(s.file)
    && CoversAll(s.memory, s.effects, s.clock)
    && CoversAll(s.file, s.effects, s.clock)
    && StageInv(s)
  }

  lemma ReceiveKeepsInv(s: State, peer: Peer, raw: Int64)
    requires Inv(s)
    ensures Inv(Next(s, Receive(peer, raw)))
  {
    var ts := NormalizeTimestamp(raw);
    WindowIsExact(s.clock, ts);
    NegativeStampsAreCoarse(raw);
    hide NormalizeTimestamp, InWindow;
    if s.stage.Idle? && InWindow(s.clock, ts) && ts != 0 && !Refused(s.memory, peer, ts) {
      forall e | e in s.effects && e.peer == peer ensures e.ts < ts {
        assert Covers(s.memory, e.peer, e.ts, s.clock);
      }
    }
  }

  lemma PruneKeepsCover(m: Stamps, peer: Peer, ts: int, clock: int)
    requires Covers(m, peer, ts, clock)
    ensures Covers(Pruned(m, clock - MAX_SKEW), peer, ts, clock)
  {}

  lemma LoadKeepsCover(file: Stamps, peer: Peer, ts: int, clock: int)
    requires Covers(file, peer, ts, clock) && AllPositive(file)
    ensures Covers(Loaded(map[], file, clock - MAX_SKEW), peer, ts, clock)
  {}

  lemma MarkKeepsInv(s: State)
    requires Inv(s) && s.stage.Verified?
    ensures Inv(Advance(s))
  {}

  lemma PruneKeepsInv(s: State)
    requires Inv(s) && s.stage.Marked?
    ensures Inv(Advance(s))
  {
    forall e | e in s.effects ensures Covers(Advance(s).memory, e.peer, e.ts, s.clock) {
      PruneKeepsCover(s.memory, e.peer, e.ts, s.clock);
    }
    PruneKeepsCover(s.memory, s.stage.peer, s.stage.ts, s.clock);
  }

  lemma SaveAndEffectKeepInv(s: State)
    requires Inv(s) && (s.stage.Recorded? || s.stage.Saved?)
    ensures Inv(Advance(s))
  {}

  lemma CrashKeepsInv(s: State)
    requires Inv(s)
    ensures Inv(Next(s, Crash))
  {
    forall e | e in s.effects ensures Covers(Next(s, Crash).memory, e.peer, e.ts, s.clock) {
      LoadKeepsCover(s.file, e.peer, e.ts, s.clock);
    }
  }

  lemma TickKeepsInv(s: State, to: Clock)
    requires Inv(s)
    ensures Inv(Next(s, Tick(to)))
  {}

  lemma NextKeepsInv(s: State, step: Step)
    requires Inv(s)
    ensures Inv(Next(s, step))
  {
    match step
    case Tick(to) => TickKeepsInv(s, to);
    case Receive(peer, raw) => ReceiveKeepsInv(s, peer, raw);
    case Drop =>
    case Crash => CrashKeepsInv(s);
    case Proceed =>
      match s.stage
      case Idle =>
      case Verified(_, _) => MarkKeepsInv(s);
      case Marked(_, _) => PruneKeepsInv(s);
      case _ => SaveAndEffectKeepInv(s);
  }

  lemma {:induction false} RunKeepsInv(s: State, steps: seq<Step>)
    requires Inv(s)
    ensures Inv(Run(s, steps))
    decreases |steps|
  {
    if steps != [] {
      NextKeepsInv(s, steps[0]);
      RunKeepsInv(Next(s, steps[0]), steps[1..]);
    }
  }

  /** A raw timestamp that normalizes, by wrap-around, to 512 ns before the epoch. */
  const EARLY_RAW: Int64 := -20211507185753197

  /** The steps in which one Init takes effect undisturbed. */
  ghost function Take(peer: Peer): seq<Step> {
    [Receive(peer, EARLY_RAW), Proceed, Proceed, Proceed, Proceed]
  }

  lemma {:induction false} RunAppend(s: State, a: seq<Step>, b: seq<Step>)
    ensures Run(s, a + b) == Run(Run(s, a), b)
    decreases |a|
  {
    if a == [] {
      assert a + b == b;
    } else {
      assert (a + b)[1..] == a[1..] + b;
      RunAppend(Next(s, a[0]), a[1..], b);
    }
  }

  lemma EarlyRawNormalizes()
    ensures NormalizeTimestamp(EARLY_RAW) == -512
  {}

  lemma TakeFromIdle(s: State, peer: Peer)
    requires s.stage.Idle? && peer !in s.memory && s.clock <= MAX_SKEW - 512
    ensures var t := Run(s, Take(peer));
            && t.effects == s.effects + [Effect(peer, -512)] && t.clock == s.clock
            && peer in t.file && t.file[peer] == -512
  {
    hide NormalizeTimestamp, InWindow;
    EarlyRawNormalizes();
    WindowIsExact(s.clock, -512);
    HandledIsRun(s, peer, EARLY_RAW);
  }

  /**
   In every run, crashes included, the timestamps of a peer's Inits that take effect
   strictly increase, if and only if the clock starts after 30 seconds (less 511 ns) past
   the epoch: before that a timestamp can be negative, and a negative one is not loaded
   back from the file.
   */
  lemma EffectsIncrease(clock: Clock)
    ensures (forall steps :: Increasing(Run(Start(clock), steps).effects)) <==> clock > MAX_SKEW - 512
  {
    if clock > MAX_SKEW - 512 {
      forall steps ensures Increasing(Run(Start(clock), steps).effects) {
        RunKeepsInv(Start(clock), steps);
      }
    } else {
      var steps := EarlyClockReplays(clock, []);
    }
  }

  /** Before then, one Init takes effect, the process crashes, and the same Init takes effect again. */
  lemma EarlyClockReplays(clock: Clock, peer: Peer) returns (steps: seq<Step>)
    requires clock <= MAX_SKEW - 512
    ensures !Increasing(Run(Start(clock), steps).effects)
  {
    hide Next, Advance, Increasing, NormalizeTimestamp, InWindow;
    steps := Take(peer) + ([Crash] + Take(peer));
    var s := Run(Start(clock), Take(peer));
    TakeFromIdle(Start(clock), peer);
    RunAppend(Start(clock), Take(peer), [Crash] + Take(peer));
    RunAppend(s, [Crash], Take(peer));
    var t := Run(s, [Crash]);
    CrashForgets(s, peer);
    TakeFromIdle(t, peer);
    assert Run(t, Take(peer)).effects == [Effect(peer, -512), Effect(peer, -512)];
    TwiceIsNotIncreasing(Effect(peer, -512));
  }

  lemma CrashForgets(s: State, peer: Peer)
    requires peer in s.file && s.file[peer] == -512
    ensures var t := Run(s, [Crash]);
            t.stage.Idle? && peer !in t.memory && t.clock == s.clock && t.effects == s.effects
  {
    assert Run(s, [Crash]) == Run(Next(s, Crash), [Crash][1..]) == Next(s, Crash);
  }

  lemma TwiceIsNotIncreasing(e: Effect)
    ensures !Increasing([e, e])
  {
    assert [e, e][0].peer == [e, e][1].peer;
  }

  // ----- Fresh Inits get through

  /** The normalized timestamps a peer's Inits have carried so far. */
  ghost function Carried(steps: seq<Step>, peer: Peer): set<int> {
    set i | 0 <= i < |steps| && steps[i].Receive? && steps[i].peer == peer :: NormalizeTimestamp(steps[i].raw) as int
  }

  /** Every stamp kept for the peer, in memory, in the file or in between, is in `seen`. */
  ghost predicate OnlyFrom(s: State, peer: Peer, seen: set<int>) {
    && (peer in s.memory ==> s.memory[peer] in seen)
    && (peer in s.file ==> s.file[peer] in seen)
    && match s.stage
       case Idle => true
       case Verified(q, ts) => q == peer ==> ts in seen
       case Marked(q, ts) => q == peer ==> ts in seen
       case Recorded(q, ts, snapshot) => (q == peer ==> ts in seen) && (peer in snapshot ==> snapshot[peer] in seen)
       case Saved(q, ts) => q == peer ==> ts in seen
  }

  lemma StepOnlyFrom(s: State, step: Step, peer: Peer, seen: set<int>)
    requires OnlyFrom(s, peer, seen)
    ensures OnlyFrom(Next(s, step), peer,
              if step.Receive? && step.peer == peer then seen + {NormalizeTimestamp(step.raw) as int} else seen)
  {
    hide NormalizeTimestamp, InWindow;
  }

  lemma {:induction false} RunOnlyFrom(clock: Clock, steps: seq<Step>, peer: Peer)
    ensures OnlyFrom(Run(Start(clock), steps), peer, Carried(steps, peer))
    decreases |steps|
  {
    hide OnlyFrom, Next, NormalizeTimestamp;
    if steps == [] {
      StartOnlyFrom(clock, peer);
    } else {
      var front, last := steps[..|steps| - 1], steps[|steps| - 1];
      RunOnlyFrom(clock, front, peer);
      assert steps == front + [last];
      RunAppend(Start(clock), front, [last]);
      RunLast(Run(Start(clock), front), last);
      StepOnlyFrom(Run(Start(clock), front), last, peer, Carried(front, peer));
      CarriedLast(front, last, peer);
    }
  }

  lemma StartOnlyFrom(clock: Clock, peer: Peer)
    ensures OnlyFrom(Run(Start(clock), []), peer, Carried([], peer))
  {}

  lemma RunLast(s: State, step: Step)
    ensures Run(s, [step]) == Next(s, step)
  {
    assert Run(s, [step]) == Run(Next(s, step), []);
  }

  lemma CarriedLast(front: seq<Step>, last: Step, peer: Peer)
    ensures Carried(front + [last], peer) ==
            if last.Receive? && last.peer == peer then Carried(front, peer) + {NormalizeTimestamp(last.raw) as int} else Carried(front, peer)
  {
    hide NormalizeTimestamp;
    var steps := front + [last];
    forall x | x in Carried(front, peer) ensures x in Carried(steps, peer) {
      var i :| 0 <= i < |front| && front[i].Receive? && front[i].peer == peer && NormalizeTimestamp(front[i].raw) == x;
      assert steps[i] == front[i];
    }
    if last.Receive? && last.peer == peer {
      assert steps[|front|] == last;
    }
  }

  /**
   In every reachable state, an Init that is handled undisturbed takes effect if its stamp
   is within 30 seconds of the clock, is not zero and lies above every stamp its peer's
   Inits have carried before.
   */
  lemma FreshInitTakesEffect(clock: Clock, steps: seq<Step>, peer: Peer, raw: Int64)
    requires Run(Start(clock), steps).stage.Idle?
    requires var ts := NormalizeTimestamp(raw);
             ts != 0 && -30_000_000_000 <= Run(Start(clock), steps).clock - ts <= 30_000_000_000
             && forall x <- Carried(steps, peer) :: ts > x
    ensures Handled(Run(Start(clock), steps), peer, raw).effects ==
            Run(Start(clock), steps).effects + [Effect(peer, NormalizeTimestamp(raw))]
  {
    hide NormalizeTimestamp, InWindow, Run;
    RunOnlyFrom(clock, steps, peer);
    WindowIsExact(Run(Start(clock), steps).clock, NormalizeTimestamp(raw));
  }
}
