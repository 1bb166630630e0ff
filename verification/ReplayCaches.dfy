/**
 The relay's cache of handshake openings: a `message_1` carries an ephemeral key and the
 client's clock, and is remembered until its clock reading is too old to be accepted.
 */
module RelayReplay {
  import opened Wrappers
  import opened Collections

  /** 30 seconds in nanoseconds; times are in nanoseconds. */
  const MAX_AGE := 30_000_000_000
  const MAX_SEEN := 65536

  type Ephemeral = seq<int>
  type Cache = map<Ephemeral, int>

  datatype Msg1 = Msg1(eph: Ephemeral, sent: int)

  predicate Recent(m: Msg1, now: int) {
    -MAX_AGE <= now - m.sent <= MAX_AGE
  }

  /** The entries whose message could still pass. */
  ghost function Swept(c: Cache, now: int): Cache {
    map k | k in c && !(now > c[k]) :: c[k]
  }

  ghost function Roomed(c: Cache, now: int): Cache {
    if |c| >= MAX_SEEN then Swept(c, now) else c
  }

  ghost predicate Accepts(c: Cache, m: Msg1, now: int) {
    Recent(m, now) && m.eph !in c && |Roomed(c, now)| < MAX_SEEN
  }

  ghost function Offer(c: Cache, m: Msg1, now: int): Cache {
    if !Recent(m, now) || m.eph in c then c
    else if |Roomed(c, now)| >= MAX_SEEN then Roomed(c, now)
    else Roomed(c, now)[m.eph := m.sent + MAX_AGE]
  }

  class Service {
    var seenMsg1: Cache

    constructor ()
      ensures seenMsg1 == map[]
    {
      seenMsg1 := map[];
    }

    method Sweep(now: int)
      modifies this
      ensures seenMsg1 == Swept(old(seenMsg1), now)
    {
      var all := seenMsg1;
      var todo := all.Keys;
      while todo != {}
        invariant todo <= all.Keys
        invariant forall k :: k in seenMsg1 <==> k in all && (k in todo || !(now > all[k]))
        invariant forall k :: k in seenMsg1 ==> seenMsg1[k] == all[k]
        decreases todo
      {
        var k :| k in todo;
        todo := todo - {k};
        if now > all[k] {
          seenMsg1 := seenMsg1 - {k};
        }
      }
    }

    /** `now` was read before the lock was taken, so it may be older than what others used under the lock. */
    method FreshMsg1(m: Msg1, now: int) returns (ok: bool)
      modifies this
      ensures ok <==> Accepts(old(seenMsg1), m, now)
      ensures seenMsg1 == Offer(old(seenMsg1), m, now)
    {
      var d := now - m.sent;
      if d > MAX_AGE || d < -MAX_AGE {
        return false;
      }
      if m.eph in seenMsg1 {
        return false;
      }
      if |seenMsg1| >= MAX_SEEN {
        Sweep(now);
        if |seenMsg1| >= MAX_SEEN {
          return false;
        }
      }
      seenMsg1 := seenMsg1[m.eph := m.sent + MAX_AGE];
      return true;
    }
  }

  // ----- Runs

  /** A message in the order of the lock, with the time its handler had read before. */
  datatype Arrival = Arrival(m: Msg1, at: int)

  /** `swept` is the latest reading with which the cache has been swept. */
  datatype Relay = Relay(cache: Cache, accepted: seq<Msg1>, swept: Option<int>)

  const START := Relay(map[], [], None)

  ghost predicate Sweeps(c: Cache, m: Msg1, now: int) {
    Recent(m, now) && m.eph !in c && |c| >= MAX_SEEN
  }

  ghost function Next(r: Relay, a: Arrival): Relay {
    Relay(
      Offer(r.cache, a.m, a.at),
      if Accepts(r.cache, a.m, a.at) then r.accepted + [a.m] else r.accepted,
      if Sweeps(r.cache, a.m, a.at) && (r.swept.None? || r.swept.value < a.at) then Some(a.at) else r.swept)
  }

  ghost function Run(r: Relay, arrivals: seq<Arrival>): Relay
    decreases |arrivals|
  {
    if arrivals == [] then r else Run(Next(r, arrivals[0]), arrivals[1..])
  }

  /** The reading is older than one with which the cache has been swept. */
  ghost predicate Late(r: Relay, at: int) {
    r.swept.Some? && at < r.swept.value
  }

  /** No handler comes to the lock with a reading that is late. */
  ghost predicate Prompt(r: Relay, arrivals: seq<Arrival>)
    decreases |arrivals|
  {
    arrivals != [] ==> !Late(r, arrivals[0].at) && Prompt(Next(r, arrivals[0]), arrivals[1..])
  }

  /** An accepted message is in the cache until a sweep with a reading at which it was stale. */
  ghost predicate Remembered(r: Relay, m: Msg1) {
    (m.eph in r.cache && r.cache[m.eph] >= m.sent + MAX_AGE) || Late(r, m.sent + MAX_AGE)
  }

  /** What holds whatever the readings are. */
  ghost predicate Inv(r: Relay) {
    |r.cache| <= MAX_SEEN && forall m <- r.accepted :: Remembered(r, m)
  }

  lemma SweptSmaller(c: Cache, now: int)
    ensures |Swept(c, now)| <= |c|
  {
    assert Swept(c, now).Keys <= c.Keys;
    SubsetSize(Swept(c, now).Keys, c.Keys);
    assert |Swept(c, now)| == |Swept(c, now).Keys| && |c| == |c.Keys|;
  }

  /** A sweep makes room exactly if it finds an entry that has expired. */
  lemma SweptRoom(c: Cache, now: int)
    ensures |Swept(c, now)| < |c| <==> exists k <- c :: c[k] < now
  {
    var d := Swept(c, now);
    assert |d| == |d.Keys| && |c| == |c.Keys|;
    if k :| k in c && c[k] < now {
      assert d.Keys <= c.Keys - {k};
      SubsetSize(d.Keys, c.Keys - {k});
    } else {
      assert d == c;
    }
  }

  /**
   A message is accepted exactly if the reading lies within 30 seconds of the client's
   clock, before or after, its key is not remembered, and there is or can be made room. It
   is then remembered for 30 seconds from the client's clock.
   */
  lemma AcceptsByNumbers(c: Cache, m: Msg1, now: int)
    requires |c| <= 65536
    ensures Accepts(c, m, now) <==>
              && m.sent - 30_000_000_000 <= now <= m.sent + 30_000_000_000
              && m.eph !in c
              && (|c| < 65536 || exists k <- c :: c[k] < now)
    ensures Accepts(c, m, now) ==> m.eph in Offer(c, m, now) && Offer(c, m, now)[m.eph] == m.sent + 30_000_000_000
  {
    SweptRoom(c, now);
  }

  lemma NextKeepsInv(r: Relay, a: Arrival)
    requires Inv(r)
    ensures Inv(Next(r, a))
  {
    SweptSmaller(r.cache, a.at);
    forall m | m in r.accepted ensures Remembered(Next(r, a), m) {
      assert Remembered(r, m);
    }
  }

  lemma {:induction false} RunKeepsInv(r: Relay, arrivals: seq<Arrival>)
    requires Inv(r)
    ensures Inv(Run(r, arrivals)) && |r.accepted| <= |Run(r, arrivals).accepted| && r.accepted <= Run(r, arrivals).accepted
    decreases |arrivals|
  {
    if arrivals != [] {
      NextKeepsInv(r, arrivals[0]);
      RunKeepsInv(Next(r, arrivals[0]), arrivals[1..]);
    }
  }

  /** Whatever the readings, a message accepted before is accepted again only with a late reading. */
  lemma AgainOnlyIfLate(arrivals: seq<Arrival>, m: Msg1, at: int)
    requires m in Run(START, arrivals).accepted && Accepts(Run(START, arrivals).cache, m, at)
    ensures Late(Run(START, arrivals), at)
  {
    RunKeepsInv(START, arrivals);
    assert Remembered(Run(START, arrivals), m);
  }

  lemma {:induction false} PromptIsDistinct(r: Relay, arrivals: seq<Arrival>)
    requires Inv(r) && Distinct(r.accepted) && Prompt(r, arrivals)
    ensures Distinct(Run(r, arrivals).accepted)
    decreases |arrivals|
  {
    if arrivals != [] {
      var a := arrivals[0];
      NextKeepsInv(r, a);
      if Accepts(r.cache, a.m, a.at) {
        assert a.m in r.accepted ==> Remembered(r, a.m);
      }
      PromptIsDistinct(Next(r, a), arrivals[1..]);
    }
  }

  /** With no late reading, no `message_1` is accepted twice; the cache never exceeds its bound in any case. */
  lemma AcceptedAtMostOnce(arrivals: seq<Arrival>)
    ensures |Run(START, arrivals).cache| <= MAX_SEEN
    ensures Prompt(START, arrivals) ==> Distinct(Run(START, arrivals).accepted)
  {
    RunKeepsInv(START, arrivals);
    if Prompt(START, arrivals) {
      PromptIsDistinct(START, arrivals);
    }
  }

  /** The cache has never been swept and holds the keys of the accepted messages. */
  ghost predicate Unpruned(r: Relay) {
    && |r.cache| == |r.accepted|
    && (forall m <- r.accepted :: m.eph in r.cache)
    && forall k <- r.cache :: exists m <- r.accepted :: m.eph == k
  }

  lemma NextUnpruned(r: Relay, a: Arrival)
    requires Unpruned(r) && |r.cache| < MAX_SEEN
    ensures Unpruned(Next(r, a))
  {
    if Accepts(r.cache, a.m, a.at) {
      var t := Next(r, a);
      assert t.cache.Keys == r.cache.Keys + {a.m.eph};
      assert |t.cache| == |t.cache.Keys| && |r.cache| == |r.cache.Keys|;
      assert forall m :: m in t.accepted <==> m in r.accepted || m == a.m;
      assert a.m in t.accepted;
    }
  }

  lemma {:induction false} RunUnpruned(r: Relay, arrivals: seq<Arrival>)
    requires Inv(r) && Unpruned(r) && |Run(r, arrivals).accepted| < MAX_SEEN
    ensures Unpruned(Run(r, arrivals))
    decreases |arrivals|
  {
    hide Next, Unpruned;
    RunKeepsInv(r, arrivals);
    if arrivals != [] {
      UnprunedSize(r);
      NextKeepsInv(r, arrivals[0]);
      NextUnpruned(r, arrivals[0]);
      RunUnpruned(Next(r, arrivals[0]), arrivals[1..]);
    }
  }

  lemma UnprunedSize(r: Relay)
    requires Unpruned(r)
    ensures |r.cache| == |r.accepted|
  {}

  /**
   Until 65536 messages have been accepted, a message is accepted exactly if the reading is
   within 30 seconds of its clock and its key came with no message accepted before.
   */
  lemma AcceptedUntilFull(arrivals: seq<Arrival>, m: Msg1, at: int)
    requires |Run(START, arrivals).accepted| < 65536
    ensures Accepts(Run(START, arrivals).cache, m, at) <==>
              && m.sent - 30_000_000_000 <= at <= m.sent + 30_000_000_000
              && forall e <- Run(START, arrivals).accepted :: e.eph != m.eph
  {
    RunUnpruned(START, arrivals);
    AcceptsByNumbers(Run(START, arrivals).cache, m, at);
  }

  ghost predicate KeptThroughout(r: Relay, arrivals: seq<Arrival>, eph: Ephemeral)
    decreases |arrivals|
  {
    eph in r.cache && (arrivals != [] ==> KeptThroughout(Next(r, arrivals[0]), arrivals[1..], eph))
  }

  /** No arrival sweeps the cache with a reading after `expiry`. */
  ghost predicate Unswept(r: Relay, arrivals: seq<Arrival>, expiry: int)
    decreases |arrivals|
  {
    arrivals != [] ==>
      && !(Sweeps(r.cache, arrivals[0].m, arrivals[0].at) && arrivals[0].at > expiry)
      && Unswept(Next(r, arrivals[0]), arrivals[1..], expiry)
  }

  /** Whatever the readings, a message stays in the cache, and so is refused, exactly until a sweep that reads a time past its expiry. */
  lemma {:induction false} KeptUntilSwept(r: Relay, arrivals: seq<Arrival>, eph: Ephemeral)
    requires eph in r.cache
    ensures KeptThroughout(r, arrivals, eph) <==> Unswept(r, arrivals, r.cache[eph])
    decreases |arrivals|
  {
    if arrivals != [] {
      var t := Next(r, arrivals[0]);
      if eph in t.cache {
        KeptUntilSwept(t, arrivals[1..], eph);
      }
    }
  }

  // ----- A late reading

  function Eph(i: nat): (e: Ephemeral)
    ensures |e| == i
  {
    seq(i, _ => 0)
  }

  /** The cache after `n` messages with readings and clocks at 0. */
  ghost function Crowd(n: nat): (c: Cache)
    ensures |c| == n && forall k :: k in c ==> |k| < n && c[k] == MAX_AGE
  {
    if n == 0 then map[]
    else
      assert Eph(n - 1) !in Crowd(n - 1);
      assert Crowd(n - 1)[Eph(n - 1) := MAX_AGE].Keys == Crowd(n - 1).Keys + {Eph(n - 1)};
      Crowd(n - 1)[Eph(n - 1) := MAX_AGE]
  }

  ghost function Rush(n: nat): seq<Arrival> {
    seq(n, i requires 0 <= i => Arrival(Msg1(Eph(i), 0), 0))
  }

  lemma {:induction false} RunAppend(r: Relay, a: seq<Arrival>, b: seq<Arrival>)
    ensures Run(r, a + b) == Run(Run(r, a), b)
    decreases |a|
  {
    if a == [] {
      assert a + b == b;
    } else {
      assert (a + b)[1..] == a[1..] + b;
      RunAppend(Next(r, a[0]), a[1..], b);
    }
  }

  lemma RunOne(r: Relay, a: Arrival)
    ensures Run(r, [a]) == Next(r, a)
  {
    assert Run(r, [a]) == Run(Next(r, a), []);
  }

  lemma RushSteps(r: Relay, n: nat)
    requires n < MAX_SEEN && r.cache == Crowd(n) && r.swept.None?
    ensures var t := Next(r, Arrival(Msg1(Eph(n), 0), 0));
            t.cache == Crowd(n + 1) && t.swept.None? && t.accepted == r.accepted + [Msg1(Eph(n), 0)]
  {
    hide Eph;
    assert Eph(n) !in Crowd(n);
  }

  lemma {:induction false} RushFills(n: nat)
    requires n <= MAX_SEEN
    ensures var r := Run(START, Rush(n));
            r.cache == Crowd(n) && r.swept.None? && |r.accepted| == n && (n > 0 ==> r.accepted[0] == Msg1(Eph(0), 0))
  {
    hide Next, Eph, Run;
    if n == 0 {
      RunNone(START);
    } else {
      var a := Arrival(Msg1(Eph(n - 1), 0), 0);
      assert Rush(n) == Rush(n - 1) + [a];
      RushFills(n - 1);
      RunAppend(START, Rush(n - 1), [a]);
      RunOne(Run(START, Rush(n - 1)), a);
      RushSteps(Run(START, Rush(n - 1)), n - 1);
    }
  }

  lemma RunNone(r: Relay)
    ensures Run(r, Rush(0)) == r
  {}

  /** The rush, then a message just after the others went stale, then the first again, with the reading its handler had taken before. */
  ghost function LateAgain(): seq<Arrival> {
    Rush(MAX_SEEN) + ([Arrival(Msg1(Eph(MAX_SEEN), MAX_AGE + 1), MAX_AGE + 1)] + [Arrival(Msg1(Eph(0), 0), MAX_AGE)])
  }

  /** With one late reading a message is accepted twice. */
  lemma LateReadingReplays()
    ensures !Distinct(Run(START, LateAgain()).accepted)
  {
    hide Distinct, Eph, Rush, Next, Run, Crowd;
    var r := Run(START, Rush(MAX_SEEN));
    var a, b := Arrival(Msg1(Eph(MAX_SEEN), MAX_AGE + 1), MAX_AGE + 1), Arrival(Msg1(Eph(0), 0), MAX_AGE);
    RushFills(MAX_SEEN);
    RunAppend(START, Rush(MAX_SEEN), [a] + [b]);
    RunAppend(r, [a], [b]);
    RunOne(r, a);
    RunOne(Next(r, a), b);
    SweepsAll(r, a);
    AcceptsAfterSweep(Next(r, a), a, b);
    TwiceIsNotDistinct(Run(START, LateAgain()).accepted);
  }

  lemma SweepsAll(r: Relay, a: Arrival)
    requires |r.cache| == MAX_SEEN && (forall k :: k in r.cache ==> r.cache[k] == MAX_AGE)
    requires a == Arrival(Msg1(a.m.eph, MAX_AGE + 1), MAX_AGE + 1)
    requires a.m.eph !in r.cache
    ensures Next(r, a).cache == map[a.m.eph := 2 * MAX_AGE + 1] && Next(r, a).accepted == r.accepted + [a.m]
  {
    assert Swept(r.cache, a.at) == map[];
  }

  lemma AcceptsAfterSweep(r: Relay, a: Arrival, b: Arrival)
    requires r.cache == map[a.m.eph := 2 * MAX_AGE + 1] && b == Arrival(Msg1(b.m.eph, 0), MAX_AGE) && a.m.eph != b.m.eph
    ensures Next(r, b).accepted == r.accepted + [b.m]
  {}

  lemma TwiceIsNotDistinct(s: seq<Msg1>)
    requires |s| >= 2 && s[0] == s[|s| - 1]
    ensures !Distinct(s)
  {}
}

/**
 The coordinator's cache of signatures it has accepted. An entry is kept for twice the
 timestamp window, counted from the moment of acceptance.
 */
module CallReplay {
  import opened Wrappers
  import opened Collections

  const SECOND := 1_000_000_000
  /** The window, in seconds. */
  const WINDOW := 120
  const MAX_SEEN := 65536

  /** A signature fits one message, so it determines the timestamp (in seconds) it covers. */
  datatype Signature = Signature(id: seq<int>, timestamp: int)

  type Cache = map<Signature, int>

  /** Whole seconds of a time in nanoseconds. */
  function Unix(now: int): int {
    now / SECOND
  }

  predicate InWindow(sig: Signature, now: int) {
    var drift := Unix(now) - sig.timestamp;
    !(drift < -WINDOW || drift > WINDOW)
  }

  ghost function Swept(c: Cache, now: int): Cache {
    map k | k in c && now < c[k] :: c[k]
  }

  ghost function Roomed(c: Cache, now: int): Cache {
    if |c| >= MAX_SEEN then Swept(c, now) else c
  }

  ghost predicate FirstUse(c: Cache, sig: Signature, now: int) {
    !(sig in c && now < c[sig]) && |Roomed(c, now)| < MAX_SEEN
  }

  ghost function Used(c: Cache, sig: Signature, now: int): Cache {
    if sig in c && now < c[sig] then c
    else if |Roomed(c, now)| >= MAX_SEEN then Roomed(c, now)
    else Roomed(c, now)[sig := now + 2 * WINDOW * SECOND]
  }

  ghost predicate Accepts(c: Cache, sig: Signature, now: int) {
    InWindow(sig, now) && FirstUse(c, sig, now)
  }

  class SeenSignatures {
    var seen: Cache

    constructor ()
      ensures seen == map[]
    {
      seen := map[];
    }

    method Sweep(now: int)
      modifies this
      ensures seen == Swept(old(seen), now)
    {
      var all := seen;
      var todo := all.Keys;
      while todo != {}
        invariant todo <= all.Keys
        invariant forall k :: k in seen <==> k in all && (k in todo || now < all[k])
        invariant forall k :: k in seen ==> seen[k] == all[k]
        decreases todo
      {
        var k :| k in todo;
        todo := todo - {k};
        if !(now < all[k]) {
          seen := seen - {k};
        }
      }
    }

    method FirstUseOf(sig: Signature, now: int) returns (ok: bool)
      modifies this
      ensures ok <==> FirstUse(old(seen), sig, now)
      ensures seen == Used(old(seen), sig, now)
    {
      if sig in seen && now < seen[sig] {
        return false;
      }
      if |seen| >= MAX_SEEN {
        Sweep(now);
        if |seen| >= MAX_SEEN {
          return false;
        }
      }
      seen := seen[sig := now + 2 * WINDOW * SECOND];
      return true;
    }

    /** `now` was read before the lock was taken. */
    method VerifyCall(sig: Signature, now: int) returns (ok: bool)
      modifies this
      ensures ok <==> Accepts(old(seen), sig, now)
      ensures seen == if InWindow(sig, now) then Used(old(seen), sig, now) else old(seen)
    {
      if !InWindow(sig, now) {
        return false;
      }
      ok := FirstUseOf(sig, now);
    }
  }

  // ----- Runs

  /** A call in the order of the lock, with the time its handler had read before. */
  datatype Call = Call(sig: Signature, at: int)

  /** `now` is the reading of the last call, `swept` the latest one with which the cache has been swept. */
  datatype Server = Server(cache: Cache, now: int, swept: Option<int>)

  ghost predicate Sweeps(c: Cache, sig: Signature, now: int) {
    InWindow(sig, now) && !(sig in c && now < c[sig]) && |c| >= MAX_SEEN
  }

  ghost function Next(s: Server, c: Call): Server {
    Server(
      if InWindow(c.sig, c.at) then Used(s.cache, c.sig, c.at) else s.cache,
      c.at,
      if Sweeps(s.cache, c.sig, c.at) && (s.swept.None? || s.swept.value < c.at) then Some(c.at) else s.swept)
  }

  ghost function Run(s: Server, calls: seq<Call>): Server
    decreases |calls|
  {
    if calls == [] then s else Run(Next(s, calls[0]), calls[1..])
  }

  ghost predicate Ordered(calls: seq<Call>, from: int) {
    calls != [] ==> from <= calls[0].at && Ordered(calls[1..], calls[0].at)
  }

  /** The cache respects its bound, and no entry is kept beyond twice the window from now. */
  ghost predicate Inv(s: Server) {
    && |s.cache| <= MAX_SEEN
    && forall k :: k in s.cache ==> s.cache[k] <= s.now + 2 * WINDOW * SECOND
  }

  lemma SweptSmaller(c: Cache, now: int)
    ensures |Swept(c, now)| <= |c|
  {
    SubsetSize(Swept(c, now).Keys, c.Keys);
    assert |Swept(c, now)| == |Swept(c, now).Keys| && |c| == |c.Keys|;
  }

  lemma SweptRoom(c: Cache, now: int)
    ensures |Swept(c, now)| < |c| <==> exists k <- c :: c[k] <= now
  {
    var d := Swept(c, now);
    assert |d| == |d.Keys| && |c| == |c.Keys|;
    if k :| k in c && c[k] <= now {
      assert d.Keys <= c.Keys - {k};
      SubsetSize(d.Keys, c.Keys - {k});
    } else {
      assert d == c;
    }
  }

  /**
   A signature is accepted exactly from 120 seconds before the second it was made until 120
   seconds after that second ends, if it is not remembered and there is or can be made room.
   It is then remembered for 240 seconds from the reading.
   */
  lemma AcceptsByNumbers(c: Cache, sig: Signature, now: int)
    requires |c| <= 65536
    ensures Accepts(c, sig, now) <==>
              && (sig.timestamp - 120) * 1_000_000_000 <= now < (sig.timestamp + 121) * 1_000_000_000
              && (sig !in c || c[sig] <= now)
              && (|c| < 65536 || exists k <- c :: c[k] <= now)
    ensures Accepts(c, sig, now) ==> sig in Used(c, sig, now) && Used(c, sig, now)[sig] == now + 240_000_000_000
  {
    SweptRoom(c, now);
    WindowByNumbers(sig, now);
  }

  lemma WindowByNumbers(sig: Signature, now: int)
    ensures InWindow(sig, now) <==> (sig.timestamp - 120) * 1_000_000_000 <= now < (sig.timestamp + 121) * 1_000_000_000
  {}

  lemma NextKeepsInv(s: Server, c: Call)
    requires Inv(s) && s.now <= c.at
    ensures Inv(Next(s, c))
  {
    SweptSmaller(s.cache, c.at);
  }

  lemma {:induction false} RunKeepsInv(s: Server, calls: seq<Call>)
    requires Inv(s) && Ordered(calls, s.now)
    ensures Inv(Run(s, calls))
    decreases |calls|
  {
    if calls != [] {
      NextKeepsInv(s, calls[0]);
      RunKeepsInv(Next(s, calls[0]), calls[1..]);
    }
  }

  /** A signature accepted at time `first` is cached until then plus twice the window. */
  ghost predicate Kept(s: Server, sig: Signature, first: int) {
    s.now < first + 2 * WINDOW * SECOND ==> sig in s.cache && s.cache[sig] >= first + 2 * WINDOW * SECOND
  }

  lemma {:induction false} RunKeeps(s: Server, calls: seq<Call>, sig: Signature, first: int)
    requires Inv(s) && Ordered(calls, s.now) && first <= s.now && Kept(s, sig, first)
    ensures Kept(Run(s, calls), sig, first) && Inv(Run(s, calls)) && s.now <= Run(s, calls).now
    decreases |calls|
  {
    if calls != [] {
      NextKeepsInv(s, calls[0]);
      RunKeeps(Next(s, calls[0]), calls[1..], sig, first);
    }
  }

  /** At time `again`, after some further calls, the signature is accepted once more. */
  ghost predicate Replayable(s: Server, sig: Signature) {
    exists calls, again :: Ordered(calls, s.now) && Run(s, calls).now <= again && Accepts(Run(s, calls).cache, sig, again)
  }

  /**
   In any reachable state: a signature accepted now can be accepted a second time in some
   continuation exactly when its timestamp lies the whole window ahead of the clock, to
   the second. Otherwise it is forgotten only after it has become stale.
   */
  lemma ReplayableIffWindowAhead(s: Server, sig: Signature, now: int)
    requires Inv(s) && s.now <= now && Accepts(s.cache, sig, now)
    ensures Replayable(Next(s, Call(sig, now)), sig) <==> sig.timestamp == Unix(now) + WINDOW
  {
    var t := Next(s, Call(sig, now));
    NextKeepsInv(s, Call(sig, now));
    if sig.timestamp == Unix(now) + WINDOW {
      var again := now + 2 * WINDOW * SECOND;
      AllExpired(t, again);
      assert Unix(again) == Unix(now) + 2 * WINDOW;
      assert Ordered([], t.now) && Run(t, []) == t && Accepts(Run(t, []).cache, sig, again);
    } else {
      forall calls, again | Ordered(calls, t.now) && Run(t, calls).now <= again
        ensures !Accepts(Run(t, calls).cache, sig, again)
      {
        RunKeeps(t, calls, sig, now);
        if again >= now + 2 * WINDOW * SECOND {
          assert Unix(again) >= Unix(now) + 2 * WINDOW;
        }
      }
    }
  }

  /** Twice the window after the last call every entry has expired, so there is room. */
  lemma AllExpired(s: Server, again: int)
    requires Inv(s) && again >= s.now + 2 * WINDOW * SECOND
    ensures |Roomed(s.cache, again)| < MAX_SEEN
    ensures forall k :: k in s.cache ==> !(again < s.cache[k])
  {
    assert Swept(s.cache, again) == map[];
  }

  // ----- Readings in any order

  /** A signature accepted at `first` is cached for twice the window, unless a sweep has read a time past that. */
  ghost predicate Lingers(s: Server, sig: Signature, first: int) {
    (sig in s.cache && s.cache[sig] >= first + 2 * WINDOW * SECOND) || Late(s, first + 2 * WINDOW * SECOND - 1)
  }

  /** The reading is older than one with which the cache has been swept. */
  ghost predicate Late(s: Server, at: int) {
    s.swept.Some? && at < s.swept.value
  }

  lemma {:induction false} RunLingers(s: Server, calls: seq<Call>, sig: Signature, first: int)
    requires Lingers(s, sig, first)
    ensures Lingers(Run(s, calls), sig, first)
    decreases |calls|
  {
    if calls != [] {
      RunLingers(Next(s, calls[0]), calls[1..], sig, first);
    }
  }

  /**
   Whatever the readings of the calls in between, a signature accepted once is accepted
   again only if its timestamp lay the whole window ahead at first, or with a late reading.
   */
  lemma AgainOnlyIfAheadOrLate(s: Server, sig: Signature, first: int, calls: seq<Call>, again: int)
    requires Accepts(s.cache, sig, first)
    requires Accepts(Run(Next(s, Call(sig, first)), calls).cache, sig, again)
    ensures sig.timestamp == Unix(first) + WINDOW || Late(Run(Next(s, Call(sig, first)), calls), again)
  {
    var t := Next(s, Call(sig, first));
    RunLingers(t, calls, sig, first);
    if again >= first + 2 * WINDOW * SECOND {
      assert Unix(again) >= Unix(first) + 2 * WINDOW;
    }
  }

  /** The signature's entry keeps its expiry in every state of the run. */
  ghost predicate KeptThroughout(s: Server, calls: seq<Call>, sig: Signature, expiry: int)
    decreases |calls|
  {
    sig in s.cache && s.cache[sig] == expiry && (calls != [] ==> KeptThroughout(Next(s, calls[0]), calls[1..], sig, expiry))
  }

  /** No call sweeps the cache with a reading from `expiry` on, and no use of the signature in its window has such a reading. */
  ghost predicate Undisturbed(s: Server, calls: seq<Call>, sig: Signature, expiry: int)
    decreases |calls|
  {
    calls != [] ==>
      && !(calls[0].at >= expiry && (Sweeps(s.cache, calls[0].sig, calls[0].at) || (calls[0].sig == sig && InWindow(sig, calls[0].at))))
      && Undisturbed(Next(s, calls[0]), calls[1..], sig, expiry)
  }

  /** Whatever the readings, an entry stays as it is exactly until such a sweep or use. */
  lemma {:induction false} KeptIff(s: Server, calls: seq<Call>, sig: Signature)
    requires |s.cache| <= MAX_SEEN && sig in s.cache
    ensures KeptThroughout(s, calls, sig, s.cache[sig]) <==> Undisturbed(s, calls, sig, s.cache[sig])
    decreases |calls|
  {
    hide InWindow;
    if calls != [] {
      var t := Next(s, calls[0]);
      SweptSmaller(s.cache, calls[0].at);
      BoundKept(s, calls[0]);
      if sig in t.cache && t.cache[sig] == s.cache[sig] {
        KeptIff(t, calls[1..], sig);
      }
    }
  }

  lemma BoundKept(s: Server, c: Call)
    requires |s.cache| <= MAX_SEEN
    ensures |Next(s, c).cache| <= MAX_SEEN
  {
    SweptSmaller(s.cache, c.at);
  }

  /**
   While the entry of a signature first accepted at `first` is kept, the signature is
   accepted again exactly with a reading, still in its window, two windows after that one,
   if there is room.
   */
  lemma AcceptedAgainIff(s: Server, sig: Signature, first: int, again: int)
    requires sig in s.cache && s.cache[sig] == first + 2 * WINDOW * SECOND && InWindow(sig, first)
    ensures Accepts(s.cache, sig, again) <==>
              && again >= first + 2 * WINDOW * SECOND && Unix(again) == Unix(first) + 2 * WINDOW
              && sig.timestamp == Unix(first) + WINDOW && |Roomed(s.cache, again)| < MAX_SEEN
  {
    if again >= first + 2 * WINDOW * SECOND {
      assert Unix(again) >= Unix(first) + 2 * WINDOW;
    }
  }

  function Sig(i: nat): (sig: Signature)
    ensures |sig.id| == i && sig.timestamp == 0
  {
    Signature(seq(i, _ => 0), 0)
  }

  /** The cache after `n` calls with readings and timestamps at 0. */
  ghost function Crowd(n: nat): (c: Cache)
    ensures |c| == n && forall k :: k in c ==> |k.id| < n && c[k] == 2 * WINDOW * SECOND
    ensures n > 0 ==> Sig(0) in c
  {
    if n == 0 then map[]
    else
      assert Sig(n - 1) !in Crowd(n - 1);
      assert Crowd(n - 1)[Sig(n - 1) := 2 * WINDOW * SECOND].Keys == Crowd(n - 1).Keys + {Sig(n - 1)};
      Crowd(n - 1)[Sig(n - 1) := 2 * WINDOW * SECOND]
  }

  ghost function Rush(n: nat): seq<Call> {
    seq(n, i requires 0 <= i => Call(Sig(i), 0))
  }

  const START := Server(map[], 0, None)

  lemma {:induction false} RunAppend(s: Server, a: seq<Call>, b: seq<Call>)
    ensures Run(s, a + b) == Run(Run(s, a), b)
    decreases |a|
  {
    if a == [] {
      assert a + b == b;
    } else {
      assert (a + b)[1..] == a[1..] + b;
      RunAppend(Next(s, a[0]), a[1..], b);
    }
  }

  lemma RunFew(s: Server, c: Call)
    ensures Run(s, [c]) == Next(s, c) && Run(s, Rush(0)) == s
  {
    assert Run(s, [c]) == Run(Next(s, c), []);
  }

  lemma RushSteps(s: Server, n: nat)
    requires n < MAX_SEEN && s.cache == Crowd(n)
    ensures Next(s, Call(Sig(n), 0)).cache == Crowd(n + 1)
  {
    hide Sig;
    assert Sig(n) !in Crowd(n);
  }

  lemma {:induction false} RushFills(n: nat)
    requires n <= MAX_SEEN
    ensures Run(START, Rush(n)).cache == Crowd(n)
  {
    hide Next, Sig, Run;
    if n == 0 {
      RunFew(START, Call(Sig(0), 0));
    } else {
      var c := Call(Sig(n - 1), 0);
      assert Rush(n) == Rush(n - 1) + [c];
      RushFills(n - 1);
      RunAppend(START, Rush(n - 1), [c]);
      RunFew(Run(START, Rush(n - 1)), c);
      RushSteps(Run(START, Rush(n - 1)), n - 1);
    }
  }

  /** A call after all the others expired. */
  const AFTER := Call(Signature(seq(MAX_SEEN, _ => 0), 2 * WINDOW), 2 * WINDOW * SECOND)

  /** After a rush and a sweep, the first signature, not ahead at all, is accepted again with its handler's old reading. */
  lemma LateReadingReplays()
    ensures Accepts(START.cache, Sig(0), 0) && Rush(MAX_SEEN)[0] == Call(Sig(0), 0)
    ensures Accepts(Run(START, Rush(MAX_SEEN) + [AFTER]).cache, Sig(0), 0)
  {
    hide Run, Crowd, Sig;
    var s := Run(START, Rush(MAX_SEEN));
    RushFills(MAX_SEEN);
    RunAppend(START, Rush(MAX_SEEN), [AFTER]);
    RunFew(s, AFTER);
    SweepsAll(s.cache);
  }

  lemma SweepsAll(c: Cache)
    requires |c| == MAX_SEEN && forall k :: k in c ==> |k.id| < MAX_SEEN && c[k] == 2 * WINDOW * SECOND
    ensures InWindow(AFTER.sig, AFTER.at) && Used(c, AFTER.sig, AFTER.at) == map[AFTER.sig := 4 * WINDOW * SECOND]
  {
    assert Swept(c, AFTER.at) == map[];
    assert |AFTER.sig.id| == MAX_SEEN;
  }
}
