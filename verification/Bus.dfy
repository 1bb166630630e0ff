/**
 The coordinator's signal bus. A signal goes to the recipient's subscribers; if there
 are none it is held for a while and handed over when the recipient subscribes.

 Each critical section is one method, so any interleaving of calls is a sequence of
 these methods: `SendSignal` gives up its read lock before it takes the write lock, and
 is the two methods `SendUnderReadLock` and `SendUnderWriteLock`.
 */
module Bus {
  import opened Wrappers
  import opened Collections

  /** Times are in nanoseconds. */
  const SIGNAL_TTL := 30_000_000_000
  const MAX_PER_PEER := 16
  const MAX_RECIPIENTS := 4096
  const CHANNEL_CAP := 64

  type Peer = string

  datatype Signal = Signal(from: Peer, to: Peer, payload: seq<int>)

  datatype Pending = Pending(msg: Signal, at: int)

  type Queue = seq<Pending>

  // ----- Held queues

  predicate Alive(p: Pending, now: int) {
    p.at > now - SIGNAL_TTL
  }

  function Unexpired(q: Queue, now: int): Queue {
    if q == [] then [] else (if Alive(q[0], now) then [q[0]] else []) + Unexpired(q[1..], now)
  }

  function Messages(q: Queue): (s: seq<Signal>)
    ensures |s| == |q| && forall i :: 0 <= i < |q| ==> s[i] == q[i].msg
  {
    seq(|q|, i requires 0 <= i < |q| => q[i].msg)
  }

  lemma UnexpiredEmpty(now: int)
    ensures Unexpired([], now) == []
  {}

  lemma UnexpiredStep(q: Queue, i: nat, now: int)
    requires i < |q|
    ensures Unexpired(q[i..], now) == (if Alive(q[i], now) then [q[i]] else []) + Unexpired(q[i + 1..], now)
  {
    assert q[i..][1..] == q[i + 1..];
  }

  lemma MessagesStep(q: Queue, p: Pending)
    ensures Messages(q + [p]) == Messages(q) + [p.msg] && Messages([]) == []
  {}

  function Last(q: Queue, n: nat): Queue {
    if |q| > n then q[|q| - n..] else q
  }

  function Enqueue(q: Queue, p: Pending): Queue {
    Last(Unexpired(q, p.at) + [p], MAX_PER_PEER)
  }

  ghost predicate TimeOrdered(q: Queue) {
    forall i, j :: 0 <= i < j < |q| ==> q[i].at <= q[j].at
  }

  ghost predicate QueueOk(q: Queue, now: int) {
    && 0 < |q| <= MAX_PER_PEER && TimeOrdered(q)
    && forall i :: 0 <= i < |q| ==> q[i].at <= now
  }

  /** In a time-ordered queue the unexpired signals are its end. */
  lemma {:induction false} UnexpiredIsEnd(q: Queue, now: int) returns (i: nat)
    requires TimeOrdered(q)
    ensures i <= |q| && Unexpired(q, now) == q[i..]
    ensures (forall j :: 0 <= j < i ==> !Alive(q[j], now)) && (forall j :: i <= j < |q| ==> Alive(q[j], now))
  {
    if q == [] {
      i := 0;
    } else {
      i := UnexpiredIsEnd(q[1..], now);
      if Alive(q[0], now) {
        assert i == 0 || !Alive(q[1..][0], now);
        assert q == [q[0]] + q[1..];
        i := 0;
      } else {
        assert q[1..][i..] == q[i + 1..];
        i := i + 1;
      }
    }
  }

  lemma EndOrdered(q: Queue, i: nat)
    requires TimeOrdered(q) && i <= |q|
    ensures TimeOrdered(q[i..])
  {}

  lemma EnqueueOk(q: Queue, p: Pending, before: int)
    requires q == [] || QueueOk(q, before)
    requires before <= p.at
    ensures QueueOk(Enqueue(q, p), p.at)
  {
    hide Unexpired;
    var i := UnexpiredIsEnd(q, p.at);
    var all := q[i..] + [p];
    EndOrdered(q, i);
    assert TimeOrdered(all);
    EndOrdered(all, if |all| > MAX_PER_PEER then |all| - MAX_PER_PEER else 0);
  }

  // ----- All held signals

  type Held = map<Peer, Queue>

  /** Recipients whose newest signal has expired are forgotten. */
  predicate AllExpired(q: Queue, now: int) {
    |q| == 0 || !Alive(q[|q| - 1], now)
  }

  ghost function Swept(h: Held, now: int): Held {
    map id | id in h && !AllExpired(h[id], now) :: h[id]
  }

  ghost function QueueOf(h: Held, to: Peer): Queue {
    if to in h then h[to] else []
  }

  /** The held signals after one more is held. At the recipient limit a new recipient needs expired ones to make room. */
  ghost function Holding(h: Held, p: Pending): Held {
    var to := p.msg.to;
    if to !in h && |h| >= MAX_RECIPIENTS then
      if |Swept(h, p.at)| >= MAX_RECIPIENTS then Swept(h, p.at)
      else Swept(h, p.at)[to := Enqueue([], p)]
    else h[to := Enqueue(QueueOf(h, to), p)]
  }

  ghost predicate HeldOk(h: Held, now: int) {
    |h| <= MAX_RECIPIENTS && forall id :: id in h ==> QueueOk(h[id], now)
  }

  lemma SweptOk(h: Held, before: int, now: int)
    requires HeldOk(h, before) && before <= now
    ensures HeldOk(Swept(h, now), now)
  {
    SubsetSize(Swept(h, now).Keys, h.Keys);
    assert |Swept(h, now)| == |Swept(h, now).Keys| && |h| == |h.Keys|;
  }

  lemma AddSize(h: Held, to: Peer, q: Queue)
    ensures |h[to := q]| == |h| + (if to in h then 0 else 1)
  {
    assert h[to := q].Keys == h.Keys + {to};
    assert |h| == |h.Keys| && |h[to := q]| == |h[to := q].Keys|;
  }

  lemma HoldingOk(h: Held, p: Pending, before: int)
    requires HeldOk(h, before) && before <= p.at
    ensures HeldOk(Holding(h, p), p.at)
  {
    hide Enqueue;
    var to := p.msg.to;
    SweptOk(h, before, p.at);
    EnqueueOk([], p, before);
    EnqueueOk(QueueOf(h, to), p, before);
    AddSize(h, to, Enqueue(QueueOf(h, to), p));
    AddSize(Swept(h, p.at), to, Enqueue([], p));
  }

  // ----- Channels

  class Chan {
    var buf: seq<Signal>
    var closed: bool

    constructor ()
      ensures buf == [] && !closed
    {
      buf, closed := [], false;
    }

    /** A send that must not block and must not hit a closed channel. */
    method Send(msg: Signal)
      requires !closed && |buf| < CHANNEL_CAP
      modifies this`buf
      ensures buf == old(buf) + [msg]
    {
      buf := buf + [msg];
    }

    /** A send that drops the message if the channel is full. */
    method TrySend(msg: Signal)
      requires !closed && |buf| <= CHANNEL_CAP
      modifies this`buf
      ensures buf == if |old(buf)| < CHANNEL_CAP then old(buf) + [msg] else old(buf)
    {
      if |buf| < CHANNEL_CAP {
        Send(msg);
      }
    }

    method Close()
      requires !closed
      modifies this`closed
      ensures closed
    {
      closed := true;
    }
  }

  // ----- The bus

  function Subs(signals: map<Peer, seq<Chan>>, p: Peer): seq<Chan> {
    if p in signals then signals[p] else []
  }

  /** The channels of one recipient: pairwise different, and all its own. */
  ghost predicate OwnList(list: seq<Chan>, owner: map<Chan, Peer>, p: Peer) {
    Distinct(list) && forall i :: 0 <= i < |list| ==> list[i] in owner && owner[list[i]] == p
  }

  /** `owner` tells for every subscribed channel whose it is, so none is listed twice. */
  ghost predicate Owned(signals: map<Peer, seq<Chan>>, owner: map<Chan, Peer>) {
    forall p :: p in signals ==> OwnList(signals[p], owner, p)
  }

  /** A recipient with a subscriber has no held signals. */
  ghost predicate NoneHeld(signals: map<Peer, seq<Chan>>, pending: Held) {
    forall p :: p in signals && signals[p] != [] ==> p !in pending
  }

  lemma OwnedAdd(signals: map<Peer, seq<Chan>>, owner: map<Chan, Peer>, p: Peer, c: Chan)
    requires Owned(signals, owner) && c !in owner
    ensures Owned(signals[p := Subs(signals, p) + [c]], owner[c := p])
  {
    var after := signals[p := Subs(signals, p) + [c]];
    forall q | q in after ensures OwnList(after[q], owner[c := p], q) {
      assert q in signals ==> OwnList(signals[q], owner, q);
    }
  }

  lemma OwnedRemove(signals: map<Peer, seq<Chan>>, owner: map<Chan, Peer>, p: Peer, i: nat)
    requires Owned(signals, owner) && p in signals && i < |signals[p]|
    ensures signals[p][i] in owner
    ensures Owned(signals[p := signals[p][..i] + signals[p][i + 1..]], owner - {signals[p][i]})
  {
    var c := signals[p][i];
    assert OwnList(signals[p], owner, p);
    var after := signals[p := signals[p][..i] + signals[p][i + 1..]];
    forall q | q in after ensures OwnList(after[q], owner - {c}, q) {
      assert OwnList(signals[q], owner, q);
    }
  }

  lemma RemoveHeldOk(h: Held, p: Peer, before: int, now: int)
    requires HeldOk(h, before) && before <= now
    ensures HeldOk(h - {p}, now) && p !in h - {p}
  {
    SubsetSize((h - {p}).Keys, h.Keys);
    assert |h - {p}| == |(h - {p}).Keys| && |h| == |h.Keys|;
  }

  lemma NoneHeldAfter(signals: map<Peer, seq<Chan>>, pending: Held, p: Peer, list: seq<Chan>)
    requires NoneHeld(signals, pending)
    ensures NoneHeld(signals[p := list], pending - {p}) && NoneHeld(signals, pending - {p})
  {}

  lemma NoneHeldFewer(signals: map<Peer, seq<Chan>>, pending: Held, p: Peer, list: seq<Chan>)
    requires NoneHeld(signals, pending) && Subs(signals, p) != []
    ensures NoneHeld(signals[p := list], pending)
  {}

  /** Holding for a recipient without subscribers keeps the rule. */
  lemma NoneHeldHolding(signals: map<Peer, seq<Chan>>, pending: Held, p: Pending)
    requires NoneHeld(signals, pending) && Subs(signals, p.msg.to) == []
    ensures NoneHeld(signals, Holding(pending, p))
  {}

  lemma QueueBound(h: Held, p: Peer, now: int)
    requires HeldOk(h, now)
    ensures |QueueOf(h, p)| <= MAX_PER_PEER
  {}

  // ----- The bus as a value

  /** How many channels each recipient has, what is held, and the time of the latest critical section. */
  datatype State = State(counts: map<Peer, nat>, pending: Held, now: int)

  /** `Send` is the second half of sending, `Offer` the first, which holds nothing. */
  datatype Event =
    | Subscribe(peer: Peer, at: int)
    | Unsubscribe(peer: Peer)
    | Offer(msg: Signal)
    | Send(msg: Signal, at: int)
    | Drop(peer: Peer)

  function Count(s: State, p: Peer): nat {
    if p in s.counts then s.counts[p] else 0
  }

  ghost function Next(s: State, e: Event): State {
    match e
    case Subscribe(p, at) => State(s.counts[p := Count(s, p) + 1], s.pending - {p}, at)
    case Unsubscribe(p) => if Count(s, p) == 0 then s else s.(counts := s.counts[p := Count(s, p) - 1])
    case Offer(_) => s
    case Send(msg, at) =>
      State(s.counts, if Count(s, msg.to) == 0 then Holding(s.pending, Pending(msg, at)) else s.pending, at)
    case Drop(p) => s.(pending := s.pending - {p})
  }

  ghost function Counts(signals: map<Peer, seq<Chan>>): map<Peer, nat> {
    map p | p in signals :: |signals[p]|
  }

  lemma CountsUpdate(signals: map<Peer, seq<Chan>>, p: Peer, list: seq<Chan>)
    ensures Counts(signals[p := list]) == Counts(signals)[p := |list|]
    ensures p in Counts(signals) <==> p in signals
    ensures p in signals ==> Counts(signals)[p] == |signals[p]|
  {}

  class Bus {
    var signals: map<Peer, seq<Chan>>
    var pending: Held
    /** The time of the latest critical section, and whose each subscribed channel is. */
    ghost var now: int
    ghost var owner: map<Chan, Peer>

    ghost predicate Valid()
      reads this, owner.Keys
    {
      && HeldOk(pending, now)
      && NoneHeld(signals, pending)
      && Owned(signals, owner)
      && forall c :: c in owner ==> !c.closed && |c.buf| <= CHANNEL_CAP
    }

    ghost function Value(): State
      reads this
    {
      State(Counts(signals), pending, now)
    }

    constructor (start: int)
      ensures Valid() && Value() == State(map[], map[], start) && signals == map[]
    {
      signals, pending, now, owner := map[], map[], start, map[];
    }

    /** A channel filled with held signals before anyone else can see it. */
    static method Filled(held: Queue, at: int) returns (ch: Chan)
      requires |held| <= MAX_PER_PEER
      ensures fresh(ch) && !ch.closed && ch.buf == Messages(Unexpired(held, at)) && |ch.buf| <= CHANNEL_CAP
    {
      hide Unexpired, Messages;
      ch := new Chan();
      ghost var sent: Queue := [];
      for i := 0 to |held|
        invariant |sent| <= i && !ch.closed && ch.buf == Messages(sent)
        invariant sent + Unexpired(held[i..], at) == Unexpired(held, at)
      {
        UnexpiredStep(held, i, at);
        MessagesStep(sent, held[i]);
        if Alive(held[i], at) {
          ch.Send(held[i].msg);
          sent := sent + [held[i]];
        }
      }
      UnexpiredEmpty(at);
      assert held[|held|..] == [] && sent == Unexpired(held, at);
    }

    /** Hands over what is held and unexpired, in order, before the channel is published; the sends cannot block. */
    method SubscribeSignals(p: Peer, at: int) returns (ch: Chan)
      requires Valid() && now <= at
      modifies this
      ensures Valid() && now == at && fresh(ch)
      ensures ch.buf == Messages(Unexpired(QueueOf(old(pending), p), at))
      ensures pending == old(pending) - {p}
      ensures signals == old(signals)[p := Subs(old(signals), p) + [ch]]
      ensures owner == old(owner)[ch := p]
      ensures Value() == Next(old(Value()), Subscribe(p, at))
    {
      hide Owned, HeldOk, NoneHeld, Messages, Unexpired, Counts, Count;
      var held := if p in pending then pending[p] else [];
      QueueBound(pending, p, now);
      ch := Filled(held, at);
      Publish(p, ch, at);
    }

    method Publish(p: Peer, ch: Chan, ghost at: int)
      requires Valid() && now <= at && ch !in owner && !ch.closed && |ch.buf| <= CHANNEL_CAP
      modifies this
      ensures Valid() && pending == old(pending) - {p}
      ensures signals == old(signals)[p := Subs(old(signals), p) + [ch]]
      ensures owner == old(owner)[ch := p]
      ensures Value() == Next(old(Value()), Subscribe(p, at))
    {
      hide Owned, HeldOk, NoneHeld, Counts;
      RemoveHeldOk(pending, p, now, at);
      OwnedAdd(signals, owner, p, ch);
      NoneHeldAfter(signals, pending, p, Subs(signals, p) + [ch]);
      CountsUpdate(signals, p, Subs(signals, p) + [ch]);
      pending := pending - {p};
      signals := signals[p := Subs(signals, p) + [ch]];
      now, owner := at, owner[ch := p];
    }

    /** Removes and closes one subscriber channel; any other channel is ignored. */
    method UnsubscribeSignals(p: Peer, ch: Chan)
      requires Valid()
      modifies this`signals, this`owner, ch`closed
      ensures Valid()
      ensures ch !in Subs(old(signals), p) ==> unchanged(this) && unchanged(ch)
      ensures Value() == if ch in Subs(old(signals), p) then Next(old(Value()), Unsubscribe(p)) else old(Value())
      ensures ch in Subs(old(signals), p) ==>
                && ch.closed && owner == old(owner) - {ch}
                && exists i :: 0 <= i < |old(signals)[p]| && old(signals)[p][i] == ch &&
                     signals == old(signals)[p := old(signals)[p][..i] + old(signals)[p][i + 1..]]
    {
      hide Owned, HeldOk, NoneHeld, Counts;
      var sigs := Subs(signals, p);
      for i := 0 to |sigs|
        invariant forall j :: 0 <= j < i ==> sigs[j] != ch
      {
        if sigs[i] == ch {
          OwnedRemove(signals, owner, p, i);
          NoneHeldFewer(signals, pending, p, sigs[..i] + sigs[i + 1..]);
          CountsUpdate(signals, p, sigs[..i] + sigs[i + 1..]);
          signals := signals[p := sigs[..i] + sigs[i + 1..]];
          ch.Close();
          owner := owner - {ch};
          return;
        }
      }
    }

    /** Offers a signal to every channel, in turn; full channels miss it. */
    static method Deliver(chans: seq<Chan>, msg: Signal)
      requires Distinct(chans)
      requires forall i :: 0 <= i < |chans| ==> !chans[i].closed && |chans[i].buf| <= CHANNEL_CAP
      modifies chans`buf
      ensures forall i :: 0 <= i < |chans| ==>
                chans[i].buf == if |old(chans[i].buf)| < CHANNEL_CAP then old(chans[i].buf) + [msg] else old(chans[i].buf)
    {
      for k := 0 to |chans|
        invariant forall i :: 0 <= i < k ==>
            chans[i].buf == if |old(chans[i].buf)| < CHANNEL_CAP then old(chans[i].buf) + [msg] else old(chans[i].buf)
        invariant forall i :: k <= i < |chans| ==> chans[i].buf == old(chans[i].buf)
      {
        chans[k].TrySend(msg);
      }
    }

    /** First half of sending: under the read lock, to the subscribers there are. `none` tells there are none. */
    method SendUnderReadLock(msg: Signal) returns (none: bool)
      requires Valid()
      modifies owner.Keys`buf
      ensures Valid() && Value() == Next(old(Value()), Offer(msg))
      ensures none <==> Subs(signals, msg.to) == []
      ensures forall c :: c in owner ==>
                c.buf == if c in Subs(signals, msg.to) && |old(c.buf)| < CHANNEL_CAP
                         then old(c.buf) + [msg] else old(c.buf)
    {
      hide HeldOk, NoneHeld, Owned;
      var sigs := Subs(signals, msg.to);
      if |sigs| == 0 {
        return true;
      }
      ListOwned(signals, owner, msg.to);
      Deliver(sigs, msg);
      return false;
    }

    /**
     Second half, under the write lock: a subscriber may have appeared meanwhile, so it is
     looked for again before the signal is held.
     */
    method SendUnderWriteLock(msg: Signal, at: int)
      requires Valid() && now <= at
      modifies this`pending, this`now, owner.Keys`buf
      ensures Valid() && now == at && Value() == Next(old(Value()), Send(msg, at))
      ensures pending == if Subs(signals, msg.to) == [] then Holding(old(pending), Pending(msg, at)) else old(pending)
      ensures forall c :: c in owner ==>
                c.buf == if c in Subs(signals, msg.to) && |old(c.buf)| < CHANNEL_CAP
                         then old(c.buf) + [msg] else old(c.buf)
    {
      hide HeldOk, NoneHeld, Owned, Holding;
      var sigs := Subs(signals, msg.to);
      if |sigs| == 0 {
        HoldingOk(pending, Pending(msg, at), now);
        NoneHeldHolding(signals, pending, Pending(msg, at));
        Hold(msg, at);
        now := at;
      } else {
        var none := SendUnderReadLock(msg);
        HeldLater(pending, now, at);
        now := at;
      }
    }

    /** Forgets recipients whose signals have all expired. */
    method Sweep(at: int)
      modifies this`pending
      ensures pending == Swept(old(pending), at)
    {
      var all := pending;
      var todo := all.Keys;
      while todo != {}
        invariant todo <= all.Keys
        invariant forall id :: id in pending <==> id in all && (id in todo || !AllExpired(all[id], at))
        invariant forall id :: id in pending ==> pending[id] == all[id]
        decreases todo
      {
        var id :| id in todo;
        todo := todo - {id};
        if AllExpired(all[id], at) {
          pending := pending - {id};
        }
      }
    }

    /** Queues a signal for a recipient, dropping expired ones and all but the newest sixteen. */
    method Hold(msg: Signal, at: int)
      modifies this`pending
      ensures pending == Holding(old(pending), Pending(msg, at))
    {
      hide Enqueue;
      if msg.to !in pending && |pending| >= MAX_RECIPIENTS {
        Sweep(at);
        if |pending| >= MAX_RECIPIENTS {
          return;
        }
      }
      var queue := if msg.to in pending then pending[msg.to] else [];
      var held := Requeue(queue, Pending(msg, at));
      pending := pending[msg.to := held];
    }

    static method Requeue(queue: Queue, p: Pending) returns (held: Queue)
      ensures held == Enqueue(queue, p)
    {
      hide Unexpired;
      held := [];
      for i := 0 to |queue|
        invariant held + Unexpired(queue[i..], p.at) == Unexpired(queue, p.at)
      {
        UnexpiredStep(queue, i, p.at);
        if Alive(queue[i], p.at) {
          held := held + [queue[i]];
        }
      }
      UnexpiredEmpty(p.at);
      assert queue[|queue|..] == [];
      held := held + [p];
      if |held| > MAX_PER_PEER {
        held := held[|held| - MAX_PER_PEER..];
      }
    }

    /** A subscriber takes the next signal out of its channel. */
    method Receive(ch: Chan) returns (msg: Option<Signal>)
      requires Valid() && ch in owner
      modifies ch`buf
      ensures Valid()
      ensures old(ch.buf) == [] ==> msg.None? && ch.buf == []
      ensures old(ch.buf) != [] ==> msg == Some(old(ch.buf)[0]) && ch.buf == old(ch.buf)[1..]
    {
      if ch.buf == [] {
        return None;
      }
      msg := Some(ch.buf[0]);
      ch.buf := ch.buf[1..];
    }

    method DropPendingSignals(p: Peer)
      requires Valid()
      modifies this`pending
      ensures Valid() && pending == old(pending) - {p} && Value() == Next(old(Value()), Drop(p))
    {
      hide HeldOk, NoneHeld, Owned;
      RemoveHeldOk(pending, p, now, now);
      NoneHeldAfter(signals, pending, p, []);
      pending := pending - {p};
    }
  }

  lemma ListOwned(signals: map<Peer, seq<Chan>>, owner: map<Chan, Peer>, p: Peer)
    requires Owned(signals, owner)
    ensures OwnList(Subs(signals, p), owner, p)
  {}

  lemma HeldLater(h: Held, before: int, now: int)
    requires HeldOk(h, before) && before <= now
    ensures HeldOk(h, now)
  {}

  // ----- What a recipient gets: the newest sixteen unexpired signals

  /** What can happen to one recipient's queue between two clearings. */
  datatype QueueStep = Hold(msg: Signal, at: int) | Sweep(at: int)

  function NextQueue(q: Queue, s: QueueStep): Queue {
    match s
    case Hold(msg, at) => Enqueue(q, Pending(msg, at))
    case Sweep(at) => if AllExpired(q, at) then [] else q
  }

  function RunQueue(q: Queue, steps: seq<QueueStep>): Queue
    decreases |steps|
  {
    if steps == [] then q else RunQueue(NextQueue(q, steps[0]), steps[1..])
  }

  /** Everything that was held, in order. */
  function Log(steps: seq<QueueStep>): Queue {
    if steps == [] then []
    else (if steps[0].Hold? then [Pending(steps[0].msg, steps[0].at)] else []) + Log(steps[1..])
  }

  ghost predicate Ordered(steps: seq<QueueStep>, from: int) {
    steps != [] ==> from <= steps[0].at && Ordered(steps[1..], steps[0].at)
  }

  function EndTime(steps: seq<QueueStep>, from: int): int
    decreases |steps|
  {
    if steps == [] then from else EndTime(steps[1..], steps[0].at)
  }

  lemma {:induction false} UnexpiredAppend(a: Queue, b: Queue, now: int)
    ensures Unexpired(a + b, now) == Unexpired(a, now) + Unexpired(b, now)
  {
    if a == [] {
      assert a + b == b;
    } else {
      hide Alive;
      assert (a + b)[0] == a[0] && (a + b)[1..] == a[1..] + b;
      UnexpiredAppend(a[1..], b, now);
      var head := if Alive(a[0], now) then [a[0]] else [];
      assert Unexpired(a + b, now) == head + (Unexpired(a[1..], now) + Unexpired(b, now));
    }
  }

  lemma {:induction false} UnexpiredLater(q: Queue, now: int, later: int)
    requires now <= later
    ensures Unexpired(Unexpired(q, now), later) == Unexpired(q, later)
  {
    if q != [] {
      UnexpiredLater(q[1..], now, later);
      UnexpiredAppend(if Alive(q[0], now) then [q[0]] else [], Unexpired(q[1..], now), later);
    }
  }

  lemma UnexpiredOfLast(q: Queue, n: nat, now: int)
    requires TimeOrdered(q)
    ensures Unexpired(Last(q, n), now) == Last(Unexpired(q, now), n)
  {
    hide Unexpired;
    if |q| > n {
      var i := UnexpiredIsEnd(q, now);
      var cut := |q| - n;
      EndOrdered(q, cut);
      var j := UnexpiredIsEnd(q[cut..], now);
      assert q[cut..][j..] == q[cut + j..];
      if j > 0 {
        assert q[cut..][j - 1] == q[cut + j - 1];
      }
      if j < n {
        assert q[cut..][j] == q[cut + j];
      }
    } else {
      var i := UnexpiredIsEnd(q, now);
    }
  }

  lemma LastAppend(a: Queue, b: Queue, n: nat)
    ensures Last(Last(a, n) + b, n) == Last(a + b, n)
  {}

  /** The queue tells, at every later moment, the same as the newest sixteen of the whole log. */
  ghost predicate Tells(q: Queue, log: Queue, now: int) {
    && TimeOrdered(q) && |q| <= MAX_PER_PEER && (forall i :: 0 <= i < |q| ==> q[i].at <= now)
    && TimeOrdered(log) && (forall i :: 0 <= i < |log| ==> log[i].at <= now)
    && forall t {:trigger Unexpired(q, t)} :: t >= now ==> Unexpired(q, t) == Last(Unexpired(log, t), MAX_PER_PEER)
  }

  lemma HoldTells(q: Queue, log: Queue, now: int, p: Pending)
    requires Tells(q, log, now) && now <= p.at
    ensures Tells(Enqueue(q, p), log + [p], p.at)
  {
    hide Unexpired, Last;
    if q != [] {
      EnqueueOk(q, p, now);
    } else {
      EnqueueOk([], p, now);
    }
    forall t | t >= p.at ensures Unexpired(Enqueue(q, p), t) == Last(Unexpired(log + [p], t), MAX_PER_PEER) {
      var fresh_ := Unexpired(q, p.at) + [p];
      assert TimeOrdered(fresh_) by {
        var i := UnexpiredIsEnd(q, p.at);
        EndOrdered(q, i);
      }
      UnexpiredOfLast(fresh_, MAX_PER_PEER, t);
      UnexpiredAppend(Unexpired(q, p.at), [p], t);
      UnexpiredLater(q, p.at, t);
      UnexpiredAppend(log, [p], t);
      LastAppend(Unexpired(log, t), Unexpired([p], t), MAX_PER_PEER);
    }
  }

  lemma SweepTells(q: Queue, log: Queue, now: int, at: int)
    requires Tells(q, log, now) && now <= at
    ensures Tells(NextQueue(q, Sweep(at)), log, at)
  {
    hide Last;
    forall t | t >= at ensures Unexpired(NextQueue(q, Sweep(at)), t) == Unexpired(q, t) {
      if AllExpired(q, at) {
        var i := UnexpiredIsEnd(q, t);
        assert i == |q|;
      }
    }
  }

  lemma {:induction false} RunTells(q: Queue, log: Queue, steps: seq<QueueStep>, now: int)
    requires Tells(q, log, now) && Ordered(steps, now)
    ensures Tells(RunQueue(q, steps), log + Log(steps), EndTime(steps, now))
    decreases |steps|
  {
    hide Tells, Enqueue;
    if steps == [] {
      assert log + Log(steps) == log;
    } else {
      match steps[0]
      case Hold(msg, at) =>
        var p := Pending(msg, at);
        HoldTells(q, log, now, p);
        RunTells(NextQueue(q, steps[0]), log + [p], steps[1..], at);
        assert log + [p] + Log(steps[1..]) == log + Log(steps);
      case Sweep(at) =>
        SweepTells(q, log, now, at);
        RunTells(NextQueue(q, steps[0]), log, steps[1..], at);
        assert Log(steps) == Log(steps[1..]);
    }
  }

  /**
   Whatever was held, dropped for age or number, or swept since the queue was empty: a
   recipient that subscribes at time `t` is handed exactly the newest sixteen, or all if
   fewer, of the signals held for it that are less than 30 seconds old at `t`.
   */
  lemma SubscriberGetsNewestUnexpired(steps: seq<QueueStep>, from: int, t: int)
    requires Ordered(steps, from) && EndTime(steps, from) <= t
    ensures exists m: nat :: NewestFrom(Log(steps), m, t) && Unexpired(RunQueue([], steps), t) == Log(steps)[m..]
  {
    hide Unexpired;
    TellsNothing(from);
    RunTells([], [], steps, from);
    var log := Log(steps);
    assert [] + log == log;
    EndIsNewest(log, t);
  }

  /** The last sixteen of what is unexpired are the newest. */
  lemma EndIsNewest(log: Queue, t: int)
    requires TimeOrdered(log)
    ensures exists m: nat :: NewestFrom(log, m, t) && Last(Unexpired(log, t), MAX_PER_PEER) == log[m..]
  {
    hide Unexpired;
    var m := UnexpiredIsEnd(log, t);
    var k := if |log| - m > MAX_PER_PEER then |log| - MAX_PER_PEER else m;
    assert Last(log[m..], MAX_PER_PEER) == log[k..];
    assert NewestFrom(log, k, t);
  }

  /**
   From position `m` on the list holds at most sixteen signals, all less than 30 seconds old,
   and the one before is older than that or the seventeenth.
   */
  ghost predicate NewestFrom(log: Queue, m: nat, t: int) {
    && m <= |log| && |log| - m <= 16
    && (forall j :: m <= j < |log| ==> t - log[j].at < 30_000_000_000)
    && (m > 0 ==> |log| - m == 16 || t - log[m - 1].at >= 30_000_000_000)
  }

  /** Each recipient's queue changes, when a signal is held for anyone, by these steps only. */
  lemma HoldingIsQueueStep(h: Held, p: Pending, r: Peer)
    ensures var before, after := QueueOf(h, r), QueueOf(Holding(h, p), r);
            if r == p.msg.to then
              after == NextQueue(before, Hold(p.msg, p.at)) || (r !in h && |h| >= MAX_RECIPIENTS && after == [])
            else after == before || after == NextQueue(before, Sweep(p.at))
  {}

  // ----- Runs of the whole bus

  /** The signal is for a new recipient while too many others are waiting. */
  ghost predicate Refused(h: Held, p: Pending) {
    p.msg.to !in h && |h| >= MAX_RECIPIENTS && |Swept(h, p.at)| >= MAX_RECIPIENTS
  }

  function At(e: Event, before: int): int {
    if e.Subscribe? || e.Send? then e.at else before
  }

  ghost function StateAt(start: int, events: seq<Event>, i: nat): State
    requires i <= |events|
  {
    if i == 0 then State(map[], map[], start) else Next(StateAt(start, events, i - 1), events[i - 1])
  }

  ghost predicate Clocked(start: int, events: seq<Event>) {
    forall i :: 0 <= i < |events| ==> StateAt(start, events, i).now <= At(events[i], StateAt(start, events, i).now)
  }

  /** The channels `r` has open after the first `i` events, as the events tell. */
  ghost function OpenAt(events: seq<Event>, i: nat, r: Peer): nat
    requires i <= |events|
  {
    if i == 0 then 0
    else
      var before := OpenAt(events, i - 1, r);
      match events[i - 1]
      case Subscribe(p, _) => if p == r then before + 1 else before
      case Unsubscribe(p) => if p == r && before > 0 then before - 1 else before
      case _ => before
  }

  lemma {:induction false} CountsOpen(start: int, events: seq<Event>, i: nat, r: Peer)
    requires i <= |events|
    ensures Count(StateAt(start, events, i), r) == OpenAt(events, i, r)
  {
    hide Holding;
    if i > 0 {
      CountsOpen(start, events, i - 1, r);
    }
  }

  /** Everything sent to `r` while it had no subscriber, and not refused, since it last subscribed or its signals were dropped. */
  ghost function LogAt(start: int, events: seq<Event>, i: nat, r: Peer): Queue
    requires i <= |events|
  {
    if i == 0 then [] else LogAfter(StateAt(start, events, i - 1), events[i - 1], r, OpenAt(events, i - 1, r), LogAt(start, events, i - 1, r))
  }

  ghost function LogAfter(s: State, e: Event, r: Peer, channels: nat, log: Queue): Queue {
    match e
    case Subscribe(p, _) => if p == r then [] else log
    case Drop(p) => if p == r then [] else log
    case Send(msg, at) =>
      if msg.to == r && channels == 0 && !Refused(s.pending, Pending(msg, at)) then log + [Pending(msg, at)] else log
    case _ => log
  }

  lemma TellsLater(q: Queue, log: Queue, now: int, at: int)
    requires Tells(q, log, now) && now <= at
    ensures Tells(q, log, at)
  {}

  lemma TellsNothing(now: int)
    ensures Tells([], [], now)
  {}

  lemma SendTells(s: State, msg: Signal, at: int, r: Peer, log: Queue)
    requires Tells(QueueOf(s.pending, r), log, s.now) && s.now <= at
    ensures Tells(QueueOf(Next(s, Send(msg, at)).pending, r), LogAfter(s, Send(msg, at), r, Count(s, r), log), at)
  {
    hide Tells, Enqueue, Log;
    var p := Pending(msg, at);
    var q := QueueOf(s.pending, r);
    TellsLater(q, log, s.now, at);
    SweepTells(q, log, s.now, at);
    HoldTells(q, log, s.now, p);
  }

  lemma StepTells(s: State, e: Event, r: Peer, log: Queue)
    requires Tells(QueueOf(s.pending, r), log, s.now) && s.now <= At(e, s.now)
    ensures Tells(QueueOf(Next(s, e).pending, r), LogAfter(s, e, r, Count(s, r), log), Next(s, e).now)
  {
    hide Tells, Holding, Refused;
    TellsNothing(At(e, s.now));
    TellsLater(QueueOf(s.pending, r), log, s.now, At(e, s.now));
    if e.Send? {
      SendTells(s, e.msg, e.at, r, log);
    }
  }

  lemma {:induction false} BusTells(start: int, events: seq<Event>, i: nat, r: Peer)
    requires Clocked(start, events) && i <= |events|
    ensures Tells(QueueOf(StateAt(start, events, i).pending, r), LogAt(start, events, i, r), StateAt(start, events, i).now)
  {
    hide Tells, Next, LogAfter;
    if i == 0 {
      TellsNothing(start);
    } else {
      BusTells(start, events, i - 1, r);
      CountsOpen(start, events, i - 1, r);
      StepTells(StateAt(start, events, i - 1), events[i - 1], r, LogAt(start, events, i - 1, r));
    }
  }

  /**
   Over every run of the bus, a recipient that subscribes at time `t` is handed exactly the
   newest sixteen, or all if fewer, of the unexpired signals sent to it since it last had a
   subscriber or its signals were dropped, less those refused for want of room.
   */
  lemma SubscriberGetsLog(start: int, events: seq<Event>, i: nat, r: Peer, t: int)
    requires Clocked(start, events) && i <= |events| && StateAt(start, events, i).now <= t
    ensures exists m: nat ::
              && NewestFrom(LogAt(start, events, i, r), m, t)
              && Messages(Unexpired(QueueOf(StateAt(start, events, i).pending, r), t)) == Messages(LogAt(start, events, i, r)[m..])
  {
    hide Unexpired, Messages;
    BusTells(start, events, i, r);
    EndIsNewest(LogAt(start, events, i, r), t);
  }

  /** Sweeping leaves as many recipients as before exactly if none has only expired signals. */
  lemma SweptAll(h: Held, now: int)
    ensures |Swept(h, now)| <= |h|
    ensures |Swept(h, now)| == |h| <==> forall id :: id in h ==> !AllExpired(h[id], now)
  {
    hide AllExpired;
    var d := Swept(h, now);
    assert |d| == |d.Keys| && |h| == |h.Keys|;
    if id :| id in h && AllExpired(h[id], now) {
      assert d.Keys <= h.Keys - {id};
      SubsetSize(d.Keys, h.Keys - {id});
    } else {
      assert d == h;
    }
  }

  /** A signal is refused exactly if it is for a new recipient while 4096 others each wait for a signal less than 30 seconds old. */
  lemma RefusedIff(h: Held, p: Pending, before: int)
    requires HeldOk(h, before)
    ensures Refused(h, p) <==>
              && p.msg.to !in h && |h| == 4096
              && forall id :: id in h ==> p.at - h[id][|h[id]| - 1].at < 30_000_000_000
  {
    hide TimeOrdered, Swept;
    SweptAll(h, p.at);
    assert forall id :: id in h ==> (AllExpired(h[id], p.at) <==> p.at - h[id][|h[id]| - 1].at >= 30_000_000_000);
  }
}
