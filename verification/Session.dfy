/**
 A transport session: the nonce counter of the sending side, and the receiving
 side's decryption, which checks the replay window, opens the packet without the
 lock, and checks the window again before recording the nonce.

 The cipher is ideal: a ciphertext is either the sealing of one plaintext under
 one key and nonce, or it opens under no key at all.
 */
module Session {
  import opened Wrappers
  import opened ReplayWindow

  const REKEY_THRESHOLD := 0x1_0000_0000
  const NONCE_SPACE := 0x1_0000_0000_0000_0000

  type Plain = seq<int>
  type Key = nat

  datatype Ciphertext = Sealed(key: Key, nonce: Nonce, plain: Plain) | Forged(bytes: seq<int>)

  function Open(key: Key, nonce: Nonce, ct: Ciphertext): (r: Option<Plain>)
    ensures r.Some? <==> ct.Sealed? && ct.key == key && ct.nonce == nonce
    ensures r.Some? ==> ct == Sealed(key, nonce, r.value)
  {
    if ct.Sealed? && ct.key == key && ct.nonce == nonce then Some(ct.plain) else None
  }

  /** What one undisturbed decryption answers, given the nonces accepted before. */
  ghost function Decrypted(key: Key, accepted: set<Nonce>, nonce: Nonce, ct: Ciphertext): Option<Plain> {
    if nonce < REKEY_THRESHOLD && Fresh(accepted, nonce) then Open(key, nonce, ct) else None
  }

  class Session {
    const key: Key
    var sendNonce: Nonce
    const window: Window

    ghost predicate Valid()
      reads this, window, window.bitmap
    {
      window.Valid()
    }

    constructor (key: Key)
      ensures Valid() && fresh(window) && fresh(window.bitmap)
      ensures this.key == key && sendNonce == 0 && window.accepted == {}
    {
      this.key, sendNonce := key, 0;
      window := new Window();
    }

    /** The counter is a 64-bit atomic add, so it wraps; past the threshold no packet is sealed. */
    method Encrypt(plain: Plain) returns (r: Option<(Nonce, Ciphertext)>)
      modifies this`sendNonce
      ensures sendNonce == (old(sendNonce) + 1) % NONCE_SPACE
      ensures r.Some? <==> old(sendNonce) < REKEY_THRESHOLD
      ensures r.Some? ==> r.value == (old(sendNonce), Sealed(key, old(sendNonce), plain))
    {
      var n := sendNonce;
      sendNonce := (sendNonce + 1) % NONCE_SPACE;
      if n >= REKEY_THRESHOLD {
        return None;
      }
      return Some((n, Sealed(key, n, plain)));
    }

    /** First critical section, and the opening done outside any lock. */
    method DecryptBegin(nonce: Nonce, ct: Ciphertext) returns (r: Option<Plain>)
      requires Valid()
      ensures r == Decrypted(key, window.accepted, nonce, ct)
    {
      if nonce >= REKEY_THRESHOLD {
        return None;
      }
      var ok := window.Check(nonce);
      if !ok {
        return None;
      }
      r := Open(key, nonce, ct);
    }

    /** Second critical section, for a packet that has been opened as `plain`. */
    method DecryptFinish(nonce: Nonce, plain: Plain) returns (r: Option<Plain>)
      requires Valid()
      modifies window, window.bitmap
      ensures Valid() && window.bitmap == old(window.bitmap)
      ensures r == (if Fresh(old(window.accepted), nonce) then Some(plain) else None)
      ensures window.accepted == Offer(old(window.accepted), nonce)
    {
      var ok := window.CheckAndMark(nonce);
      r := if ok then Some(plain) else None;
    }

    /** Both halves undisturbed. The program gives nil for `None` and for an empty plaintext alike. */
    method Decrypt(nonce: Nonce, ct: Ciphertext) returns (r: Option<Plain>)
      requires Valid()
      modifies window, window.bitmap
      ensures Valid() && window.bitmap == old(window.bitmap)
      ensures r == Decrypted(key, old(window.accepted), nonce, ct)
      ensures window.accepted == if r.Some? then old(window.accepted) + {nonce} else old(window.accepted)
    {
      var clear := DecryptBegin(nonce, ct);
      if clear.None? {
        return None;
      }
      r := DecryptFinish(nonce, clear.value);
    }
  }

  // ----- One direction of a session under concurrency and a hostile network

  /** A sealed packet, with the number of the `Encrypt` call that made it. */
  datatype Packet = Packet(nonce: Nonce, plain: Plain, call: nat)

  /**
   `calls` counts calls of `Encrypt`; `sent` holds what the successful ones sealed.
   `inFlight` holds the decryptions that are between their two critical sections.
   */
  datatype Channel = Channel(
    calls: nat,
    sent: seq<Packet>,
    accepted: set<Nonce>,
    inFlight: multiset<Packet>,
    delivered: seq<Packet>)

  /**
   `Arrive` is any packet reaching the receiver: the network may deliver a sent
   packet any number of times and in any order, or make one up. A packet that was
   never sent does not open.
   */
  datatype Step =
    | Encrypt(plain: Plain)
    | Arrive(packet: Packet)
    | Finish(packet: Packet)

  const EMPTY := Channel(0, [], {}, multiset{}, [])

  ghost function Next(c: Channel, step: Step): Channel {
    match step
    case Encrypt(plain) =>
      var n := c.calls % NONCE_SPACE;
      if n < REKEY_THRESHOLD then
        c.(calls := c.calls + 1, sent := c.sent + [Packet(n, plain, c.calls)])
      else
        c.(calls := c.calls + 1)
    case Arrive(packet) =>
      if packet.nonce < REKEY_THRESHOLD && Fresh(c.accepted, packet.nonce) && packet in c.sent
      then c.(inFlight := c.inFlight + multiset{packet})
      else c
    case Finish(packet) =>
      if packet in c.inFlight then
        var rest := c.(inFlight := c.inFlight - multiset{packet});
        if Fresh(c.accepted, packet.nonce) then
          rest.(accepted := c.accepted + {packet.nonce}, delivered := c.delivered + [packet])
        else rest
      else c
  }

  /**
   The steps do what the session's methods do: a sealed packet has the counter for nonce, a
   decryption of a sent packet goes on exactly if its first half opens it, and its second
   half offers the nonce to the window and delivers exactly if that takes it.
   */
  lemma StepsAreMethods(c: Channel, key: Key, plain: Plain, p: Packet)
    ensures var d := Next(c, Encrypt(plain));
            var n := c.calls % 0x1_0000_0000_0000_0000;
            d.sent == (if n < 0x1_0000_0000 then c.sent + [Packet(n, plain, c.calls)] else c.sent) && d.calls == c.calls + 1
    ensures p in c.sent ==>
              Next(c, Arrive(p)).inFlight ==
              if Decrypted(key, c.accepted, p.nonce, Sealed(key, p.nonce, p.plain)).Some? then c.inFlight + multiset{p} else c.inFlight
    ensures p in c.inFlight ==>
              var d := Next(c, Finish(p));
              && d.accepted == Offer(c.accepted, p.nonce) && d.inFlight == c.inFlight - multiset{p}
              && d.delivered == if Fresh(c.accepted, p.nonce) then c.delivered + [p] else c.delivered
  {}

  ghost function Run(c: Channel, steps: seq<Step>): Channel
    decreases |steps|
  {
    if steps == [] then c else Run(Next(c, steps[0]), steps[1..])
  }

  /** Call number `k` sealed a packet. */
  ghost predicate Sealing(c: Channel, k: nat) {
    exists p <- c.sent :: p.call == k
  }

  /** Sent packets carry increasing call numbers, one for every call whose counter was below the threshold. */
  ghost predicate SentInv(c: Channel) {
    && (forall p <- c.sent :: p.call < c.calls && p.nonce == p.call % NONCE_SPACE < REKEY_THRESHOLD)
    && (forall i, j :: 0 <= i < j < |c.sent| ==> c.sent[i].call < c.sent[j].call)
    && (forall k: nat :: k < c.calls && k % NONCE_SPACE < REKEY_THRESHOLD ==> Sealing(c, k))
  }

  /** Delivered nonces are pairwise different and are exactly the accepted ones; all of it was sent. */
  ghost predicate DeliveredInv(c: Channel) {
    && (forall p <- c.inFlight :: p in c.sent)
    && (forall p <- c.delivered :: p in c.sent && p.nonce in c.accepted)
    && (forall n <- c.accepted :: exists p <- c.delivered :: p.nonce == n)
    && (forall i, j :: 0 <= i < j < |c.delivered| ==> c.delivered[i].nonce != c.delivered[j].nonce)
  }

  lemma SentStep(c: Channel, step: Step)
    requires SentInv(c)
    ensures SentInv(Next(c, step))
  {
    var d := Next(c, step);
    forall k: nat | k < d.calls && k % NONCE_SPACE < REKEY_THRESHOLD
      ensures Sealing(d, k)
    {
      if k < c.calls {
        assert Sealing(c, k);
        var p :| p in c.sent && p.call == k;
        assert p in d.sent;
      } else {
        assert d.sent[|d.sent| - 1].call == k;
      }
    }
  }

  lemma DeliveredStep(c: Channel, step: Step)
    requires DeliveredInv(c)
    ensures DeliveredInv(Next(c, step))
  {
    var d := Next(c, step);
    if step.Finish? && step.packet in c.inFlight && Fresh(c.accepted, step.packet.nonce) {
      assert d.delivered == c.delivered + [step.packet];
      forall n | n in d.accepted ensures exists p <- d.delivered :: p.nonce == n {
        if n in c.accepted {
          var p :| p in c.delivered && p.nonce == n;
          assert p in d.delivered;
        } else {
          assert d.delivered[|c.delivered|].nonce == n;
        }
      }
    }
  }

  lemma {:induction false} RunInv(c: Channel, steps: seq<Step>)
    requires SentInv(c) && DeliveredInv(c)
    ensures SentInv(Run(c, steps)) && DeliveredInv(Run(c, steps))
    decreases |steps|
  {
    if steps != [] {
      SentStep(c, steps[0]);
      DeliveredStep(c, steps[0]);
      RunInv(Next(c, steps[0]), steps[1..]);
    }
  }

  ghost predicate DistinctNonces(ps: seq<Packet>) {
    forall i, j :: 0 <= i < j < |ps| ==> ps[i].nonce != ps[j].nonce
  }

  /** How many of the steps call `Encrypt`. */
  ghost function Encryptions(steps: seq<Step>): nat {
    if steps == [] then 0 else (if steps[0].Encrypt? then 1 else 0) + Encryptions(steps[1..])
  }

  lemma {:induction false} CallsCount(c: Channel, steps: seq<Step>)
    ensures Run(c, steps).calls == c.calls + Encryptions(steps)
    decreases |steps|
  {
    if steps != [] {
      CallsCount(Next(c, steps[0]), steps[1..]);
    }
  }

  /**
   In every run, sealed packets use nonces below 2^32; they are pairwise different
   exactly as long as `Encrypt` has been called at most 2^64 times, because the
   counter wraps and then starts again at nonce 0.
   */
  lemma SentNoncesDistinct(steps: seq<Step>)
    ensures var c := Run(EMPTY, steps);
            && (forall p <- c.sent :: p.nonce < 0x1_0000_0000)
            && (DistinctNonces(c.sent) <==> Encryptions(steps) <= 0x1_0000_0000_0000_0000)
  {
    var c := Run(EMPTY, steps);
    RunInv(EMPTY, steps);
    CallsCount(EMPTY, steps);
    if c.calls <= NONCE_SPACE {
      EarlyNoncesDistinct(c);
    } else {
      WrappedNonceRepeats(c);
    }
  }

  lemma EarlyNoncesDistinct(c: Channel)
    requires SentInv(c) && c.calls <= NONCE_SPACE
    ensures DistinctNonces(c.sent)
  {
    forall i, j | 0 <= i < j < |c.sent| ensures c.sent[i].nonce != c.sent[j].nonce {
      var p, q := c.sent[i], c.sent[j];
      assert p in c.sent && q in c.sent;
    }
  }

  /** Call number 2^64 seals with nonce 0 again. */
  lemma WrappedNonceRepeats(c: Channel)
    requires SentInv(c) && c.calls > NONCE_SPACE
    ensures !DistinctNonces(c.sent)
  {
    assert Sealing(c, 0) && Sealing(c, NONCE_SPACE);
    var p :| p in c.sent && p.call == 0;
    var q :| q in c.sent && q.call == NONCE_SPACE;
    var i :| 0 <= i < |c.sent| && c.sent[i] == p;
    var j :| 0 <= j < |c.sent| && c.sent[j] == q;
    assert c.sent[i].nonce == c.sent[j].nonce;
    assert i < j || j < i;
  }

  /**
   Whatever the network duplicates, reorders or forges, and however the two
   critical sections of different decryptions interleave, only sent packets are
   delivered and no packet is delivered twice.
   */
  lemma DeliveredAtMostOnce(steps: seq<Step>)
    ensures var c := Run(EMPTY, steps);
            && DistinctNonces(c.delivered)
            && (forall p <- c.delivered :: p in c.sent)
            && (forall p <- c.sent :: multiset(c.delivered)[p] <= 1)
  {
    var c := Run(EMPTY, steps);
    RunInv(EMPTY, steps);
    forall p | p in c.sent ensures multiset(c.delivered)[p] <= 1 {
      CountDistinct(c.delivered, p);
    }
  }

  lemma {:induction false} CountDistinct(ps: seq<Packet>, p: Packet)
    requires DistinctNonces(ps)
    ensures multiset(ps)[p] <= 1
  {
    if ps != [] {
      var init := ps[..|ps| - 1];
      assert ps == init + [ps[|ps| - 1]];
      CountDistinct(init, p);
      if ps[|ps| - 1] == p {
        assert p !in init;
      }
    }
  }

  /** A sent packet whose nonce is fresh is delivered if its decryption is not disturbed. */
  lemma FreshPacketIsDelivered(c: Channel, p: Packet)
    requires p in c.sent && p.nonce < REKEY_THRESHOLD && Fresh(c.accepted, p.nonce)
    ensures Next(Next(c, Arrive(p)), Finish(p)).delivered == c.delivered + [p]
  {}
}
