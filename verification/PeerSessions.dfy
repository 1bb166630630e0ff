/**
 The three sessions a peer entry keeps while keys change: the active one, one that
 waits for the peer's first packet to confirm it, and the one replaced last.
 A data packet is tried against them in that order.
 */
module PeerSessions {
  import opened Wrappers
  import opened ReplayWindow
  import opened Session

  // ----- Specification on values

  /** What decryption can see of a session: its key and the nonces accepted under it. */
  datatype View = View(key: Key, accepted: set<Nonce>)

  datatype Roles = Roles(active: Option<View>, pending: Option<View>, previous: Option<View>)

  ghost predicate Holds(slot: Option<View>, key: Key) {
    slot.Some? && slot.value.key == key
  }

  ghost predicate HoldsAny(r: Roles, key: Key) {
    Holds(r.active, key) || Holds(r.pending, key) || Holds(r.previous, key)
  }

  ghost predicate Agree(a: Option<View>, b: Option<View>) {
    a.Some? && b.Some? && a.value.key == b.value.key ==> a == b
  }

  /** A key that plays two roles is one session. */
  ghost predicate Consistent(r: Roles) {
    Agree(r.active, r.pending) && Agree(r.active, r.previous) && Agree(r.pending, r.previous)
  }

  ghost function Try(slot: Option<View>, nonce: Nonce, ct: Ciphertext): Option<Plain> {
    if slot.None? then None else Decrypted(slot.value.key, slot.value.accepted, nonce, ct)
  }

  ghost function Mark(slot: Option<View>, key: Key, nonce: Nonce): Option<View> {
    if Holds(slot, key) then Some(slot.value.(accepted := slot.value.accepted + {nonce})) else slot
  }

  /** The roles once the session in `slot` has decrypted the packet, if it has. */
  ghost function Tried(r: Roles, slot: Option<View>, nonce: Nonce, ct: Ciphertext): Roles {
    if Try(slot, nonce, ct).None? then r
    else
      var key := slot.value.key;
      Roles(Mark(r.active, key, nonce), Mark(r.pending, key, nonce), Mark(r.previous, key, nonce))
  }

  ghost function Promote(r: Roles): Roles {
    if r.pending.None? then r
    else Roles(r.pending, None, if r.active.Some? then r.active else r.previous)
  }

  ghost function Install(r: Roles, v: Option<View>): Roles {
    r.(active := v, previous := if r.active.Some? && !Holds(v, r.active.value.key) then r.active else r.previous)
  }

  /** An empty plaintext comes back as nil, which the caller takes for a failure. */
  predicate Useful(plain: Option<Plain>) {
    plain.Some? && plain.value != []
  }

  /** The packet's plaintext, if any session takes it, and the sessions afterwards. */
  ghost function Receive(r: Roles, nonce: Nonce, ct: Ciphertext): (Roles, Option<Plain>) {
    var a := Try(r.active, nonce, ct);
    var r1 := Tried(r, r.active, nonce, ct);
    if Useful(a) then (r1, a)
    else
      var b := Try(r1.pending, nonce, ct);
      var r2 := Tried(r1, r1.pending, nonce, ct);
      if Useful(b) then (Promote(r2), b)
      else
        var c := Try(r2.previous, nonce, ct);
        (Tried(r2, r2.previous, nonce, ct), if Useful(c) then c else None)
  }

  /** Trying the active session once more in its role as the previous one would change nothing. */
  lemma SameAgainFails(r: Roles, nonce: Nonce, ct: Ciphertext)
    requires r.active.Some? && r.previous == r.active && !Useful(Try(r.active, nonce, ct))
    ensures var r1 := Tried(r, r.active, nonce, ct);
            var r2 := Tried(r1, r1.pending, nonce, ct);
            Try(r2.previous, nonce, ct).None? && Tried(r2, r2.previous, nonce, ct) == r2
  {}

  // ----- The entry

  class Entry {
    var active: Session?
    var pending: Session?
    var previous: Session?

    static ghost function Slot(s: Session?): Option<View>
      reads s, if s == null then {} else {s.window}
    {
      if s == null then None else Some(View(s.key, s.window.accepted))
    }

    ghost function Value(): Roles
      reads this, active, pending, previous
      reads if active == null then {} else {active.window}
      reads if pending == null then {} else {pending.window}
      reads if previous == null then {} else {previous.window}
    {
      Roles(Slot(active), Slot(pending), Slot(previous))
    }

    static ghost function Parts(s: Session?): set<object?>
      reads s, if s == null then {} else {s.window}
    {
      if s == null then {} else {s, s.window, s.window.bitmap}
    }

    /** One session, or two that share neither state nor key: each handshake makes a session and a key of its own. */
    static ghost predicate Separate(s: Session?, t: Session?)
      reads s, if s == null then {} else {s.window}
      reads t, if t == null then {} else {t.window}
    {
      s == t || s == null || t == null || (Parts(s) !! Parts(t) && s.key != t.key)
    }

    ghost predicate Valid()
      reads this, active, pending, previous
      reads if active == null then {} else {active.window, active.window.bitmap}
      reads if pending == null then {} else {pending.window, pending.window.bitmap}
      reads if previous == null then {} else {previous.window, previous.window.bitmap}
    {
      && (active != null ==> active.Valid())
      && (pending != null ==> pending.Valid())
      && (previous != null ==> previous.Valid())
      && Separate(active, pending) && Separate(active, previous) && Separate(pending, previous)
      && this !in Parts(active) + Parts(pending) + Parts(previous)
    }

    constructor ()
      ensures Valid() && Value() == Roles(None, None, None)
    {
      active, pending, previous := null, null, null;
    }

    /** Any session may be given, one already in place too, or none. */
    ghost predicate Fits(s: Session?)
      reads this, active, pending, previous, s, if s == null then {} else {s.window, s.window.bitmap}
      reads if active == null then {} else {active.window}
      reads if pending == null then {} else {pending.window}
      reads if previous == null then {} else {previous.window}
    {
      (s != null ==> s.Valid()) && this !in Parts(s) && Separate(s, active) && Separate(s, pending) && Separate(s, previous)
    }

    method SetSession(s: Session?)
      requires Valid() && Fits(s)
      modifies this
      ensures Valid() && Value() == Install(old(Value()), Slot(s))
      ensures active == s && pending == old(pending)
      ensures previous == if old(active) != null && old(active) != s then old(active) else old(previous)
    {
      if active != null && active != s {
        previous := active;
      }
      active := s;
    }

    method SetPendingSession(s: Session?)
      requires Valid() && Fits(s)
      modifies this
      ensures Valid() && Value() == old(Value()).(pending := Slot(s))
      ensures pending == s && active == old(active) && previous == old(previous)
    {
      pending := s;
    }

    method PromotePendingSession() returns (promoted: bool)
      requires Valid()
      modifies this
      ensures Valid() && Value() == Promote(old(Value()))
      ensures promoted <==> old(pending) != null
      ensures if promoted then active == old(pending) && pending == null && previous == (if old(active) != null then old(active) else old(previous))
              else active == old(active) && pending == null && previous == old(previous)
    {
      if pending != null {
        if active != null {
          previous := active;
        }
        active := pending;
        pending := null;
        return true;
      }
      return false;
    }

    /** One attempt with the session in some role. */
    method TryDecrypt(s: Session, nonce: Nonce, ct: Ciphertext) returns (plain: Option<Plain>)
      requires Valid() && (s == active || s == pending || s == previous)
      modifies s.window, s.window.bitmap
      ensures Valid() && s.window.bitmap == old(s.window.bitmap)
      ensures plain == Try(old(Slot(s)), nonce, ct)
      ensures Value() == Tried(old(Value()), old(Slot(s)), nonce, ct)
    {
      hide Decrypted, Offer, Fresh;
      plain := s.Decrypt(nonce, ct);
    }

    method DecryptDataPacket(nonce: Nonce, ct: Ciphertext) returns (plain: Option<Plain>)
      requires Valid()
      modifies this
      modifies if active == null then {} else {active.window, active.window.bitmap}
      modifies if pending == null then {} else {pending.window, pending.window.bitmap}
      modifies if previous == null then {} else {previous.window, previous.window.bitmap}
      ensures Valid()
      ensures (Value(), plain) == Receive(old(Value()), nonce, ct)
    {
      hide Decrypted, Valid, Session.Valid;
      var sess := active;
      if sess != null {
        plain := TryDecrypt(sess, nonce, ct);
        if Useful(plain) {
          return;
        }
      }
      var waiting := pending;
      if waiting != null {
        plain := TryDecrypt(waiting, nonce, ct);
        if Useful(plain) {
          var _ := PromotePendingSession();
          return;
        }
      }
      var prev := previous;
      if prev != null && prev != sess {
        plain := TryDecrypt(prev, nonce, ct);
        if Useful(plain) {
          return;
        }
      } else if prev != null {
        SameAgainFails(old(Value()), nonce, ct);
      }
      plain := None;
    }
  }

  // ----- Runs: key changes and packets in any order

  /** `used` holds every key a handshake has produced so far; a new handshake produces another one. */
  datatype Peer = Peer(roles: Roles, used: set<Key>, delivered: seq<Ciphertext>)

  /** A session may also be set again while it plays some role. */
  datatype Step =
    | Established(key: Key)
    | Responded(key: Key)
    | Data(nonce: Nonce, ct: Ciphertext)

  const FRESH_PEER := Peer(Roles(None, None, None), {}, [])

  /** The session with this key, if it plays a role or is new. */
  ghost function WithKey(p: Peer, key: Key): Option<View> {
    if Holds(p.roles.active, key) then p.roles.active
    else if Holds(p.roles.pending, key) then p.roles.pending
    else if Holds(p.roles.previous, key) then p.roles.previous
    else if key in p.used then None
    else Some(View(key, {}))
  }

  ghost function Next(p: Peer, step: Step): Peer {
    match step
    case Established(key) =>
      var v := WithKey(p, key);
      if v.None? then p else p.(roles := Install(p.roles, v), used := p.used + {key})
    case Responded(key) =>
      var v := WithKey(p, key);
      if v.None? then p else p.(roles := p.roles.(pending := v), used := p.used + {key})
    case Data(nonce, ct) =>
      var (roles, plain) := Receive(p.roles, nonce, ct);
      p.(roles := roles, delivered := if plain.Some? then p.delivered + [ct] else p.delivered)
  }

  ghost function Run(p: Peer, steps: seq<Step>): Peer
    decreases |steps|
  {
    if steps == [] then p else Run(Next(p, steps[0]), steps[1..])
  }

  /** A delivered packet's key is used up, and while it plays `slot` its nonce is refused there. */
  ghost predicate Remembers(slot: Option<View>, ct: Ciphertext) {
    ct.Sealed? && (Holds(slot, ct.key) ==> ct.nonce in slot.value.accepted)
  }

  ghost predicate RememberedBy(r: Roles, ct: Ciphertext) {
    Remembers(r.active, ct) && Remembers(r.pending, ct) && Remembers(r.previous, ct)
  }

  ghost predicate Inv(p: Peer) {
    && Consistent(p.roles)
    && (forall k: Key :: HoldsAny(p.roles, k) ==> k in p.used)
    && (forall ct <- p.delivered :: ct.Sealed? && ct.key in p.used && RememberedBy(p.roles, ct))
    && (forall i, j :: 0 <= i < j < |p.delivered| ==> p.delivered[i] != p.delivered[j])
  }

  /** An attempt keeps the roles' keys, their agreement and what they remember; a success is remembered too. */
  lemma TriedKeeps(r: Roles, slot: Option<View>, nonce: Nonce, ct: Ciphertext, seen: Ciphertext)
    requires Consistent(r)
    ensures var t := Tried(r, slot, nonce, ct);
            && Consistent(t) && (forall k: Key :: HoldsAny(t, k) ==> HoldsAny(r, k))
            && (RememberedBy(r, seen) ==> RememberedBy(t, seen))
            && (Try(slot, nonce, ct).Some? ==> RememberedBy(t, ct) && ct.key == slot.value.key)
  {
    hide Fresh;
  }

  /** A remembered packet is refused in every role. */
  lemma RememberedIsRefused(r: Roles, nonce: Nonce, ct: Ciphertext)
    requires RememberedBy(r, ct)
    ensures Try(r.active, nonce, ct).None? && Try(r.pending, nonce, ct).None? && Try(r.previous, nonce, ct).None?
  {}

  /** What is delivered was not delivered before, is remembered from now on, and other memories stay. */
  lemma ReceiveKeeps(r: Roles, nonce: Nonce, ct: Ciphertext, seen: Ciphertext)
    requires Consistent(r)
    ensures var (t, plain) := Receive(r, nonce, ct);
            && Consistent(t) && (forall k: Key :: HoldsAny(t, k) ==> HoldsAny(r, k))
            && (RememberedBy(r, seen) ==> RememberedBy(t, seen))
            && (plain.Some? ==> RememberedBy(t, ct) && HoldsAny(r, ct.key) && !RememberedBy(r, ct))
  {
    hide Tried, Try;
    TriedKeeps(r, r.active, nonce, ct, seen);
    TriedKeeps(r, r.active, nonce, ct, ct);
    var r1 := Tried(r, r.active, nonce, ct);
    TriedKeeps(r1, r1.pending, nonce, ct, seen);
    TriedKeeps(r1, r1.pending, nonce, ct, ct);
    var r2 := Tried(r1, r1.pending, nonce, ct);
    TriedKeeps(r2, r2.previous, nonce, ct, seen);
    if RememberedBy(r, ct) {
      RememberedIsRefused(r, nonce, ct);
      RememberedIsRefused(r1, nonce, ct);
      RememberedIsRefused(r2, nonce, ct);
    }
  }

  /** What was delivered once does not pass again. */
  lemma ReceiveNeverRepeats(p: Peer, nonce: Nonce, ct: Ciphertext)
    requires Inv(p)
    requires Receive(p.roles, nonce, ct).1.Some?
    ensures ct !in p.delivered
  {
    hide Receive, RememberedBy;
    ReceiveKeeps(p.roles, nonce, ct, ct);
  }

  lemma DataInv(p: Peer, nonce: Nonce, ct: Ciphertext)
    requires Inv(p)
    ensures Inv(Next(p, Data(nonce, ct)))
  {
    hide Receive, RememberedBy, Consistent, HoldsAny;
    ReceiveKeeps(p.roles, nonce, ct, ct);
    forall seen | seen in p.delivered ensures RememberedBy(Next(p, Data(nonce, ct)).roles, seen) {
      ReceiveKeeps(p.roles, nonce, ct, seen);
    }
    IsSealed(Next(p, Data(nonce, ct)).roles, ct);
    if Receive(p.roles, nonce, ct).1.Some? {
      ReceiveNeverRepeats(p, nonce, ct);
    }
  }

  lemma IsSealed(r: Roles, ct: Ciphertext)
    ensures RememberedBy(r, ct) ==> ct.Sealed?
  {}

  lemma StepInv(p: Peer, step: Step)
    requires Inv(p)
    ensures Inv(Next(p, step))
  {
    match step
    case Established(_) =>
    case Responded(_) =>
    case Data(nonce, ct) => DataInv(p, nonce, ct);
  }

  lemma {:induction false} RunInv(p: Peer, steps: seq<Step>)
    requires Inv(p)
    ensures Inv(Run(p, steps))
    decreases |steps|
  {
    if steps != [] {
      StepInv(p, steps[0]);
      RunInv(Next(p, steps[0]), steps[1..]);
    }
  }

  /**
   Through rekeys, promotions and falling back to the previous session, no
   ciphertext is delivered twice.
   */
  lemma NoCiphertextTwice(steps: seq<Step>)
    ensures var d := Run(FRESH_PEER, steps).delivered;
            forall i, j :: 0 <= i < j < |d| ==> d[i] != d[j]
  {
    RunInv(FRESH_PEER, steps);
  }

  // ----- Which packet is delivered

  /** Which sessions play which roles. */
  ghost function Keys(r: Roles): (Option<Key>, Option<Key>, Option<Key>) {
    (KeyIn(r.active), KeyIn(r.pending), KeyIn(r.previous))
  }

  ghost function KeyIn(slot: Option<View>): Option<Key> {
    if slot.None? then None else Some(slot.value.key)
  }

  /** The nonces accepted under a key that plays some role. */
  ghost function AcceptedIn(r: Roles, key: Key): set<Nonce> {
    if Holds(r.active, key) then r.active.value.accepted
    else if Holds(r.pending, key) then r.pending.value.accepted
    else if Holds(r.previous, key) then r.previous.value.accepted
    else {}
  }

  /** The packet opens under the session with its key: that plays a role, and the nonce is in range and fresh there. */
  ghost predicate Opens(r: Roles, nonce: Nonce, ct: Ciphertext) {
    && ct.Sealed? && ct.nonce == nonce && nonce < REKEY_THRESHOLD
    && HoldsAny(r, ct.key) && Fresh(AcceptedIn(r, ct.key), nonce)
  }

  /**
   What one packet does, told by its key alone. It is delivered exactly when it opens and
   is not empty. It then confirms a pending session that is not the active one: that
   becomes active, none is pending, and the one it replaces, if any, becomes the previous
   one. Otherwise no role changes.
   */
  lemma ReceiveExact(r: Roles, nonce: Nonce, ct: Ciphertext)
    requires Consistent(r)
    ensures var (t, plain) := Receive(r, nonce, ct);
            && plain == (if Opens(r, nonce, ct) && ct.plain != [] then Some(ct.plain) else None)
            && Keys(t) == (if plain.Some? && Holds(r.pending, ct.key) && !Holds(r.active, ct.key)
                           then (Some(ct.key), None, if r.active.Some? then KeyIn(r.active) else KeyIn(r.previous))
                           else Keys(r))
            && forall k: Key :: HoldsAny(t, k) ==>
                 AcceptedIn(t, k) == AcceptedIn(r, k) + (if Opens(r, nonce, ct) && k == ct.key then {nonce} else {})
  {
    hide Fresh;
    if !Opens(r, nonce, ct) {
      OpensNowhere(r, nonce, ct);
    }
  }

  lemma OpensNowhere(r: Roles, nonce: Nonce, ct: Ciphertext)
    requires Consistent(r) && !Opens(r, nonce, ct)
    ensures Receive(r, nonce, ct) == (r, None)
  {
    hide Fresh;
  }

  /** An empty packet uses up its nonce, is not delivered and confirms nothing. */
  lemma EmptyConfirmsNothing(r: Roles, nonce: Nonce, ct: Ciphertext)
    requires Consistent(r) && ct.Sealed? && ct.plain == []
    ensures Receive(r, nonce, ct).1.None? && Keys(Receive(r, nonce, ct).0) == Keys(r)
    ensures Opens(r, nonce, ct) ==> !Opens(Receive(r, nonce, ct).0, nonce, ct)
  {
    hide Receive;
    ReceiveExact(r, nonce, ct);
  }

  // ----- Delivery over runs

  /**
   A peer's history, told from the steps alone: the keys that have become active, in
   order, the key that waits to be confirmed, and the nonces opened under each key.
   */
  datatype History = History(became: seq<Key>, waiting: Option<Key>, accepted: map<Key, set<Nonce>>, used: set<Key>)

  const NO_HISTORY := History([], None, map[], {})

  function Current(h: History): Option<Key> {
    if h.became == [] then None else Some(h.became[|h.became| - 1])
  }

  /** The session replaced last. */
  function Replaced(h: History): Option<Key> {
    if |h.became| < 2 then None else Some(h.became[|h.became| - 2])
  }

  predicate Plays(h: History, key: Key) {
    Current(h) == Some(key) || h.waiting == Some(key) || Replaced(h) == Some(key)
  }

  function OpenedUnder(h: History, key: Key): set<Nonce> {
    if key in h.accepted then h.accepted[key] else {}
  }

  /** The packet is sealed under the current, the waiting or the last replaced key, with a fresh nonce below the threshold. */
  ghost predicate Timely(h: History, nonce: Nonce, ct: Ciphertext) {
    && ct.Sealed? && ct.nonce == nonce && nonce < 0x1_0000_0000
    && Plays(h, ct.key) && Fresh(OpenedUnder(h, ct.key), nonce)
  }

  ghost function Recorded(h: History, step: Step): History {
    match step
    case Established(key) =>
      if key in h.used && !Plays(h, key) then h
      else h.(became := if Current(h) == Some(key) then h.became else h.became + [key], used := h.used + {key})
    case Responded(key) =>
      if key in h.used && !Plays(h, key) then h else h.(waiting := Some(key), used := h.used + {key})
    case Data(nonce, ct) =>
      if !Timely(h, nonce, ct) then h
      else
        var g := h.(accepted := h.accepted[ct.key := OpenedUnder(h, ct.key) + {nonce}]);
        if ct.plain != [] && h.waiting == Some(ct.key) && Current(h) != Some(ct.key)
        then g.(became := h.became + [ct.key], waiting := None) else g
  }

  ghost function RecordedAll(h: History, steps: seq<Step>): History
    decreases |steps|
  {
    if steps == [] then h else RecordedAll(Recorded(h, steps[0]), steps[1..])
  }

  /** The roles are the history's, and the windows hold what it has seen opened. */
  ghost predicate Mirrors(p: Peer, h: History) {
    && Consistent(p.roles) && p.used == h.used
    && Keys(p.roles) == (Current(h), h.waiting, Replaced(h))
    && (forall k: Key :: HoldsAny(p.roles, k) ==> AcceptedIn(p.roles, k) == OpenedUnder(h, k) && k in h.used)
    && (forall k: Key :: k in h.accepted ==> k in h.used)
  }

  lemma PlaysIsHeld(p: Peer, h: History, key: Key)
    requires Mirrors(p, h)
    ensures Plays(h, key) <==> HoldsAny(p.roles, key)
  {}

  lemma DataMirrors(p: Peer, h: History, nonce: Nonce, ct: Ciphertext)
    requires Mirrors(p, h)
    ensures Receive(p.roles, nonce, ct).1 == (if Timely(h, nonce, ct) && ct.plain != [] then Some(ct.plain) else None)
    ensures Mirrors(Next(p, Data(nonce, ct)), Recorded(h, Data(nonce, ct)))
  {
    hide Receive, Fresh;
    ReceiveExact(p.roles, nonce, ct);
    ReceiveKeeps(p.roles, nonce, ct, ct);
    if ct.Sealed? {
      PlaysIsHeld(p, h, ct.key);
    }
  }

  lemma HeldViews(r: Roles, key: Key)
    requires Consistent(r)
    ensures Holds(r.active, key) ==> r.active.value == View(key, AcceptedIn(r, key))
    ensures Holds(r.pending, key) ==> r.pending.value == View(key, AcceptedIn(r, key))
    ensures Holds(r.previous, key) ==> r.previous.value == View(key, AcceptedIn(r, key))
  {}

  lemma InstallMirrors(p: Peer, h: History, key: Key)
    requires Mirrors(p, h)
    ensures Mirrors(Next(p, Established(key)), Recorded(h, Established(key)))
  {
    PlaysIsHeld(p, h, key);
    var t, g := Next(p, Established(key)), Recorded(h, Established(key));
    forall k: Key | HoldsAny(t.roles, k) ensures AcceptedIn(t.roles, k) == OpenedUnder(g, k) && k in g.used {
      HeldViews(p.roles, k);
    }
  }

  lemma RespondMirrors(p: Peer, h: History, key: Key)
    requires Mirrors(p, h)
    ensures Mirrors(Next(p, Responded(key)), Recorded(h, Responded(key)))
  {
    PlaysIsHeld(p, h, key);
    var t, g := Next(p, Responded(key)), Recorded(h, Responded(key));
    forall k: Key | HoldsAny(t.roles, k) ensures AcceptedIn(t.roles, k) == OpenedUnder(g, k) && k in g.used {
      HeldViews(p.roles, k);
    }
  }

  lemma {:induction false} RunMirrors(p: Peer, h: History, steps: seq<Step>)
    requires Mirrors(p, h)
    ensures Mirrors(Run(p, steps), RecordedAll(h, steps))
    decreases |steps|
  {
    hide Mirrors, Next, Recorded;
    if steps != [] {
      match steps[0] {
        case Established(key) => InstallMirrors(p, h, key);
        case Responded(key) => RespondMirrors(p, h, key);
        case Data(nonce, ct) => DataMirrors(p, h, nonce, ct);
      }
      RunMirrors(Next(p, steps[0]), Recorded(h, steps[0]), steps[1..]);
    }
  }

  /**
   Over every run of handshakes and packets, a packet is delivered if and only if it is not
   empty, is sealed under the current key, the waiting one or the one replaced last, and
   has a nonce below 2^32 that is fresh under that key.
   */
  lemma DeliveredIff(steps: seq<Step>, nonce: Nonce, ct: Ciphertext)
    ensures Receive(Run(FRESH_PEER, steps).roles, nonce, ct).1
            == (if Timely(RecordedAll(NO_HISTORY, steps), nonce, ct) && ct.plain != [] then Some(ct.plain) else None)
  {
    hide Receive, Timely;
    RunMirrors(FRESH_PEER, NO_HISTORY, steps);
    DataMirrors(Run(FRESH_PEER, steps), RecordedAll(NO_HISTORY, steps), nonce, ct);
  }
}
