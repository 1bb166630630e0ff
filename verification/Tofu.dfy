/**
 Trust-on-first-use pins: each peer key is pinned to the VPN address it was first seen
 at. A key that moves keeps its old addresses reserved, up to sixteen of them, so that
 no other key can be put in its place.
 */
module Tofu {
  import opened Collections

  const MAX_PREV := 16

  type Key = string
  type Addr = string
  type Fingerprint = seq<int>

  datatype Pin = Pin(fingerprint: Fingerprint, pub: Key, vpnAddr: Addr, prev: seq<Addr>)

  datatype Pins = Pins(pins: map<Key, Pin>, vpnToPub: map<Addr, Key>)

  // ----- Specification

  /** The addresses reserved for a pin, most recent first. */
  function Addrs(pin: Pin): seq<Addr> {
    [pin.vpnAddr] + pin.prev
  }

  ghost predicate Reserved(s: Pins, a: Addr, k: Key) {
    k in s.pins && a in Addrs(s.pins[k])
  }

  ghost predicate PinOk(fp: Key -> Fingerprint, k: Key, pin: Pin) {
    pin.pub == k && pin.fingerprint == fp(k) && Distinct(Addrs(pin)) && |pin.prev| <= MAX_PREV
  }

  /** Pins and address index describe each other exactly. */
  ghost predicate Inv(fp: Key -> Fingerprint, s: Pins) {
    && (forall k :: k in s.pins ==> PinOk(fp, k, s.pins[k]))
    && (forall a :: a in s.vpnToPub ==> Reserved(s, a, s.vpnToPub[a]))
    && (forall a, k :: Reserved(s, a, k) ==> a in s.vpnToPub && s.vpnToPub[a] == k)
  }

  /** The old addresses that stay once the pin has moved to `addr`, before the limit is applied. */
  function Older(prev: seq<Addr>, current: Addr, addr: Addr): seq<Addr> {
    if prev == [] then []
    else if prev[0] != addr && prev[0] != current then [prev[0]] + Older(prev[1..], current, addr)
    else Older(prev[1..], current, addr)
  }

  function Previous(pin: Pin, addr: Addr): seq<Addr> {
    [pin.vpnAddr] + Older(pin.prev, pin.vpnAddr, addr)
  }

  function Limit(s: seq<Addr>): seq<Addr> {
    if |s| > MAX_PREV then s[..MAX_PREV] else s
  }

  function Released(s: seq<Addr>): set<Addr> {
    if |s| > MAX_PREV then set a | a in s[MAX_PREV..] else {}
  }

  function Moved(s: Pins, k: Key, addr: Addr): Pins
    requires k in s.pins
  {
    var pin := s.pins[k];
    var prev := Previous(pin, addr);
    Pins(s.pins[k := pin.(vpnAddr := addr, prev := Limit(prev))], (s.vpnToPub - Released(prev))[addr := k])
  }

  predicate Taken(s: Pins, addr: Addr, k: Key) {
    addr in s.vpnToPub && s.vpnToPub[addr] != k
  }

  /** Whether the key may appear at the address. */
  predicate Passes(s: Pins, addr: Addr, k: Key, seen: Fingerprint) {
    if k in s.pins then s.pins[k].fingerprint == seen && (s.pins[k].vpnAddr == addr || !Taken(s, addr, k))
    else !Taken(s, addr, k)
  }

  function Checked(s: Pins, addr: Addr, k: Key, seen: Fingerprint): Pins {
    if !Passes(s, addr, k, seen) then s
    else if k !in s.pins then Pins(s.pins[k := Pin(seen, k, addr, [])], s.vpnToPub[addr := k])
    else if s.pins[k].vpnAddr == addr then s
    else Moved(s, k, addr)
  }

  function Unpinned(s: Pins, pin: Pin): Pins {
    Pins(s.pins - {pin.pub}, s.vpnToPub - (set a | a in Addrs(pin) && a in s.vpnToPub && s.vpnToPub[a] == pin.pub))
  }

  function Forgotten(s: Pins, k: Key): Pins {
    if k in s.pins then Unpinned(s, s.pins[k]) else s
  }

  function ForgottenAddr(s: Pins, addr: Addr): Pins {
    if addr !in s.vpnToPub then s
    else if s.vpnToPub[addr] in s.pins then Unpinned(s, s.pins[s.vpnToPub[addr]])
    else s.(vpnToPub := s.vpnToPub - {addr})
  }

  // ----- The store

  class Store {
    const fp: Key -> Fingerprint
    var pins: map<Key, Pin>
    var vpnToPub: map<Addr, Key>

    function Value(): Pins
      reads this
    {
      Pins(pins, vpnToPub)
    }

    constructor (fp: Key -> Fingerprint)
      ensures this.fp == fp && Value() == Pins(map[], map[])
    {
      this.fp, pins, vpnToPub := fp, map[], map[];
    }

    method Release(addrs: seq<Addr>)
      modifies this`vpnToPub
      ensures vpnToPub == old(vpnToPub) - set a | a in addrs
    {
      for i := 0 to |addrs|
        invariant vpnToPub == old(vpnToPub) - set a | a in addrs[..i]
      {
        assert addrs[..i + 1] == addrs[..i] + [addrs[i]];
        vpnToPub := vpnToPub - {addrs[i]};
      }
      assert addrs[..|addrs|] == addrs;
    }

    /** Accepts or refuses a key at an address, pinning a new key and moving a known one. */
    method Check(addr: Addr, k: Key) returns (ok: bool)
      modifies this
      ensures ok <==> Passes(old(Value()), addr, k, fp(k))
      ensures Value() == Checked(old(Value()), addr, k, fp(k))
    {
      var seen := fp(k);
      if k in pins {
        var stored := pins[k];
        if stored.fingerprint != seen {
          return false;
        }
        if stored.vpnAddr != addr {
          if addr in vpnToPub && vpnToPub[addr] != k {
            return false;
          }
          var prev := [stored.vpnAddr];
          for i := 0 to |stored.prev|
            invariant prev + Older(stored.prev[i..], stored.vpnAddr, addr) == Previous(stored, addr)
          {
            assert stored.prev[i..][1..] == stored.prev[i + 1..];
            var a := stored.prev[i];
            if a != addr && a != stored.vpnAddr {
              prev := prev + [a];
            }
          }
          assert prev == Previous(stored, addr);
          if |prev| > MAX_PREV {
            Release(prev[MAX_PREV..]);
            prev := prev[..MAX_PREV];
          }
          vpnToPub := vpnToPub[addr := k];
          pins := pins[k := stored.(prev := prev, vpnAddr := addr)];
          assert vpnToPub == Moved(old(Value()), k, addr).vpnToPub;
        }
        return true;
      }
      if addr in vpnToPub && vpnToPub[addr] != k {
        return false;
      }
      pins := pins[k := Pin(seen, k, addr, [])];
      vpnToPub := vpnToPub[addr := k];
      return true;
    }

    method Unpin(v: Pin)
      modifies this
      ensures Value() == Unpinned(old(Value()), v)
    {
      var addrs := Addrs(v);
      for i := 0 to |addrs|
        invariant pins == old(pins)
        invariant vpnToPub == old(vpnToPub) - set a | a in addrs[..i] && a in old(vpnToPub) && old(vpnToPub)[a] == v.pub
      {
        assert addrs[..i + 1] == addrs[..i] + [addrs[i]];
        if addrs[i] in vpnToPub && vpnToPub[addrs[i]] == v.pub {
          vpnToPub := vpnToPub - {addrs[i]};
        }
      }
      assert addrs[..|addrs|] == addrs;
      pins := pins - {v.pub};
    }

    method Forget(k: Key)
      modifies this
      ensures Value() == Forgotten(old(Value()), k)
    {
      if k in pins {
        Unpin(pins[k]);
      }
    }

    /** Writes the pins out in the map's own, arbitrary order. */
    method Save() returns (f: seq<Pin>)
      requires forall k :: k in pins ==> pins[k].pub == k
      ensures Lists(f, pins)
    {
      f := [];
      var todo := pins.Keys;
      while todo != {}
        invariant todo <= pins.Keys
        invariant forall p <- f :: p.pub in pins && pins[p.pub] == p && p.pub !in todo
        invariant forall k :: k in pins && k !in todo ==> pins[k] in f
        invariant forall i, j :: 0 <= i < j < |f| ==> f[i].pub != f[j].pub
        decreases todo
      {
        var k :| k in todo;
        todo := todo - {k};
        f := f + [pins[k]];
      }
    }

    method LoadFile(f: seq<Pin>)
      modifies this
      ensures Value() == Load(old(Value()), f)
    {
      for i := 0 to |f|
        invariant Load(Value(), f[i..]) == Load(old(Value()), f)
      {
        assert f[i..][1..] == f[i + 1..];
        var p := f[i];
        if p.pub != "" && |p.fingerprint| == 32 {
          pins := pins[p.pub := p];
          vpnToPub := vpnToPub[p.vpnAddr := p.pub];
          ghost var m, held := vpnToPub, pins;
          for j := 0 to |p.prev|
            invariant pins == held
            invariant Reserve(vpnToPub, p.prev[j..], p.pub) == Reserve(m, p.prev, p.pub)
          {
            assert p.prev[j..][1..] == p.prev[j + 1..];
            if p.prev[j] !in vpnToPub {
              vpnToPub := vpnToPub[p.prev[j] := p.pub];
            }
          }
        }
      }
    }

    method ForgetByVPNAddr(addr: Addr)
      modifies this
      ensures Value() == ForgottenAddr(old(Value()), addr)
    {
      if addr in vpnToPub {
        var k := vpnToPub[addr];
        if k in pins {
          Unpin(pins[k]);
        } else {
          vpnToPub := vpnToPub - {addr};
        }
      }
    }
  }

  // ----- Saving and loading

  /** The file lists exactly the pins, each once, in some order. */
  ghost predicate Lists(f: seq<Pin>, pins: map<Key, Pin>) {
    && (forall i, j :: 0 <= i < j < |f| ==> f[i].pub != f[j].pub)
    && (forall p <- f :: p.pub in pins && pins[p.pub] == p)
    && (forall k :: k in pins ==> pins[k] in f)
  }

  /** Old addresses are taken over only where nothing is recorded yet. */
  function Reserve(m: map<Addr, Key>, prev: seq<Addr>, k: Key): map<Addr, Key>
    decreases |prev|
  {
    if prev == [] then m
    else Reserve(if prev[0] in m then m else m[prev[0] := k], prev[1..], k)
  }

  /** Entries without a key or with a malformed fingerprint are skipped. */
  function LoadEntry(s: Pins, p: Pin): Pins {
    if p.pub == "" || |p.fingerprint| != 32 then s
    else Pins(s.pins[p.pub := p], Reserve(s.vpnToPub[p.vpnAddr := p.pub], p.prev, p.pub))
  }

  function Load(s: Pins, f: seq<Pin>): Pins
    decreases |f|
  {
    if f == [] then s else Load(LoadEntry(s, f[0]), f[1..])
  }

  /** `t` is `s` cut down to some of its keys. */
  ghost predicate PartOf(t: Pins, s: Pins) {
    && (forall k :: k in t.pins ==> k in s.pins && t.pins[k] == s.pins[k])
    && (forall a :: a in t.vpnToPub <==> a in s.vpnToPub && s.vpnToPub[a] in t.pins)
    && (forall a :: a in t.vpnToPub ==> t.vpnToPub[a] == s.vpnToPub[a])
  }

  lemma {:induction false} ReserveAdds(m: map<Addr, Key>, prev: seq<Addr>, k: Key)
    ensures var r := Reserve(m, prev, k);
            && (forall a :: a in r <==> a in m || a in prev)
            && (forall a :: a in r ==> r[a] == if a in m then m[a] else k)
    decreases |prev|
  {
    if prev != [] {
      ReserveAdds(if prev[0] in m then m else m[prev[0] := k], prev[1..], k);
    }
  }

  /** The addresses reserved for a pinned key are those the index maps to it. */
  lemma IndexedAddrs(fp: Key -> Fingerprint, s: Pins, k: Key)
    requires Inv(fp, s) && k in s.pins
    ensures forall a :: a == s.pins[k].vpnAddr || a in s.pins[k].prev <==> a in s.vpnToPub && s.vpnToPub[a] == k
    ensures s.pins[k].pub == k && s.pins[k].fingerprint == fp(k)
  {
    assert PinOk(fp, k, s.pins[k]);
    forall a ensures a in Addrs(s.pins[k]) <==> a in s.vpnToPub && s.vpnToPub[a] == k {
      if a in Addrs(s.pins[k]) {
        assert Reserved(s, a, k);
      }
    }
  }

  lemma LoadEntryAdds(fp: Key -> Fingerprint, s: Pins, t: Pins, k: Key)
    requires Inv(fp, s) && PartOf(t, s) && k in s.pins && k != "" && |fp(k)| == 32
    ensures var u := LoadEntry(t, s.pins[k]); PartOf(u, s) && u.pins.Keys == t.pins.Keys + {k}
  {
    hide Inv, Reserve;
    var p := s.pins[k];
    IndexedAddrs(fp, s, k);
    ReserveAdds(t.vpnToPub[p.vpnAddr := k], p.prev, k);
  }

  lemma {:induction false} LoadAdds(fp: Key -> Fingerprint, s: Pins, t: Pins, f: seq<Pin>)
    requires Inv(fp, s) && PartOf(t, s) && (forall k :: k in s.pins ==> |fp(k)| == 32)
    requires forall p <- f :: p.pub in s.pins && s.pins[p.pub] == p
    ensures var u := Load(t, f);
            PartOf(u, s) && forall k :: k in u.pins <==> k in t.pins || (k != "" && exists p <- f :: p.pub == k)
    decreases |f|
  {
    if f != [] {
      var p := f[0];
      assert p in f;
      if p.pub != "" {
        LoadEntryAdds(fp, s, t, p.pub);
      }
      LoadAdds(fp, s, LoadEntry(t, p), f[1..]);
      assert f == [p] + f[1..];
    }
  }

  /**
   Loading a saved file restores both maps, in whatever order the pins were written,
   unless a pin is held for the empty key: such a pin is saved but not loaded.
   */
  lemma LoadUndoesSave(fp: Key -> Fingerprint, s: Pins, f: seq<Pin>)
    requires Inv(fp, s) && (forall k :: k in s.pins ==> |fp(k)| == 32) && Lists(f, s.pins)
    ensures Load(Pins(map[], map[]), f) == s <==> "" !in s.pins
  {
    hide Load, Inv;
    var t := Load(Pins(map[], map[]), f);
    LoadAdds(fp, s, Pins(map[], map[]), f);
    if "" !in s.pins {
      forall k | k in s.pins ensures k in t.pins {
        IndexedAddrs(fp, s, k);
        assert s.pins[k] in f && s.pins[k].pub == k;
      }
      WholePart(fp, t, s);
    }
  }

  /** A part with all the keys is the whole. */
  lemma WholePart(fp: Key -> Fingerprint, t: Pins, s: Pins)
    requires Inv(fp, s) && PartOf(t, s) && forall k :: k in s.pins ==> k in t.pins
    ensures t == s
  {
    hide Distinct;
    forall a | a in s.vpnToPub ensures a in t.vpnToPub {
      assert Reserved(s, a, s.vpnToPub[a]);
    }
    assert t.pins == s.pins && t.vpnToPub == s.vpnToPub;
  }

  // ----- What every operation keeps

  /** Position of `a`, or the length if it is not there. */
  function Rank(s: seq<Addr>, a: Addr): (r: nat)
    ensures r <= |s| && (r < |s| <==> a in s) && (r < |s| ==> s[r] == a)
  {
    if s == [] then 0 else if s[0] == a then 0 else 1 + Rank(s[1..], a)
  }

  lemma FrontDistinct(a: Addr, s: seq<Addr>)
    ensures Distinct([a] + s) <==> a !in s && Distinct(s)
  {
    var t := [a] + s;
    if Distinct(t) {
      forall i | 0 <= i < |s| ensures s[i] != a {
        assert t[0] == a && t[i + 1] == s[i];
      }
      forall i, j | 0 <= i < j < |s| ensures s[i] != s[j] {
        assert t[i + 1] == s[i] && t[j + 1] == s[j];
      }
    }
  }

  /** Dropping an address keeps the others in order, so none moves back. */
  lemma {:induction false} OlderKeepsOrder(prev: seq<Addr>, current: Addr, addr: Addr)
    requires Distinct(prev)
    ensures var older := Older(prev, current, addr);
            && Distinct(older) && |older| <= |prev|
            && (addr !in prev && current !in prev ==> older == prev)
            && forall a :: a in older <==> a in prev && a != addr && a != current
    ensures forall a :: a in Older(prev, current, addr) ==> Rank(Older(prev, current, addr), a) <= Rank(prev, a)
  {
    if prev != [] {
      assert prev == [prev[0]] + prev[1..];
      FrontDistinct(prev[0], prev[1..]);
      hide Distinct;
      OlderKeepsOrder(prev[1..], current, addr);
      FrontDistinct(prev[0], Older(prev[1..], current, addr));
    }
  }

  /** The limit splits the addresses into those kept and those released. */
  lemma LimitSplits(prev: seq<Addr>)
    requires Distinct(prev)
    ensures Distinct(Limit(prev)) && |Limit(prev)| <= MAX_PREV
    ensures forall a :: a in Limit(prev) <==> a in prev && a !in Released(prev)
    ensures forall a :: a in Released(prev) ==> a in prev
  {
    if |prev| > MAX_PREV {
      var kept, out := prev[..MAX_PREV], prev[MAX_PREV..];
      assert prev == kept + out;
      forall a | a in kept ensures a !in out {
        var i :| 0 <= i < MAX_PREV && prev[i] == a;
        assert forall j :: 0 <= j < |out| ==> out[j] == prev[MAX_PREV + j];
      }
    }
  }

  /** The reserved addresses of a pin after it has moved. */
  lemma MovedAddrs(pin: Pin, addr: Addr)
    requires Distinct(Addrs(pin)) && pin.vpnAddr != addr
    ensures var prev := Previous(pin, addr);
            && Distinct([addr] + Limit(prev)) && |Limit(prev)| <= MAX_PREV
            && (forall a :: a in [addr] + Limit(prev) <==> (a == addr || a in Addrs(pin)) && a !in Released(prev))
            && (forall a :: a in Released(prev) ==> a in Addrs(pin) && a != addr)
  {
    FrontDistinct(pin.vpnAddr, pin.prev);
    hide Distinct, Limit, Released, Older;
    OlderKeepsOrder(pin.prev, pin.vpnAddr, addr);
    var prev := Previous(pin, addr);
    FrontDistinct(pin.vpnAddr, Older(pin.prev, pin.vpnAddr, addr));
    LimitSplits(prev);
    FrontDistinct(addr, Limit(prev));
  }

  /** A move changes what is reserved for the moving key only. */
  lemma MoveReserves(fp: Key -> Fingerprint, s: Pins, k: Key, addr: Addr, a: Addr, j: Key)
    requires Inv(fp, s) && k in s.pins && s.pins[k].vpnAddr != addr
    ensures Reserved(Moved(s, k, addr), a, j) <==>
              if j != k then Reserved(s, a, j)
              else (a == addr || Reserved(s, a, k)) && a !in Released(Previous(s.pins[k], addr))
  {
    hide Distinct, Limit, Released, Older;
    assert PinOk(fp, k, s.pins[k]);
    MovedAddrs(s.pins[k], addr);
  }

  lemma MoveKeepsPins(fp: Key -> Fingerprint, s: Pins, k: Key, addr: Addr)
    requires Inv(fp, s) && k in s.pins && s.pins[k].vpnAddr != addr
    ensures forall j :: j in Moved(s, k, addr).pins ==> PinOk(fp, j, Moved(s, k, addr).pins[j])
    ensures forall a :: a in Released(Previous(s.pins[k], addr)) ==> Reserved(s, a, k) && a != addr
  {
    hide Distinct, Limit, Released, Older;
    assert PinOk(fp, k, s.pins[k]);
    MovedAddrs(s.pins[k], addr);
  }

  lemma MoveKeepsInv(fp: Key -> Fingerprint, s: Pins, k: Key, addr: Addr)
    requires Inv(fp, s) && k in s.pins && s.pins[k].vpnAddr != addr && !Taken(s, addr, k)
    ensures Inv(fp, Moved(s, k, addr))
  {
    hide Distinct, Limit, Released, Older, PinOk, Reserved, Addrs;
    var t := Moved(s, k, addr);
    MoveKeepsPins(fp, s, k, addr);
    forall a | a in t.vpnToPub ensures Reserved(t, a, t.vpnToPub[a]) {
      MoveReserves(fp, s, k, addr, a, t.vpnToPub[a]);
    }
    forall a, j | Reserved(t, a, j) ensures a in t.vpnToPub && t.vpnToPub[a] == j {
      MoveReserves(fp, s, k, addr, a, j);
    }
  }

  lemma UnpinKeepsInv(fp: Key -> Fingerprint, s: Pins, k: Key)
    requires Inv(fp, s) && k in s.pins
    ensures Inv(fp, Unpinned(s, s.pins[k]))
    ensures forall a, j :: Reserved(Unpinned(s, s.pins[k]), a, j) <==> Reserved(s, a, j) && j != k
  {
    var t := Unpinned(s, s.pins[k]);
    assert PinOk(fp, k, s.pins[k]);
    forall a | a in t.vpnToPub ensures Reserved(t, a, t.vpnToPub[a]) {
      assert Reserved(s, a, s.vpnToPub[a]);
    }
    forall a, j | Reserved(t, a, j) ensures a in t.vpnToPub && t.vpnToPub[a] == j {
      assert Reserved(s, a, j);
    }
  }

  datatype Op = Check(addr: Addr, key: Key) | Forget(key: Key) | ForgetAddr(addr: Addr)

  function Next(fp: Key -> Fingerprint, s: Pins, op: Op): Pins {
    match op
    case Check(addr, k) => Checked(s, addr, k, fp(k))
    case Forget(k) => Forgotten(s, k)
    case ForgetAddr(addr) => ForgottenAddr(s, addr)
  }

  function Run(fp: Key -> Fingerprint, s: Pins, ops: seq<Op>): Pins
    decreases |ops|
  {
    if ops == [] then s else Run(fp, Next(fp, s, ops[0]), ops[1..])
  }

  lemma PinKeepsInv(fp: Key -> Fingerprint, s: Pins, addr: Addr, k: Key)
    requires Inv(fp, s) && k !in s.pins && !Taken(s, addr, k)
    ensures Inv(fp, Checked(s, addr, k, fp(k)))
    ensures forall a, j :: Reserved(Checked(s, addr, k, fp(k)), a, j) <==> Reserved(s, a, j) || (a == addr && j == k)
  {
    var t := Checked(s, addr, k, fp(k));
    assert addr in s.vpnToPub ==> Reserved(s, addr, s.vpnToPub[addr]);
    forall a, j ensures Reserved(t, a, j) <==> Reserved(s, a, j) || (a == addr && j == k) {
    }
    forall a | a in t.vpnToPub ensures Reserved(t, a, t.vpnToPub[a]) {
      if a != addr {
        assert Reserved(s, a, s.vpnToPub[a]);
      }
    }
  }

  lemma NextKeepsInv(fp: Key -> Fingerprint, s: Pins, op: Op)
    requires Inv(fp, s)
    ensures Inv(fp, Next(fp, s, op))
  {
    match op
    case Check(addr, k) =>
      if Passes(s, addr, k, fp(k)) {
        if k !in s.pins {
          PinKeepsInv(fp, s, addr, k);
        } else if s.pins[k].vpnAddr != addr {
          MoveKeepsInv(fp, s, k, addr);
        }
      }
    case Forget(k) =>
      if k in s.pins {
        UnpinKeepsInv(fp, s, k);
      }
    case ForgetAddr(addr) =>
      if addr in s.vpnToPub {
        assert Reserved(s, addr, s.vpnToPub[addr]);
        UnpinKeepsInv(fp, s, s.vpnToPub[addr]);
      }
  }

  /** After every run, pins and index describe each other. */
  lemma {:induction false} RunKeepsInv(fp: Key -> Fingerprint, s: Pins, ops: seq<Op>)
    requires Inv(fp, s)
    ensures Inv(fp, Run(fp, s, ops))
    decreases |ops|
  {
    if ops != [] {
      NextKeepsInv(fp, s, ops[0]);
      RunKeepsInv(fp, Next(fp, s, ops[0]), ops[1..]);
    }
  }

  // ----- The store as a book of addresses

  /** For each key the addresses it holds, the latest first. */
  type Book = map<Key, seq<Addr>>

  ghost function BookOf(s: Pins): Book {
    map k | k in s.pins :: Addrs(s.pins[k])
  }

  /** No key but `k` holds the address. */
  ghost predicate Free(b: Book, addr: Addr, k: Key) {
    forall j :: j in b && addr in b[j] ==> j == k
  }

  ghost function Removed(list: seq<Addr>, addr: Addr): seq<Addr> {
    if list == [] then []
    else (if list[0] == addr then [] else [list[0]]) + Removed(list[1..], addr)
  }

  /** The address comes to the front of its key's list, and the list keeps its first seventeen. */
  ghost function ToFront(list: seq<Addr>, addr: Addr): seq<Addr> {
    var all := [addr] + Removed(list, addr);
    if |all| > 17 then all[..17] else all
  }

  ghost function BookNext(b: Book, op: Op): Book {
    match op
    case Check(addr, k) => if Free(b, addr, k) then b[k := ToFront(if k in b then b[k] else [], addr)] else b
    case Forget(k) => b - {k}
    case ForgetAddr(addr) => map j | j in b && addr !in b[j] :: b[j]
  }

  ghost function BookRun(b: Book, ops: seq<Op>): Book
    decreases |ops|
  {
    if ops == [] then b else BookRun(BookNext(b, ops[0]), ops[1..])
  }

  lemma {:induction false} OlderIsRemoved(prev: seq<Addr>, current: Addr, addr: Addr)
    requires current !in prev
    ensures Older(prev, current, addr) == Removed(prev, addr)
  {
    if prev != [] {
      OlderIsRemoved(prev[1..], current, addr);
    }
  }

  lemma {:induction false} RemovedAbsent(list: seq<Addr>, addr: Addr)
    requires addr !in list
    ensures Removed(list, addr) == list
  {
    if list != [] {
      RemovedAbsent(list[1..], addr);
    }
  }

  /** A pin that moves, or stays, brings the address to the front. */
  lemma PinToFront(pin: Pin, addr: Addr)
    requires Distinct(Addrs(pin)) && |pin.prev| <= MAX_PREV
    ensures pin.vpnAddr != addr ==> [addr] + Limit(Previous(pin, addr)) == ToFront(Addrs(pin), addr)
    ensures pin.vpnAddr == addr ==> Addrs(pin) == ToFront(Addrs(pin), addr)
  {
    FrontDistinct(pin.vpnAddr, pin.prev);
    assert Addrs(pin)[1..] == pin.prev;
    if pin.vpnAddr == addr {
      RemovedAbsent(pin.prev, addr);
    } else {
      OlderIsRemoved(pin.prev, pin.vpnAddr, addr);
      assert Removed(Addrs(pin), addr) == Previous(pin, addr);
    }
  }

  lemma PassesIffFree(fp: Key -> Fingerprint, s: Pins, addr: Addr, k: Key)
    requires Inv(fp, s)
    ensures Passes(s, addr, k, fp(k)) <==> Free(BookOf(s), addr, k)
  {
    hide Distinct;
    if addr in s.vpnToPub {
      var j := s.vpnToPub[addr];
      assert Reserved(s, addr, j);
      assert j in BookOf(s) && addr in BookOf(s)[j];
    }
    forall j | j in BookOf(s) && addr in BookOf(s)[j] ensures addr in s.vpnToPub && s.vpnToPub[addr] == j {
      assert Reserved(s, addr, j);
    }
    if k in s.pins {
      assert PinOk(fp, k, s.pins[k]);
      assert Reserved(s, s.pins[k].vpnAddr, k);
    }
  }

  lemma CheckIsBooked(fp: Key -> Fingerprint, s: Pins, addr: Addr, k: Key)
    requires Inv(fp, s)
    ensures BookOf(Next(fp, s, Check(addr, k))) == BookNext(BookOf(s), Check(addr, k))
  {
    hide Inv, Distinct, ToFront, Limit, Released, Previous, Free, Taken;
    PassesIffFree(fp, s, addr, k);
    if Passes(s, addr, k, fp(k)) {
      if k in s.pins {
        PinHolds(fp, s, k);
        PinToFront(s.pins[k], addr);
      } else {
        NewToFront(addr);
        assert Addrs(Pin(fp(k), k, addr, [])) == [addr];
      }
    }
  }

  lemma PinHolds(fp: Key -> Fingerprint, s: Pins, k: Key)
    requires Inv(fp, s) && k in s.pins
    ensures Distinct(Addrs(s.pins[k])) && |s.pins[k].prev| <= MAX_PREV
  {
    assert PinOk(fp, k, s.pins[k]);
  }

  lemma NewToFront(addr: Addr)
    ensures ToFront([], addr) == [addr]
  {}

  lemma ForgetIsBooked(fp: Key -> Fingerprint, s: Pins, op: Op)
    requires Inv(fp, s) && !op.Check?
    ensures BookOf(Next(fp, s, op)) == BookNext(BookOf(s), op)
  {
    hide Distinct;
    match op {
      case Forget(k) =>
        if k in s.pins {
          assert PinOk(fp, k, s.pins[k]);
        }
      case ForgetAddr(addr) =>
        forall j | j in s.pins && addr in Addrs(s.pins[j]) ensures addr in s.vpnToPub && s.vpnToPub[addr] == j {
          assert Reserved(s, addr, j);
        }
        if addr in s.vpnToPub {
          assert Reserved(s, addr, s.vpnToPub[addr]) && PinOk(fp, s.vpnToPub[addr], s.pins[s.vpnToPub[addr]]);
        }
    }
  }

  lemma {:induction false} RunIsBooked(fp: Key -> Fingerprint, s: Pins, ops: seq<Op>)
    requires Inv(fp, s)
    ensures BookOf(Run(fp, s, ops)) == BookRun(BookOf(s), ops) && Inv(fp, Run(fp, s, ops))
    decreases |ops|
  {
    hide Inv, Next, BookNext, BookOf;
    if ops != [] {
      NextKeepsInv(fp, s, ops[0]);
      if ops[0].Check? {
        CheckIsBooked(fp, s, ops[0].addr, ops[0].key);
      } else {
        ForgetIsBooked(fp, s, ops[0]);
      }
      RunIsBooked(fp, Next(fp, s, ops[0]), ops[1..]);
    }
  }

  /**
   Over every run from an empty store, a key is let in at an address exactly if the book
   shows it held by no other key, and what each key holds is what the book shows.
   */
  lemma StoreIsBook(fp: Key -> Fingerprint, ops: seq<Op>, addr: Addr, k: Key)
    ensures var s := Run(fp, Pins(map[], map[]), ops);
            var b := BookRun(map[], ops);
            && (Passes(s, addr, k, fp(k)) <==> Free(b, addr, k))
            && (forall a, j :: Reserved(s, a, j) <==> j in b && a in b[j])
            && (k in s.pins <==> k in b) && (k in b ==> b[k] != [] && s.pins[k].vpnAddr == b[k][0])
  {
    var start := Pins(map[], map[]);
    assert BookOf(start) == map[];
    RunIsBooked(fp, start, ops);
    PassesIffFree(fp, Run(fp, start, ops), addr, k);
  }

  // ----- How long an address stays reserved

  /** The operation drops the pin of `k`. */
  predicate Forgets(s: Pins, op: Op, k: Key) {
    match op
    case Check(_, _) => false
    case Forget(j) => j == k
    case ForgetAddr(addr) => addr in s.vpnToPub && s.vpnToPub[addr] == k
  }

  /** The operation moves the pin of `k` to another address. */
  predicate Moves(fp: Key -> Fingerprint, s: Pins, op: Op, k: Key) {
    op.Check? && op.key == k && k in s.pins && Passes(s, op.addr, k, fp(k)) && s.pins[k].vpnAddr != op.addr
  }

  /** How many addresses reserved for `k` are newer than `a`. */
  function Age(s: Pins, k: Key, a: Addr): nat
    requires k in s.pins
  {
    Rank(Addrs(s.pins[k]), a)
  }

  /** The addresses that stand before `a`. */
  function Ahead(s: seq<Addr>, a: Addr): set<Addr> {
    if s == [] || s[0] == a then {} else {s[0]} + Ahead(s[1..], a)
  }

  lemma {:induction false} AheadIn(s: seq<Addr>, a: Addr, b: Addr)
    ensures b in Ahead(s, a) ==> b in s && b != a
  {
    if s != [] && s[0] != a {
      AheadIn(s[1..], a, b);
    }
  }

  lemma {:induction false} AheadSize(s: seq<Addr>, a: Addr)
    requires Distinct(s)
    ensures |Ahead(s, a)| == Rank(s, a)
  {
    if s != [] && s[0] != a {
      assert s == [s[0]] + s[1..];
      FrontDistinct(s[0], s[1..]);
      AheadSize(s[1..], a);
      AheadIn(s[1..], a, s[0]);
    }
  }

  lemma {:induction false} AheadOlder(prev: seq<Addr>, current: Addr, addr: Addr, a: Addr)
    requires a in prev && a != addr && a != current
    ensures Ahead(Older(prev, current, addr), a) == Ahead(prev, a) - {current, addr}
  {
    if prev[0] != a {
      AheadOlder(prev[1..], current, addr, a);
      assert ([prev[0]] + Older(prev[1..], current, addr))[1..] == Older(prev[1..], current, addr);
    } else {
      assert Older(prev, current, addr)[0] == a;
    }
  }

  lemma {:induction false} AheadPrefix(s: seq<Addr>, n: nat, a: Addr)
    requires n <= |s| && Rank(s, a) < n
    ensures a in s[..n] && Ahead(s[..n], a) == Ahead(s, a)
  {
    if s[0] != a {
      assert s[..n][1..] == s[1..][..n - 1];
      AheadPrefix(s[1..], n - 1, a);
    } else {
      assert s[..n][0] == a;
    }
  }

  lemma AheadFront(x: Addr, s: seq<Addr>, a: Addr)
    ensures x != a ==> Ahead([x] + s, a) == {x} + Ahead(s, a) && Rank([x] + s, a) == 1 + Rank(s, a)
    ensures Ahead([a] + s, a) == {}
  {
    assert ([x] + s)[1..] == s;
  }

  /** Before the limit is applied, a move puts its own address ahead of every other one and changes nothing else. */
  lemma FullAhead(pin: Pin, addr: Addr, a: Addr)
    requires Distinct(Addrs(pin)) && pin.vpnAddr != addr && a in Addrs(pin) && a != addr
    ensures var full := Previous(pin, addr);
            && Distinct(full) && a in full && addr !in full
            && {addr} + Ahead(full, a) == Ahead(Addrs(pin), a) + {addr}
  {
    hide Distinct;
    var older := Older(pin.prev, pin.vpnAddr, addr);
    FrontDistinct(pin.vpnAddr, pin.prev);
    OlderKeepsOrder(pin.prev, pin.vpnAddr, addr);
    FrontDistinct(pin.vpnAddr, older);
    AheadFront(pin.vpnAddr, older, a);
    AheadFront(pin.vpnAddr, pin.prev, a);
    if a != pin.vpnAddr {
      AheadOlder(pin.prev, pin.vpnAddr, addr, a);
    }
  }

  /** A move adds its address to those ahead of `a`, and keeps `a` exactly while these are at most sixteen. */
  lemma MoveAhead(pin: Pin, addr: Addr, a: Addr)
    requires Distinct(Addrs(pin)) && pin.vpnAddr != addr && a in Addrs(pin) && a != addr
    ensures var after := [addr] + Limit(Previous(pin, addr));
            var newer := Ahead(Addrs(pin), a) + {addr};
            && (a in after <==> |newer| <= MAX_PREV)
            && (a in after ==> Ahead(after, a) == newer)
  {
    var full := Previous(pin, addr);
    FullAhead(pin, addr, a);
    hide Distinct, Previous, Ahead;
    AheadSize(full, a);
    AheadIn(full, a, addr);
    AddOne(Ahead(full, a), addr);
    assert Ahead(full, a) + {addr} == {addr} + Ahead(full, a);
    AheadFront(addr, Limit(full), a);
    if |full| > MAX_PREV {
      if Rank(full, a) < MAX_PREV {
        AheadPrefix(full, MAX_PREV, a);
      } else {
        NotInPrefix(full, MAX_PREV, a);
      }
    }
  }

  lemma {:induction false} NotInPrefix(s: seq<Addr>, n: nat, a: Addr)
    requires n <= |s| && n <= Rank(s, a)
    ensures a !in s[..n]
  {
    if n > 0 {
      assert s[..n] == [s[0]] + s[1..][..n - 1];
      NotInPrefix(s[1..], n - 1, a);
    }
  }

  /**
   The distinct addresses the key has moved to since it was last at `a`, told from the
   operations alone: each move adds its address, and a move to `a` starts afresh.
   */
  function NewerAfter(fp: Key -> Fingerprint, s: Pins, op: Op, k: Key, a: Addr, newer: set<Addr>): set<Addr> {
    if !Moves(fp, s, op, k) then newer else if op.addr == a then {} else newer + {op.addr}
  }

  /** `a` is reserved for `k`, so every other key is refused there and nothing changes. */
  ghost predicate Guarded(fp: Key -> Fingerprint, s: Pins, k: Key, a: Addr) {
    Reserved(s, a, k) && forall j :: j != k ==> !Passes(s, a, j, fp(j)) && Checked(s, a, j, fp(j)) == s
  }

  /** `a` is guarded for `k` in every state of the run. */
  ghost predicate GuardedThroughout(fp: Key -> Fingerprint, s: Pins, ops: seq<Op>, k: Key, a: Addr)
    decreases |ops|
  {
    Guarded(fp, s, k, a) && (ops != [] ==> GuardedThroughout(fp, Next(fp, s, ops[0]), ops[1..], k, a))
  }

  /** The key is never forgotten, and never has more than sixteen addresses newer than `a`. */
  ghost predicate Undisturbed(fp: Key -> Fingerprint, s: Pins, ops: seq<Op>, k: Key, a: Addr, newer: set<Addr>)
    decreases |ops|
  {
    && |newer| <= MAX_PREV
    && (ops != [] ==>
          && !Forgets(s, ops[0], k)
          && Undisturbed(fp, Next(fp, s, ops[0]), ops[1..], k, a, NewerAfter(fp, s, ops[0], k, a, newer)))
  }

  /** The pin of a key after a check. */
  lemma CheckedPin(fp: Key -> Fingerprint, s: Pins, op: Op, k: Key)
    requires op.Check? && k in s.pins
    ensures var t := Next(fp, s, op);
            && k in t.pins
            && (!Moves(fp, s, op, k) ==> t.pins[k] == s.pins[k])
            && (Moves(fp, s, op, k) ==> Addrs(t.pins[k]) == [op.addr] + Limit(Previous(s.pins[k], op.addr)))
  {}

  /** The pin of a key after it, or another key, was forgotten. */
  lemma ForgottenPin(fp: Key -> Fingerprint, s: Pins, op: Op, k: Key)
    requires Inv(fp, s) && !op.Check? && k in s.pins
    ensures var t := Next(fp, s, op);
            && (k in t.pins <==> !Forgets(s, op, k))
            && (k in t.pins ==> t.pins[k] == s.pins[k])
  {
    hide Distinct;
    match op
    case Forget(j) =>
      if j in s.pins {
        assert PinOk(fp, j, s.pins[j]);
      }
    case ForgetAddr(addr) =>
      if addr in s.vpnToPub {
        assert Reserved(s, addr, s.vpnToPub[addr]) && PinOk(fp, s.vpnToPub[addr], s.pins[s.vpnToPub[addr]]);
      }
  }

  /** One operation: whether `a` stays reserved, and what is ahead of it then. */
  lemma StepAhead(fp: Key -> Fingerprint, s: Pins, op: Op, k: Key, a: Addr)
    requires Inv(fp, s) && Reserved(s, a, k)
    ensures var t := Next(fp, s, op);
            var newer := NewerAfter(fp, s, op, k, a, Ahead(Addrs(s.pins[k]), a));
            && (Reserved(t, a, k) <==> !Forgets(s, op, k) && |newer| <= MAX_PREV)
            && (Reserved(t, a, k) ==> Ahead(Addrs(t.pins[k]), a) == newer)
  {
    hide Next, Distinct, Limit, Previous, Ahead, Addrs;
    var pin := s.pins[k];
    AheadBounded(fp, s, k, a);
    if op.Check? {
      CheckedPin(fp, s, op, k);
      if Moves(fp, s, op, k) {
        AheadFront(op.addr, Limit(Previous(pin, op.addr)), a);
        if a != op.addr {
          assert PinOk(fp, k, pin);
          MovesElsewhere(fp, s, op, k);
          MoveAhead(pin, op.addr, a);
        }
      }
    } else {
      ForgottenPin(fp, s, op, k);
    }
  }

  lemma MovesElsewhere(fp: Key -> Fingerprint, s: Pins, op: Op, k: Key)
    requires Moves(fp, s, op, k)
    ensures op.addr != s.pins[k].vpnAddr
  {}

  lemma ReservedIsGuarded(fp: Key -> Fingerprint, s: Pins, k: Key, a: Addr)
    requires Inv(fp, s)
    ensures Guarded(fp, s, k, a) <==> Reserved(s, a, k)
  {
    if Reserved(s, a, k) {
      forall j | j != k ensures !Passes(s, a, j, fp(j)) {
        assert s.vpnToPub[a] == k;
        if j in s.pins {
          OthersElsewhere(fp, s, k, a, j);
        }
      }
    }
  }

  /**
   Over every run, an address reserved for a key stays reserved, and refused to every
   other key, exactly until the key is forgotten or has moved to more than sixteen
   distinct addresses since it was last there.
   */
  lemma {:induction false} StaysReserved(fp: Key -> Fingerprint, s: Pins, ops: seq<Op>, k: Key, a: Addr)
    requires Inv(fp, s) && Reserved(s, a, k)
    ensures GuardedThroughout(fp, s, ops, k, a) <==> Undisturbed(fp, s, ops, k, a, Ahead(Addrs(s.pins[k]), a))
    decreases |ops|
  {
    hide Next, Guarded, Moves, Forgets, Inv, Reserved, Ahead;
    ReservedIsGuarded(fp, s, k, a);
    AheadBounded(fp, s, k, a);
    if ops != [] {
      var t := Next(fp, s, ops[0]);
      StepAhead(fp, s, ops[0], k, a);
      NextKeepsInv(fp, s, ops[0]);
      if Reserved(t, a, k) {
        StaysReserved(fp, t, ops[1..], k, a);
      } else {
        ReservedIsGuarded(fp, t, k, a);
      }
    }
  }

  lemma AheadBounded(fp: Key -> Fingerprint, s: Pins, k: Key, a: Addr)
    requires Inv(fp, s) && Reserved(s, a, k)
    ensures k in s.pins && |Ahead(Addrs(s.pins[k]), a)| <= MAX_PREV
  {
    assert PinOk(fp, k, s.pins[k]);
    AheadSize(Addrs(s.pins[k]), a);
  }

  lemma OthersElsewhere(fp: Key -> Fingerprint, s: Pins, k: Key, a: Addr, j: Key)
    requires Inv(fp, s) && Reserved(s, a, k) && j in s.pins && j != k
    ensures s.pins[j].vpnAddr != a
  {
    if s.pins[j].vpnAddr == a {
      assert Addrs(s.pins[j])[0] == a;
      assert Reserved(s, a, j);
    }
  }

  /**
   The bound is exact: a move releases an address exactly when sixteen newer ones are
   reserved already and the move is to an address not reserved for the key.
   */
  lemma ReleasedIff(fp: Key -> Fingerprint, s: Pins, k: Key, addr: Addr, a: Addr)
    requires Inv(fp, s) && Moves(fp, s, Check(addr, k), k) && Reserved(s, a, k)
    ensures var t := Next(fp, s, Check(addr, k));
            && (Reserved(t, a, k) <==> !(Age(s, k, a) == MAX_PREV && !Reserved(s, addr, k)))
            && (!Reserved(t, a, k) ==> a !in t.vpnToPub)
  {
    hide Distinct, Limit, Previous, Ahead, Released, Rank;
    var pin := s.pins[k];
    assert PinOk(fp, k, pin);
    StepAhead(fp, s, Check(addr, k), k, a);
    RoomIff(Addrs(pin), addr, a);
    MoveKeepsInv(fp, s, k, addr);
    assert Moved(s, k, addr) == Next(fp, s, Check(addr, k));
  }

  lemma RoomIff(s: seq<Addr>, addr: Addr, a: Addr)
    requires Distinct(s) && a in s && |s| <= MAX_PREV + 1
    ensures a != addr ==> (|Ahead(s, a) + {addr}| <= MAX_PREV <==> !(Rank(s, a) == MAX_PREV && addr !in s))
  {
    hide Ahead, Rank, Distinct;
    AheadSize(s, a);
    AddOne(Ahead(s, a), addr);
    AheadIn(s, a, addr);
    if Rank(s, a) == MAX_PREV {
      LastHasAllAhead(s);
    }
  }

  lemma {:induction false} LastHasAllAhead(s: seq<Addr>)
    requires Distinct(s) && s != []
    ensures forall b :: b in s && b != s[|s| - 1] ==> b in Ahead(s, s[|s| - 1])
  {
    assert s == [s[0]] + s[1..];
    if |s| > 1 {
      assert s[1..][|s| - 2] == s[|s| - 1] && s[0] != s[|s| - 1];
      LastHasAllAhead(s[1..]);
    }
  }
}
