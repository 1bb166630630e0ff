/**
 The coordinator's registry of networks and peers: who is registered, which VPN address
 each peer holds, and, per network, every address ever handed out with the time it was
 last freed. Each operation is one database transaction.
 */
module Registry {
  import opened Wrappers
  import opened Names

  type NetID = string
  type PeerID = string
  type Addr = nat

  /** A network prefix: an address in it and the number of addresses it spans. */
  datatype Cidr = Cidr(addr: Addr, size: nat) {
    ghost predicate Valid() {
      size > 0
    }

    function Base(): nat
      requires size > 0
    {
      addr - addr % size
    }

    predicate Contains(a: Addr)
      requires size > 0
    {
      Base() <= a < Base() + size
    }

    /** An address that can be given to a peer: neither the network's first nor its last. */
    predicate Host(a: Addr)
      requires size > 0
    {
      Base() < a && Contains(a + 1)
    }
  }

  /** `history` maps an address to when it was last freed, or 0 while it is held; absent in records of older versions. */
  datatype NetRec = NetRec(cidr: Cidr, nextIP: Option<Addr>, machineCount: int, history: Option<map<Addr, int>>)

  datatype PeerRec = PeerRec(
    networkID: NetID,
    name: string,
    vpnAddr: Addr,
    x25519: string,
    subnetRoutes: seq<string>,
    lastSeen: int,
    registeredAt: int)

  /** What a registering peer sends. */
  datatype Claim = Claim(
    id: PeerID,
    name: string,
    x25519: string,
    subnetRoutes: seq<string>,
    lastSeen: int,
    registeredAt: int,
    endpoint: string)

  datatype Error = PeerIDTaken | PeerKeyMismatch | NetworkNotFound | NetworkExists | MachineLimit | AddressSpaceExhausted | PeerNotFound

  datatype DB = DB(networks: map<NetID, NetRec>, peers: map<PeerID, PeerRec>)

  const HOUR := 3600
  const MAX_FALLBACK_HOSTS := 65536

  /** Down to the hour; zero and negative values are kept. */
  function RoundToHour(secs: int): int {
    if secs <= 0 then secs else secs - secs % HOUR
  }

  /** The latest full hour, for a time after the epoch. */
  lemma RoundedByNumbers(secs: int)
    ensures secs > 0 ==> RoundToHour(secs) % 3600 == 0 && 0 <= secs - RoundToHour(secs) < 3600
    ensures secs <= 0 ==> RoundToHour(secs) == secs
  {}

  /** The network's addresses are a block of its size that starts at a multiple of the size and holds the prefix's address. */
  lemma CidrByNumbers(c: Cidr, a: Addr)
    requires c.Valid()
    ensures (exists q: nat {:trigger q * c.size} :: c.Base() == q * c.size) && c.Base() <= c.addr < c.Base() + c.size
    ensures c.Contains(a) <==> c.Base() <= a < c.Base() + c.size
    ensures c.Host(a) <==> c.Base() < a < c.Base() + c.size - 1
  {
    var q := c.addr / c.size;
    assert c.Base() == q * c.size;
  }

  // ----- Specification of the pieces

  ghost function Members(db: DB, net: NetID): set<PeerID> {
    set id | id in db.peers && db.peers[id].networkID == net
  }

  ghost function Used(db: DB, net: NetID): set<Addr> {
    set id | id in Members(db, net) :: db.peers[id].vpnAddr
  }

  /** Another peer of the network holds the name. */
  ghost predicate NameTaken(db: DB, net: NetID, id: PeerID, name: string) {
    exists other <- Members(db, net) :: other != id && SameName(db.peers[other].name, name)
  }

  function HostCount(c: Cidr): nat {
    if c.size < 2 then 0 else c.size - 2
  }

  /** The addresses from `lo` up to, but not including, `hi`. */
  function Range(lo: Addr, hi: int): (r: set<Addr>)
    ensures forall a :: a in r <==> lo <= a < hi
    decreases hi - lo
  {
    if lo >= hi then {} else {lo} + Range(lo + 1, hi)
  }

  /** Addresses an older version may have handed out and taken back. */
  ghost function PossiblyFreed(n: NetRec): set<Addr>
    requires n.cidr.Valid()
  {
    if n.nextIP.Some? && n.cidr.Contains(n.nextIP.value) then
      Range(n.cidr.Base() + 1, n.nextIP.value)
    else if HostCount(n.cidr) > MAX_FALLBACK_HOSTS then {}
    else Range(n.cidr.Base() + 1, n.cidr.Base() + n.cidr.size - 1)
  }

  /** A record of an older version gets its history: held addresses, and possibly freed ones with the oldest time. */
  ghost function Migrated(n: NetRec, used: set<Addr>): NetRec
    requires n.cidr.Valid()
  {
    if n.history.Some? then n
    else n.(history := Some(map a | a in used + PossiblyFreed(n) :: if a in used then 0 else 1))
  }

  ghost predicate Unrecorded(c: Cidr, used: set<Addr>, history: map<Addr, int>, a: Addr)
    requires c.Valid()
  {
    c.Host(a) && a !in used && a !in history
  }

  ghost predicate Freed(c: Cidr, used: set<Addr>, history: map<Addr, int>, a: Addr)
    requires c.Valid()
  {
    c.Host(a) && a !in used && a in history && history[a] > 0
  }

  /**
   The address a new peer gets: the least host address never handed out; if there is
   none, the one freed first, the lower of two freed at once; if there is none, nothing.
   */
  ghost predicate Picks(c: Cidr, used: set<Addr>, history: map<Addr, int>, pick: Option<Addr>)
    requires c.Valid()
  {
    if exists a :: Unrecorded(c, used, history, a) then
      pick.Some? && Unrecorded(c, used, history, pick.value)
      && forall a :: Unrecorded(c, used, history, a) ==> pick.value <= a
    else if exists a :: Freed(c, used, history, a) then
      pick.Some? && Freed(c, used, history, pick.value)
      && forall a :: Freed(c, used, history, a) ==> Before(history, pick.value, a)
    else pick.None?
  }

  /** The network's record once it has handed out `a`. */
  function HandedOut(n: NetRec, a: Addr): NetRec
    requires n.cidr.size > 0 && n.history.Some?
  {
    var next :=
      if n.nextIP.Some? && (!n.cidr.Contains(n.nextIP.value) || a >= n.nextIP.value) && n.cidr.Contains(a + 1)
      then Some(a + 1) else n.nextIP;
    n.(history := Some(n.history.value[a := 0]), nextIP := next, machineCount := n.machineCount + 1)
  }

  // ----- Operations as steps of the database

  ghost function NameFor(db: DB, claim: Claim, net: NetID): string {
    if claim.name != "" && NameTaken(db, net, claim.id, claim.name) then "" else claim.name
  }

  /** Registering: the database afterwards and the answer. A refusal changes nothing. */
  ghost predicate Registers(db: DB, claim: Claim, net: NetID, maxMachines: int, db': DB, r: Result<Addr, Error>)
    requires forall n :: n in db.networks ==> db.networks[n].cidr.Valid()
  {
    if claim.id in db.peers then
      var rec := db.peers[claim.id];
      if rec.networkID != net then db' == db && r == Err(PeerIDTaken)
      else if rec.x25519 != claim.x25519 then db' == db && r == Err(PeerKeyMismatch)
      else
        && r == Ok(rec.vpnAddr)
        && db' == db.(peers := db.peers[claim.id := rec.(lastSeen := RoundToHour(claim.lastSeen),
                                                         name := NameFor(db, claim, net),
                                                         subnetRoutes := claim.subnetRoutes)])
    else if net !in db.networks then db' == db && r == Err(NetworkNotFound)
    else if maxMachines > 0 && db.networks[net].machineCount >= maxMachines then db' == db && r == Err(MachineLimit)
    else Joins(db, claim, net, db', r)
  }

  /** A new peer joins, if there is an address for it. */
  ghost predicate Joins(db: DB, claim: Claim, net: NetID, db': DB, r: Result<Addr, Error>)
    requires net in db.networks && db.networks[net].cidr.Valid()
  {
    var used := Used(db, net);
    var n := Migrated(db.networks[net], used);
    exists pick :: Picks(n.cidr, used, n.history.value, pick) &&
      if pick.None? then db' == db && r == Err(AddressSpaceExhausted)
      else
        && r == Ok(pick.value)
        && db' == DB(
             db.networks[net := HandedOut(n, pick.value)],
             db.peers[claim.id := PeerRec(net, NameFor(db, claim, net), pick.value, claim.x25519, claim.subnetRoutes,
                                          RoundToHour(claim.lastSeen), claim.registeredAt)])
  }

  /** Removing a peer records when its address was freed. */
  ghost function Removed(db: DB, id: PeerID, now: int): DB
    requires forall n :: n in db.networks ==> db.networks[n].cidr.Valid()
  {
    if id !in db.peers then db
    else
      var rec := db.peers[id];
      var rest := db.(peers := db.peers - {id});
      if rec.networkID !in db.networks then rest
      else
        var n := Migrated(Decremented(db.networks[rec.networkID]), Used(rest, rec.networkID));
        rest.(networks := db.networks[rec.networkID := n.(history := Some(n.history.value[rec.vpnAddr := now]))])
  }

  function Decremented(n: NetRec): NetRec {
    if n.machineCount > 0 then n.(machineCount := n.machineCount - 1) else n
  }

  /** The sweep's removal of one stale peer does not record the address as freed. */
  function Expelled(db: DB, id: PeerID): DB {
    if id !in db.peers then db
    else
      var net := db.peers[id].networkID;
      DB(if net in db.networks then db.networks[net := Decremented(db.networks[net])] else db.networks, db.peers - {id})
  }

  function ExpelledAll(db: DB, ids: seq<PeerID>): DB {
    if ids == [] then db else Expelled(ExpelledAll(db, ids[..|ids| - 1]), ids[|ids| - 1])
  }

  /** Not seen since the cutoff; a peer that never sent a heartbeat is judged by when it registered. */
  predicate Stale(rec: PeerRec, cutoff: int) {
    (if rec.lastSeen == 0 then rec.registeredAt else rec.lastSeen) < cutoff
  }

  ghost predicate Sweeps(db: DB, cutoff: int, skip: PeerID -> bool, ids: seq<PeerID>) {
    && (forall i, j :: 0 <= i < j < |ids| ==> ids[i] != ids[j])
    && (forall id :: id in ids <==> id in db.peers && Stale(db.peers[id], cutoff) && !skip(id))
  }

  function Created(db: DB, net: NetID, cidr: Cidr): DB {
    if net in db.networks then db
    else db.(networks := db.networks[net := NetRec(cidr, Some(cidr.addr + 1), 0, Some(map[]))])
  }

  // ----- The registry

  class Registry {
    var networks: map<NetID, NetRec>
    var peers: map<PeerID, PeerRec>
    /** Endpoints are kept in memory only. */
    var endpoints: map<PeerID, string>

    ghost function Value(): DB
      reads this
    {
      DB(networks, peers)
    }

    ghost predicate Valid()
      reads this
    {
      forall n :: n in networks ==> networks[n].cidr.Valid()
    }

    constructor ()
      ensures Valid() && Value() == DB(map[], map[]) && endpoints == map[]
    {
      networks, peers, endpoints := map[], map[], map[];
    }

    method CreateNetwork(net: NetID, cidr: Cidr) returns (ok: bool)
      requires Valid() && cidr.Valid()
      modifies this`networks
      ensures Valid() && Value() == Created(old(Value()), net, cidr)
      ensures ok <==> net !in old(networks)
    {
      if net in networks {
        return false;
      }
      networks := networks[net := NetRec(cidr, Some(cidr.addr + 1), 0, Some(map[]))];
      return true;
    }

    method UsedAddrs(net: NetID) returns (used: set<Addr>)
      ensures used == Used(Value(), net)
    {
      used := {};
      var todo := peers.Keys;
      while todo != {}
        invariant todo <= peers.Keys
        invariant used == set id | id in Members(Value(), net) && id !in todo :: peers[id].vpnAddr
        decreases todo
      {
        var id :| id in todo;
        todo := todo - {id};
        if peers[id].networkID == net {
          used := used + {peers[id].vpnAddr};
        }
      }
    }

    method IsNameTaken(net: NetID, id: PeerID, name: string) returns (taken: bool)
      ensures taken <==> NameTaken(Value(), net, id, name)
    {
      taken := false;
      var todo := peers.Keys;
      while todo != {}
        invariant todo <= peers.Keys
        invariant taken <==> exists other <- Members(Value(), net) - todo :: other != id && SameName(peers[other].name, name)
        decreases todo
      {
        var other :| other in todo;
        todo := todo - {other};
        if peers[other].networkID == net && other != id && SameName(peers[other].name, name) {
          taken := true;
        }
      }
    }

    /** Fills in the history a record of an older version lacks. */
    static method MigrateAssignedAddrs(n: NetRec, used: set<Addr>) returns (m: NetRec)
      requires n.cidr.Valid()
      ensures m == Migrated(n, used)
    {
      if n.history.Some? {
        return n;
      }
      var history: map<Addr, int> := map a | a in used :: 0;
      var first := n.cidr.Base() + 1;
      var last := first;
      if n.nextIP.None? || !n.cidr.Contains(n.nextIP.value) {
        var hostCount := 0;
        var a := first;
        while n.cidr.Contains(a + 1)
          invariant first <= a && hostCount == a - first
          invariant a > first ==> n.cidr.Contains(a)
          decreases n.cidr.Base() + n.cidr.size - a
        {
          hostCount := hostCount + 1;
          a := a + 1;
        }
        assert hostCount == HostCount(n.cidr);
        if hostCount > MAX_FALLBACK_HOSTS {
          assert used + PossiblyFreed(n) == used;
          assert history == Migrated(n, used).history.value;
          return n.(history := Some(history));
        }
        last := a;
      } else {
        last := n.nextIP.value;
      }
      var a := first;
      while a < last
        invariant first <= a
        invariant history.Keys == used + Range(first, if a < last then a else last)
        invariant forall b :: b in history ==> history[b] == if b in used then 0 else 1
        decreases last - a
      {
        if a !in used {
          history := history[a := 1];
        }
        a := a + 1;
      }
      assert Range(first, last) == PossiblyFreed(n);
      assert history == Migrated(n, used).history.value;
      m := n.(history := Some(history));
    }

    /** Scans the host addresses in order. */
    static method Allocate(c: Cidr, used: set<Addr>, history: map<Addr, int>) returns (pick: Option<Addr>)
      requires c.Valid()
      ensures Picks(c, used, history, pick)
    {
      var oldestFreed: Option<Addr> := None;
      var oldestFreedTime := -1;
      var a := c.Base() + 1;
      while c.Contains(a + 1)
        invariant c.Base() < a
        invariant forall b: Addr :: b < a ==> !Unrecorded(c, used, history, b)
        invariant oldestFreed.None? ==> oldestFreedTime == -1 && forall b: Addr :: b < a ==> !Freed(c, used, history, b)
        invariant oldestFreed.Some? ==>
            && Freed(c, used, history, oldestFreed.value) && oldestFreedTime == history[oldestFreed.value]
            && oldestFreed.value < a
            && forall b: Addr :: b < a && Freed(c, used, history, b) ==> Before(history, oldestFreed.value, b)
        decreases c.Base() + c.size - a
      {
        if a !in used {
          if a in history {
            if history[a] > 0 {
              if oldestFreedTime == -1 || history[a] < oldestFreedTime {
                oldestFreedTime := history[a];
                oldestFreed := Some(a);
              }
            }
          } else {
            assert Unrecorded(c, used, history, a);
            return Some(a);
          }
        }
        a := a + 1;
      }
      assert forall b: Addr :: c.Host(b) ==> b < a;
      pick := oldestFreed;
    }

    method RegisterPeer(claim: Claim, net: NetID, maxMachines: int) returns (r: Result<Addr, Error>)
      requires Valid()
      modifies this
      ensures Valid() && Registers(old(Value()), claim, net, maxMachines, Value(), r)
      ensures endpoints == if r.Ok? then old(endpoints)[claim.id := claim.endpoint] else old(endpoints)
    {
      var name := claim.name;
      if name != "" {
        var taken := IsNameTaken(net, claim.id, name);
        if taken {
          name := "";
        }
      }
      if claim.id in peers {
        var rec := peers[claim.id];
        if rec.networkID != net {
          return Err(PeerIDTaken);
        }
        if rec.x25519 != claim.x25519 {
          return Err(PeerKeyMismatch);
        }
        peers := peers[claim.id := rec.(lastSeen := RoundToHour(claim.lastSeen), name := name, subnetRoutes := claim.subnetRoutes)];
        endpoints := endpoints[claim.id := claim.endpoint];
        return Ok(rec.vpnAddr);
      }
      if net !in networks {
        return Err(NetworkNotFound);
      }
      if maxMachines > 0 && networks[net].machineCount >= maxMachines {
        return Err(MachineLimit);
      }
      r := Join(claim, net, name);
    }

    method Join(claim: Claim, net: NetID, name: string) returns (r: Result<Addr, Error>)
      requires Valid() && net in networks && claim.id !in peers && name == NameFor(Value(), claim, net)
      modifies this
      ensures Valid() && Joins(old(Value()), claim, net, Value(), r)
      ensures endpoints == if r.Ok? then old(endpoints)[claim.id := claim.endpoint] else old(endpoints)
    {
      hide Picks, Used, PossiblyFreed, NameFor;
      var used := UsedAddrs(net);
      var n := MigrateAssignedAddrs(networks[net], used);
      var pick := Allocate(n.cidr, used, n.history.value);
      if pick.None? {
        return Err(AddressSpaceExhausted);
      }
      networks := networks[net := HandedOut(n, pick.value)];
      peers := peers[claim.id := PeerRec(net, name, pick.value, claim.x25519, claim.subnetRoutes,
                                         RoundToHour(claim.lastSeen), claim.registeredAt)];
      endpoints := endpoints[claim.id := claim.endpoint];
      return Ok(pick.value);
    }

    method RemovePeer(id: PeerID, now: int) returns (r: Result<PeerRec, Error>)
      requires Valid()
      modifies this
      ensures Valid() && Value() == Removed(old(Value()), id, now)
      ensures r == if id in old(peers) then Ok(old(peers)[id]) else Err(PeerNotFound)
      ensures endpoints == if id in old(peers) then old(endpoints) - {id} else old(endpoints)
    {
      hide Used, PossiblyFreed;
      if id !in peers {
        return Err(PeerNotFound);
      }
      var removed := peers[id];
      var net := removed.networkID;
      peers := peers - {id};
      if net in networks {
        var n := Decremented(networks[net]);
        var used := UsedAddrs(net);
        n := MigrateAssignedAddrs(n, used);
        networks := networks[net := n.(history := Some(n.history.value[removed.vpnAddr := now]))];
      }
      endpoints := endpoints - {id};
      return Ok(removed);
    }

    /** Removes the stale peers that are not skipped; their addresses are not recorded as freed. Times are in seconds. */
    method SweepStalePeers(ttl: int, now: int, skip: PeerID -> bool) returns (removed: seq<PeerID>)
      requires Valid()
      modifies this
      ensures Valid() && Value() == ExpelledAll(old(Value()), removed)
      ensures if ttl <= 0 then removed == [] else Sweeps(old(Value()), now - ttl, skip, removed)
      ensures forall id :: id in removed <==>
                && ttl > 0 && id in old(peers) && !skip(id)
                && now - (if old(peers)[id].lastSeen != 0 then old(peers)[id].lastSeen else old(peers)[id].registeredAt) > ttl
      ensures forall i, j :: 0 <= i < j < |removed| ==> removed[i] != removed[j]
      ensures endpoints == old(endpoints) - set id | id in removed
    {
      if ttl <= 0 {
        return [];
      }
      removed := StaleIDs(now - ttl, skip);
      for i := 0 to |removed|
        invariant Valid() && Value() == ExpelledAll(old(Value()), removed[..i])
        invariant endpoints == old(endpoints) - set id | id in removed[..i]
      {
        assert removed[..i + 1][..i] == removed[..i];
        Expel(removed[i]);
      }
      assert removed[..|removed|] == removed;
    }

    method StaleIDs(cutoff: int, skip: PeerID -> bool) returns (ids: seq<PeerID>)
      ensures Sweeps(Value(), cutoff, skip, ids)
    {
      ids := [];
      var todo := peers.Keys;
      while todo != {}
        invariant todo <= peers.Keys
        invariant forall i, j :: 0 <= i < j < |ids| ==> ids[i] != ids[j]
        invariant forall id :: id in ids <==> id in peers && id !in todo && Stale(peers[id], cutoff) && !skip(id)
        decreases todo
      {
        var id :| id in todo;
        todo := todo - {id};
        if Stale(peers[id], cutoff) && !skip(id) {
          ids := ids + [id];
        }
      }
    }

    method Expel(id: PeerID)
      requires Valid()
      modifies this
      ensures Valid() && Value() == Expelled(old(Value()), id) && endpoints == old(endpoints) - {id}
    {
      if id in peers {
        var net := peers[id].networkID;
        peers := peers - {id};
        if net in networks && networks[net].machineCount > 0 {
          networks := networks[net := networks[net].(machineCount := networks[net].machineCount - 1)];
        }
      }
      endpoints := endpoints - {id};
    }
  }

  /** `a` was freed before `b`, or at the same time and is the lower address. */
  ghost predicate Before(history: map<Addr, int>, a: Addr, b: Addr)
    requires a in history && b in history
  {
    history[a] < history[b] || (history[a] == history[b] && a <= b)
  }
}
