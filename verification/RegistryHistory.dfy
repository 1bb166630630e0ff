/**
 What the registry keeps over whole runs of creating networks, registering, removing and
 sweeping peers.
 */
module RegistryHistory {
  import opened Wrappers
  import opened Names
  import opened Registry

  /**
   The database, and for each network every address it has handed out, those its swept
   peers held, and when a removed peer last gave each address back.
   */
  datatype World = World(db: DB, given: map<NetID, set<Addr>>, lost: map<NetID, set<Addr>>, freed: map<NetID, map<Addr, int>>)

  datatype Step =
    | Create(net: NetID, cidr: Cidr)
    | Register(claim: Claim, net: NetID, maxMachines: int)
    | Remove(id: PeerID, now: int)
    | Expel(id: PeerID)

  // ----- The invariant

  ghost predicate UniqueAddrs(db: DB, net: NetID) {
    forall i, j :: i in Members(db, net) && j in Members(db, net) && i != j ==> db.peers[i].vpnAddr != db.peers[j].vpnAddr
  }

  ghost predicate UniqueNames(db: DB, net: NetID) {
    forall i, j :: i in Members(db, net) && j in Members(db, net) && i != j && db.peers[i].name != "" ==>
      !SameName(db.peers[i].name, db.peers[j].name)
  }

  /**
   Every address in `given` is recorded. A record of an older version must be able to tell:
   either its next address lies in the network and above all of them, or the network has at
   most 65536 hosts and they are among these.
   */
  ghost predicate Recorded(n: NetRec, given: set<Addr>)
    requires n.cidr.Valid()
  {
    var base := n.cidr.Base();
    if n.history.Some? then given <= n.history.value.Keys
    else if n.nextIP.Some? && base <= n.nextIP.value < base + n.cidr.size then
      forall a :: a in given ==> base < a < n.nextIP.value
    else
      given == {} || (n.cidr.size <= 65538 && forall a :: a in given ==> base < a && a + 1 < base + n.cidr.size)
  }

  ghost predicate NetOk(db: DB, net: NetID, given: set<Addr>)
    requires net in db.networks
  {
    var n := db.networks[net];
    && n.cidr.Valid()
    && n.machineCount == |Members(db, net)|
    && UniqueAddrs(db, net)
    && UniqueNames(db, net)
    && Used(db, net) <= given
    && Recorded(n, given)
  }

  ghost predicate Inv(w: World) {
    && w.given.Keys == w.db.networks.Keys
    && (forall id :: id in w.db.peers ==> w.db.peers[id].networkID in w.db.networks)
    && (forall net :: net in w.db.networks ==> NetOk(w.db, net, w.given[net]))
  }

  ghost predicate ValidDB(db: DB) {
    forall n :: n in db.networks ==> db.networks[n].cidr.Valid()
  }

  function Grown(sets: map<NetID, set<Addr>>, net: NetID, a: Addr): map<NetID, set<Addr>> {
    if net in sets then sets[net := sets[net] + {a}] else sets
  }

  function FreedAt(times: map<NetID, map<Addr, int>>, net: NetID, a: Addr, now: int): map<NetID, map<Addr, int>> {
    if net !in times then times
    else
      var after: map<Addr, int> := times[net][a := now];
      times[net := after]
  }

  /** A step of the world. A new registration adds to what was handed out, a removal to what was freed, a sweep to what was lost. */
  ghost predicate Takes(w: World, step: Step, w': World) {
    && ValidDB(w.db)
    && match step
       case Create(net, cidr) =>
         && cidr.Valid() && w'.db == Created(w.db, net, cidr)
         && w'.given == (if net in w.db.networks then w.given else w.given[net := {}])
         && w'.lost == (if net in w.db.networks then w.lost else w.lost[net := {}])
         && w'.freed == (if net in w.db.networks then w.freed else w.freed[net := map[]])
       case Register(claim, net, maxMachines) =>
         && w'.lost == w.lost && w'.freed == w.freed
         && exists r :: Registers(w.db, claim, net, maxMachines, w'.db, r) && w'.given == GivenAfter(w, claim, net, r)
       case Remove(id, now) =>
         && w'.db == Removed(w.db, id, now) && w'.given == w.given && w'.lost == w.lost
         && w'.freed == if id in w.db.peers then FreedAt(w.freed, w.db.peers[id].networkID, w.db.peers[id].vpnAddr, now) else w.freed
       case Expel(id) =>
         && w'.db == Expelled(w.db, id) && w'.given == w.given && w'.freed == w.freed
         && w'.lost == if id in w.db.peers then Grown(w.lost, w.db.peers[id].networkID, w.db.peers[id].vpnAddr) else w.lost
  }

  ghost function GivenAfter(w: World, claim: Claim, net: NetID, r: Result<Addr, Error>): map<NetID, set<Addr>> {
    if r.Ok? && claim.id !in w.db.peers then Grown(w.given, net, r.value) else w.given
  }

  lemma InvValid(w: World)
    requires Inv(w)
    ensures ValidDB(w.db)
  {}

  // ----- Networks a step does not touch

  /** The network's record and members are the same in both databases. */
  ghost predicate Untouched(db: DB, db': DB, net: NetID) {
    && net in db.networks && net in db'.networks && db'.networks[net] == db.networks[net]
    && Members(db', net) == Members(db, net)
    && forall id :: id in Members(db, net) ==> db'.peers[id] == db.peers[id]
  }

  lemma UntouchedOk(db: DB, db': DB, net: NetID, given: set<Addr>)
    requires Untouched(db, db', net) && NetOk(db, net, given)
    ensures NetOk(db', net, given) && Used(db', net) == Used(db, net)
  {}

  // ----- Steps

  lemma CreateKeepsInv(w: World, net: NetID, cidr: Cidr, w': World)
    requires Inv(w) && Takes(w, Create(net, cidr), w')
    ensures Inv(w')
  {
    forall m | m in w'.db.networks ensures NetOk(w'.db, m, w'.given[m]) {
      if m in w.db.networks {
        UntouchedOk(w.db, w'.db, m, w.given[m]);
      } else {
        assert Members(w'.db, m) == {};
      }
    }
  }

  /** A step that touches one network keeps the invariant if it does so for that network. */
  lemma OneNetKeepsInv(w: World, w': World, net: NetID)
    requires Inv(w) && net in w.db.networks && w'.db.networks.Keys == w.db.networks.Keys && w'.given.Keys == w.given.Keys
    requires forall m :: m in w.db.networks && m != net ==> w'.given[m] == w.given[m] && Untouched(w.db, w'.db, m)
    requires forall id :: id in w'.db.peers ==> w'.db.peers[id].networkID in w.db.networks
    requires NetOk(w'.db, net, w'.given[net])
    ensures Inv(w')
  {
    hide NetOk, Untouched;
    forall m | m in w'.db.networks ensures NetOk(w'.db, m, w'.given[m]) {
      if m != net {
        UntouchedOk(w.db, w'.db, m, w.given[m]);
      }
    }
  }

  /** Changing one member's record, but not its network, leaves other networks alone. */
  lemma OtherNetsUntouched(db: DB, db': DB, id: PeerID, net: NetID)
    requires forall m :: m in db.networks && m != net ==> m in db'.networks && db'.networks[m] == db.networks[m]
    requires db'.peers - {id} == db.peers - {id}
    requires id in db.peers ==> db.peers[id].networkID == net
    requires id in db'.peers ==> db'.peers[id].networkID == net
    ensures forall m :: m in db.networks && m != net ==> Untouched(db, db', m)
  {
    forall m | m in db.networks && m != net ensures Untouched(db, db', m) {
      forall i ensures i in Members(db', m) <==> i in Members(db, m) {
        if i != id {
          assert i in db'.peers - {id} <==> i in db.peers - {id};
          assert i in db.peers ==> (db'.peers - {id})[i] == (db.peers - {id})[i];
        }
      }
      forall i | i in Members(db, m) ensures db'.peers[i] == db.peers[i] {
        assert (db'.peers - {id})[i] == (db.peers - {id})[i];
      }
    }
  }

  ghost function Renamed(rec: PeerRec, claim: Claim, name: string): PeerRec {
    rec.(lastSeen := RoundToHour(claim.lastSeen), name := name, subnetRoutes := claim.subnetRoutes)
  }

  lemma RenameNetOk(db: DB, claim: Claim, net: NetID, given: set<Addr>)
    requires net in db.networks && NetOk(db, net, given) && claim.id in db.peers && db.peers[claim.id].networkID == net
    ensures NetOk(db.(peers := db.peers[claim.id := Renamed(db.peers[claim.id], claim, NameFor(db, claim, net))]), net, given)
  {
    var name := NameFor(db, claim, net);
    var db' := db.(peers := db.peers[claim.id := Renamed(db.peers[claim.id], claim, name)]);
    assert Members(db', net) == Members(db, net);
    assert forall id :: id in Members(db, net) ==> db'.peers[id].vpnAddr == db.peers[id].vpnAddr;
    assert Used(db', net) == Used(db, net);
    assert UniqueNames(db', net) by {
      NameForUnique(db, claim, net);
    }
  }

  /** The name a peer is given clashes with no other member's. */
  lemma NameForUnique(db: DB, claim: Claim, net: NetID)
    ensures var name := NameFor(db, claim, net);
            forall i :: i in Members(db, net) && i != claim.id && name != "" ==>
                          !SameName(db.peers[i].name, name) && !SameName(name, db.peers[i].name)
  {}

  lemma RenameKeepsInv(w: World, claim: Claim, net: NetID, w': World)
    requires Inv(w) && claim.id in w.db.peers && w.db.peers[claim.id].networkID == net && w'.given == w.given
    requires w'.db == w.db.(peers := w.db.peers[claim.id := Renamed(w.db.peers[claim.id], claim, NameFor(w.db, claim, net))])
    ensures Inv(w')
  {
    hide NetOk, Untouched, NameFor;
    RenameNetOk(w.db, claim, net, w.given[net]);
    OtherNetsUntouched(w.db, w'.db, claim.id, net);
    OneNetKeepsInv(w, w', net);
  }

  // ----- What a registration stores

  /** A peer keeps the name it claims exactly if no other member of the network has it, ignoring case. */
  lemma NameKeptIff(db: DB, claim: Claim, net: NetID)
    ensures NameFor(db, claim, net) in {claim.name, ""}
    ensures claim.name != "" ==>
              (NameFor(db, claim, net) == claim.name <==>
                 forall id :: id in db.peers && id != claim.id && db.peers[id].networkID == net ==>
                                !(|db.peers[id].name| == |claim.name| &&
                                  forall i :: 0 <= i < |claim.name| ==> SameLetter(db.peers[id].name[i], claim.name[i])))
  {
    forall id | id in db.peers
      ensures SameName(db.peers[id].name, claim.name) <==>
              |db.peers[id].name| == |claim.name| && forall i :: 0 <= i < |claim.name| ==> SameLetter(db.peers[id].name[i], claim.name[i])
    {
      SameNameIff(db.peers[id].name, claim.name);
    }
    assert forall id :: id in Members(db, net) <==> id in db.peers && db.peers[id].networkID == net;
  }

  /** After a registration the peer's record is the claim's, at the address answered; no other peer and no other network has changed. */
  lemma RegisteredRecord(db: DB, claim: Claim, net: NetID, maxMachines: int, db': DB, a: Addr)
    requires ValidDB(db) && Registers(db, claim, net, maxMachines, db', Ok(a))
    ensures claim.id in db'.peers && db'.peers - {claim.id} == db.peers - {claim.id}
    ensures var rec := db'.peers[claim.id];
            && rec.networkID == net && rec.vpnAddr == a && rec.x25519 == claim.x25519 && rec.subnetRoutes == claim.subnetRoutes
            && rec.name == NameFor(db, claim, net)
            && (claim.lastSeen > 0 ==> rec.lastSeen % 3600 == 0 && 0 <= claim.lastSeen - rec.lastSeen < 3600)
            && (claim.id in db.peers ==> a == db.peers[claim.id].vpnAddr && db'.networks == db.networks)
            && (claim.id !in db.peers ==> rec.registeredAt == claim.registeredAt && a !in Used(db, net))
    ensures forall m :: m in db.networks && m != net ==> m in db'.networks && db'.networks[m] == db.networks[m]
  {
    hide NameFor, Used, Picks, PossiblyFreed, Migrated;
    RoundedByNumbers(claim.lastSeen);
    if claim.id !in db.peers {
      Joined(db, claim, net, maxMachines, db', Ok(a));
    }
  }

  /** When each refusal is given; a refusal changes nothing. */
  lemma RefusedExactly(db: DB, claim: Claim, net: NetID, maxMachines: int, db': DB, r: Result<Addr, Error>)
    requires ValidDB(db) && Registers(db, claim, net, maxMachines, db', r)
    ensures r.Err? ==> db' == db
    ensures r == Err(PeerIDTaken) <==> claim.id in db.peers && db.peers[claim.id].networkID != net
    ensures r == Err(PeerKeyMismatch) <==>
              claim.id in db.peers && db.peers[claim.id].networkID == net && db.peers[claim.id].x25519 != claim.x25519
    ensures r == Err(NetworkNotFound) <==> claim.id !in db.peers && net !in db.networks
    ensures r == Err(MachineLimit) <==>
              claim.id !in db.peers && net in db.networks && 0 < maxMachines <= db.networks[net].machineCount
  {
    hide NameFor, Used, Picks, PossiblyFreed, Migrated;
  }

  // ----- Joining

  /** Migration records at least what is held and what was handed out. */
  lemma MigratedRecords(n: NetRec, used: set<Addr>, given: set<Addr>)
    requires n.cidr.Valid() && Recorded(n, given) && used <= given
    ensures var m := Migrated(n, used);
            m.history.Some? && given <= m.history.value.Keys && m.cidr == n.cidr && m.machineCount == n.machineCount
  {}

  lemma PickIsFree(c: Cidr, used: set<Addr>, history: map<Addr, int>, pick: Option<Addr>)
    requires c.Valid() && Picks(c, used, history, pick)
    ensures pick.Some? ==> pick.value !in used && c.Host(pick.value)
  {}

  lemma JoinMembers(db: DB, db': DB, id: PeerID, net: NetID)
    requires id !in db.peers && id in db'.peers && db'.peers[id].networkID == net && db'.peers == db.peers[id := db'.peers[id]]
    ensures Members(db', net) == Members(db, net) + {id}
    ensures |Members(db', net)| == |Members(db, net)| + 1
    ensures Used(db', net) == Used(db, net) + {db'.peers[id].vpnAddr}
  {
    assert Members(db', net) == Members(db, net) + {id};
    assert forall i :: i in Members(db, net) ==> db'.peers[i] == db.peers[i];
  }

  lemma JoinNetOk(db: DB, db': DB, claim: Claim, net: NetID, given: set<Addr>, a: Addr)
    requires net in db.networks && NetOk(db, net, given) && claim.id !in db.peers && a !in Used(db, net)
    requires var n := Migrated(db.networks[net], Used(db, net));
             db' == DB(db.networks[net := HandedOut(n, a)],
                       db.peers[claim.id := PeerRec(net, NameFor(db, claim, net), a, claim.x25519, claim.subnetRoutes,
                                                    RoundToHour(claim.lastSeen), claim.registeredAt)])
    ensures NetOk(db', net, given + {a})
  {
    hide Used, Members, NameFor, PossiblyFreed;
    MigratedRecords(db.networks[net], Used(db, net), given);
    JoinMembers(db, db', claim.id, net);
    NameForUnique(db, claim, net);
    forall i | i in Members(db, net) ensures i in db.peers && db.peers[i].vpnAddr != a && db'.peers[i] == db.peers[i] {
      MemberUses(db, net, i);
    }
  }

  lemma MemberUses(db: DB, net: NetID, id: PeerID)
    requires id in Members(db, net)
    ensures id in db.peers && db.peers[id].networkID == net && db.peers[id].vpnAddr in Used(db, net)
  {}

  /** A new peer's registration: the address it got and the network's record before. */
  lemma Joined(db: DB, claim: Claim, net: NetID, maxMachines: int, db': DB, r: Result<Addr, Error>)
    requires ValidDB(db) && Registers(db, claim, net, maxMachines, db', r) && claim.id !in db.peers && r.Ok?
    ensures net in db.networks && r.value !in Used(db, net)
    ensures var n := Migrated(db.networks[net], Used(db, net));
            && n.history.Some? && n.cidr == db.networks[net].cidr
            && Picks(n.cidr, Used(db, net), n.history.value, Some(r.value))
            && db' == DB(db.networks[net := HandedOut(n, r.value)],
                         db.peers[claim.id := PeerRec(net, NameFor(db, claim, net), r.value, claim.x25519, claim.subnetRoutes,
                                                      RoundToHour(claim.lastSeen), claim.registeredAt)])
  {
    hide NameFor, Used, Picks, PossiblyFreed;
    var n := Migrated(db.networks[net], Used(db, net));
    var pick :| Picks(n.cidr, Used(db, net), n.history.value, pick) && pick == Some(r.value);
    PickIsFree(n.cidr, Used(db, net), n.history.value, pick);
  }

  lemma JoinKeepsInv(w: World, claim: Claim, net: NetID, maxMachines: int, r: Result<Addr, Error>, w': World)
    requires Inv(w) && ValidDB(w.db) && claim.id !in w.db.peers && r.Ok?
    requires Registers(w.db, claim, net, maxMachines, w'.db, r) && w'.given == GivenAfter(w, claim, net, r)
    ensures Inv(w')
  {
    hide NetOk, Untouched, NameFor, Used, Picks, PossiblyFreed, Registers, Migrated;
    Joined(w.db, claim, net, maxMachines, w'.db, r);
    NetFacts(w.db, net, w.given[net]);
    JoinNetOk(w.db, w'.db, claim, net, w.given[net], r.value);
    OtherNetsUntouched(w.db, w'.db, claim.id, net);
    OneNetKeepsInv(w, w', net);
  }

  lemma RegisterKeepsInv(w: World, claim: Claim, net: NetID, maxMachines: int, w': World)
    requires Inv(w) && Takes(w, Register(claim, net, maxMachines), w')
    ensures Inv(w')
  {
    hide NetOk, NameFor, Used, Picks, PossiblyFreed, Migrated;
    InvValid(w);
    var r :| Registers(w.db, claim, net, maxMachines, w'.db, r) && w'.given == GivenAfter(w, claim, net, r);
    if r.Ok? {
      if claim.id in w.db.peers {
        RenameKeepsInv(w, claim, net, w');
      } else {
        JoinKeepsInv(w, claim, net, maxMachines, r, w');
      }
    }
  }

  /** While some host address is unrecorded, a new peer gets an address never handed out, older versions included. */
  lemma UnrecordedFirst(w: World, claim: Claim, net: NetID, maxMachines: int, db': DB, a: Addr)
    requires Inv(w) && ValidDB(w.db) && claim.id !in w.db.peers && Registers(w.db, claim, net, maxMachines, db', Ok(a))
    requires net in w.db.networks
    requires var n := Migrated(w.db.networks[net], Used(w.db, net));
             exists b :: Unrecorded(n.cidr, Used(w.db, net), n.history.value, b)
    ensures a !in w.given[net]
  {
    hide Used, Registers, PossiblyFreed, NameFor, NetOk, Recorded, Migrated;
    Joined(w.db, claim, net, maxMachines, db', Ok(a));
    NetFacts(w.db, net, w.given[net]);
    MigratedRecords(w.db.networks[net], Used(w.db, net), w.given[net]);
  }

  /** A host address of the network that no peer holds. */
  ghost predicate Unheld(db: DB, net: NetID, a: Addr)
    requires net in db.networks && db.networks[net].cidr.Valid()
  {
    var c := db.networks[net].cidr;
    c.Base() < a && a + 1 < c.Base() + c.size && a !in Used(db, net)
  }

  /** The unheld host that a record of an older version gives out: the least from the next address on, else the least of all. */
  ghost predicate OlderPick(db: DB, net: NetID, a: Addr)
    requires net in db.networks && db.networks[net].cidr.Valid()
  {
    var n := db.networks[net];
    var base := n.cidr.Base();
    var from := if n.nextIP.Some? && base <= n.nextIP.value < base + n.cidr.size then n.nextIP.value else base;
    && Unheld(db, net, a)
    && (if exists h: Addr :: Unheld(db, net, h) && h >= from
        then a >= from && forall h: Addr :: Unheld(db, net, h) && h >= from ==> a <= h
        else forall h: Addr :: Unheld(db, net, h) ==> a <= h)
  }

  /**
   Migration records exactly the held addresses, at 0, and at 1 the other hosts below the
   next address, or all other hosts if there is none and the network is not too large.
   */
  lemma MigratedExactly(n: NetRec, used: set<Addr>, a: Addr)
    requires n.cidr.Valid() && n.history.None?
    ensures var base := n.cidr.Base();
            var history := Migrated(n, used).history.value;
            && (a in history <==>
                  a in used ||
                  (&& base < a && a + 1 < base + n.cidr.size
                   && if n.nextIP.Some? && base <= n.nextIP.value < base + n.cidr.size then a < n.nextIP.value else n.cidr.size <= 65538))
            && (a in history ==> history[a] == if a in used then 0 else 1)
  {}

  /**
   In a network migrated from an older version, a new peer gets the least unheld host at or
   above the next address, if there is one, and otherwise the least unheld host.
   */
  lemma MigratedGives(db: DB, claim: Claim, net: NetID, maxMachines: int, db': DB, a: Addr)
    requires ValidDB(db) && claim.id !in db.peers && Registers(db, claim, net, maxMachines, db', Ok(a))
    requires net in db.networks && db.networks[net].history.None?
    ensures OlderPick(db, net, a)
  {
    hide Used, Registers, NameFor, PossiblyFreed, Migrated;
    Joined(db, claim, net, maxMachines, db', Ok(a));
    var n := db.networks[net];
    forall h: Addr | n.cidr.Host(h) && h !in Used(db, net)
      ensures h in Migrated(n, Used(db, net)).history.value ==> Migrated(n, Used(db, net)).history.value[h] == 1
    {
      MigratedExactly(n, Used(db, net), h);
    }
    forall h: Addr | n.cidr.Host(h) && h !in Used(db, net)
      ensures h !in Migrated(n, Used(db, net)).history.value <==>
              if n.nextIP.Some? && n.cidr.Contains(n.nextIP.value) then h >= n.nextIP.value else n.cidr.size > 65538
    {
      MigratedExactly(n, Used(db, net), h);
    }
    var history := Migrated(n, Used(db, net)).history.value;
    assert forall h: Addr :: Unheld(db, net, h) <==> n.cidr.Host(h) && h !in Used(db, net);
    assert forall h: Addr :: Unheld(db, net, h) && !Unrecorded(n.cidr, Used(db, net), history, h) ==>
        Freed(n.cidr, Used(db, net), history, h);
  }

  lemma NetFacts(db: DB, net: NetID, given: set<Addr>)
    requires net in db.networks && NetOk(db, net, given)
    ensures db.networks[net].cidr.Valid() && Recorded(db.networks[net], given) && Used(db, net) <= given
    ensures db.networks[net].machineCount == |Members(db, net)| && UniqueAddrs(db, net)
  {}

  // ----- Leaving

  lemma LeaveMembers(db: DB, db': DB, id: PeerID, net: NetID)
    requires id in db.peers && db.peers[id].networkID == net && db'.peers == db.peers - {id}
    ensures Members(db', net) == Members(db, net) - {id} && id in Members(db, net)
    ensures |Members(db', net)| == |Members(db, net)| - 1
    ensures Used(db', net) <= Used(db, net)
    ensures forall i :: i in Members(db', net) ==> i in Members(db, net) && db'.peers[i] == db.peers[i]
  {
    assert Members(db', net) == Members(db, net) - {id};
  }

  /** A network without one of its members is still right, whatever else the step records. */
  lemma LeaveNetOk(db: DB, db': DB, id: PeerID, net: NetID, given: set<Addr>)
    requires net in db.networks && NetOk(db, net, given) && id in db.peers && db.peers[id].networkID == net
    requires net in db'.networks && db'.peers == db.peers - {id}
    requires db'.networks[net].cidr == db.networks[net].cidr
    requires db'.networks[net].machineCount == Decremented(db.networks[net]).machineCount
    requires Recorded(db'.networks[net], given)
    ensures NetOk(db', net, given)
  {
    hide Used, Members;
    LeaveMembers(db, db', id, net);
  }

  lemma RemovedRecords(n: NetRec, used: set<Addr>, given: set<Addr>, a: Addr, now: int)
    requires n.cidr.Valid() && Recorded(n, given) && used <= given
    ensures var m := Migrated(Decremented(n), used);
            var after := m.(history := Some(m.history.value[a := now]));
            after.cidr == n.cidr && after.machineCount == Decremented(n).machineCount && Recorded(after, given)
  {
    MigratedRecords(Decremented(n), used, given);
  }

  lemma RemoveKeepsInv(w: World, id: PeerID, now: int, w': World)
    requires Inv(w) && Takes(w, Remove(id, now), w')
    ensures Inv(w')
  {
    hide NetOk, Untouched, Used, Members, PossiblyFreed, Recorded, Migrated;
    if id in w.db.peers {
      var rec := w.db.peers[id];
      var net := rec.networkID;
      var rest := w.db.(peers := w.db.peers - {id});
      NetFacts(w.db, net, w.given[net]);
      LeaveMembers(w.db, rest, id, net);
      RemovedRecords(w.db.networks[net], Used(rest, net), w.given[net], rec.vpnAddr, now);
      LeaveNetOk(w.db, w'.db, id, net, w.given[net]);
      OtherNetsUntouched(w.db, w'.db, id, net);
      OneNetKeepsInv(w, w', net);
    }
  }

  lemma ExpelKeepsInv(w: World, id: PeerID, w': World)
    requires Inv(w) && Takes(w, Expel(id), w')
    ensures Inv(w')
  {
    hide NetOk, Untouched, Used, Members;
    if id in w.db.peers {
      var net := w.db.peers[id].networkID;
      NetFacts(w.db, net, w.given[net]);
      LeaveNetOk(w.db, w'.db, id, net, w.given[net]);
      OtherNetsUntouched(w.db, w'.db, id, net);
      OneNetKeepsInv(w, w', net);
    }
  }

  // ----- Runs

  lemma StepKeepsInv(w: World, step: Step, w': World)
    requires Inv(w) && Takes(w, step, w')
    ensures Inv(w')
  {
    match step
    case Create(net, cidr) => CreateKeepsInv(w, net, cidr, w');
    case Register(claim, net, maxMachines) => RegisterKeepsInv(w, claim, net, maxMachines, w');
    case Remove(id, now) => RemoveKeepsInv(w, id, now, w');
    case Expel(id) => ExpelKeepsInv(w, id, w');
  }

  /** The worlds a run passes through, one more than its steps. */
  ghost predicate Run(worlds: seq<World>, steps: seq<Step>) {
    && |worlds| == |steps| + 1
    && forall i :: 0 <= i < |steps| ==> Takes(worlds[i], steps[i], worlds[i + 1])
  }

  /**
   Over every run, two peers of a network never share an address or, ignoring case, a
   name; the machine count is the number of peers; and every address ever handed out stays
   recorded.
   */
  lemma {:induction false} RunKeepsInv(worlds: seq<World>, steps: seq<Step>, i: nat)
    requires Run(worlds, steps) && Inv(worlds[0]) && i <= |steps|
    ensures Inv(worlds[i])
  {
    hide Inv, Takes;
    if i > 0 {
      RunKeepsInv(worlds, steps, i - 1);
      StepKeepsInv(worlds[i - 1], steps[i - 1], worlds[i]);
    }
  }
}
