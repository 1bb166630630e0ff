/**
 Which address a registration gets, over whole runs of a registry that starts empty: a
 fresh one while any is left, then the one freed first, never one a swept peer held.
 */
module AddressReuse {
  import opened Wrappers
  import opened Registry
  import opened RegistryHistory

  /**
   The history records exactly what was handed out. A held address is marked 0, and so is
   one a swept peer held; any other is marked with when its last holder was removed.
   */
  ghost predicate MarkedNet(n: NetRec, used: set<Addr>, given: set<Addr>, lost: set<Addr>, freed: map<Addr, int>) {
    && n.history.Some? && n.history.value.Keys == given && lost <= given && used !! lost
    && forall a :: a in given ==>
         if a in used || a in lost then n.history.value[a] == 0
         else a in freed && n.history.value[a] == freed[a] > 0
  }

  ghost predicate MarkedIn(w: World, net: NetID)
    requires net in w.db.networks && net in w.given && net in w.lost && net in w.freed
  {
    MarkedNet(w.db.networks[net], Used(w.db, net), w.given[net], w.lost[net], w.freed[net])
  }

  ghost predicate Marked(w: World) {
    && w.given.Keys == w.db.networks.Keys && w.lost.Keys == w.db.networks.Keys && w.freed.Keys == w.db.networks.Keys
    && forall net :: net in w.db.networks ==> MarkedIn(w, net)
  }

  /** The clock never reads the epoch or before. */
  predicate Timely(step: Step) {
    step.Remove? ==> step.now > 0
  }

  const EMPTY := World(DB(map[], map[]), map[], map[], map[])

  // ----- Steps keep the marks

  /** A step that touches one network keeps the marks if it does so for that network. */
  lemma OneNetMarked(w: World, w': World, net: NetID)
    requires Marked(w) && Inv(w) && net in w.db.networks && w'.db.networks.Keys == w.db.networks.Keys
    requires w'.given.Keys == w.given.Keys && w'.lost.Keys == w.lost.Keys && w'.freed.Keys == w.freed.Keys
    requires forall m :: m in w.db.networks && m != net ==>
               w'.given[m] == w.given[m] && w'.lost[m] == w.lost[m] && w'.freed[m] == w.freed[m] && Untouched(w.db, w'.db, m)
    requires MarkedIn(w', net)
    ensures Marked(w')
  {
    hide MarkedNet, NetOk, Used;
    forall m | m in w'.db.networks ensures MarkedIn(w', m) {
      if m != net {
        UntouchedOk(w.db, w'.db, m, w.given[m]);
      }
    }
  }

  lemma CreateMarked(w: World, net: NetID, cidr: Cidr, w': World)
    requires Inv(w) && Marked(w) && Takes(w, Create(net, cidr), w')
    ensures Marked(w')
  {
    hide MarkedNet, NetOk;
    forall m | m in w'.db.networks ensures MarkedIn(w', m) {
      if m in w.db.networks {
        UntouchedOk(w.db, w'.db, m, w.given[m]);
      } else {
        NewMarked(w'.db.networks[m], Used(w'.db, m));
      }
    }
  }

  lemma NewMarked(n: NetRec, used: set<Addr>)
    requires n.history == Some(map[])
    ensures MarkedNet(n, used, {}, {}, map[])
  {}

  lemma RenameMarked(w: World, claim: Claim, net: NetID, w': World)
    requires Inv(w) && Marked(w) && claim.id in w.db.peers && w.db.peers[claim.id].networkID == net && w' == w.(db := w'.db)
    requires w'.db == w.db.(peers := w.db.peers[claim.id := Renamed(w.db.peers[claim.id], claim, NameFor(w.db, claim, net))])
    ensures Marked(w')
  {
    hide MarkedNet, NetOk, Untouched, NameFor;
    assert Members(w'.db, net) == Members(w.db, net);
    assert Used(w'.db, net) == Used(w.db, net);
    OtherNetsUntouched(w.db, w'.db, claim.id, net);
    OneNetMarked(w, w', net);
  }

  lemma PickMarked(n: NetRec, used: set<Addr>, given: set<Addr>, lost: set<Addr>, freed: map<Addr, int>, a: Addr)
    requires n.cidr.Valid() && MarkedNet(n, used, given, lost, freed) && Picks(n.cidr, used, n.history.value, Some(a))
    ensures MarkedNet(HandedOut(n, a), used + {a}, given + {a}, lost, freed)
  {}

  lemma JoinMarked(w: World, claim: Claim, net: NetID, maxMachines: int, r: Result<Addr, Error>, w': World)
    requires Inv(w) && Marked(w) && ValidDB(w.db) && claim.id !in w.db.peers && r.Ok? && w'.lost == w.lost && w'.freed == w.freed
    requires Registers(w.db, claim, net, maxMachines, w'.db, r) && w'.given == GivenAfter(w, claim, net, r)
    ensures Marked(w')
  {
    hide MarkedNet, NetOk, Untouched, NameFor, Used, Picks, Registers, PossiblyFreed;
    Joined(w.db, claim, net, maxMachines, w'.db, r);
    JoinMembers(w.db, w'.db, claim.id, net);
    HasHistory(w, net);
    PickMarked(w.db.networks[net], Used(w.db, net), w.given[net], w.lost[net], w.freed[net], r.value);
    OtherNetsUntouched(w.db, w'.db, claim.id, net);
    OneNetMarked(w, w', net);
  }

  lemma HasHistory(w: World, net: NetID)
    requires Marked(w) && net in w.db.networks
    ensures w.db.networks[net].history.Some? && w.db.networks[net].history.value.Keys == w.given[net]
  {}

  lemma LeaveUsed(db: DB, db': DB, id: PeerID, net: NetID)
    requires UniqueAddrs(db, net) && id in db.peers && db.peers[id].networkID == net && db'.peers == db.peers - {id}
    ensures Used(db', net) == Used(db, net) - {db.peers[id].vpnAddr} && db.peers[id].vpnAddr in Used(db, net)
  {
    LeaveMembers(db, db', id, net);
    MemberUses(db, net, id);
    forall a ensures a in Used(db', net) <==> a in Used(db, net) && a != db.peers[id].vpnAddr {
      if a in Used(db, net) && a != db.peers[id].vpnAddr {
        var i :| i in Members(db, net) && db.peers[i].vpnAddr == a;
        assert i in Members(db', net);
      }
    }
  }

  lemma FreedMarked(n: NetRec, used: set<Addr>, given: set<Addr>, lost: set<Addr>, freed: map<Addr, int>, a: Addr, now: int)
    requires MarkedNet(n, used, given, lost, freed) && a in used && a in given && now > 0
    ensures MarkedNet(n.(history := Some(n.history.value[a := now])), used - {a}, given, lost, freed[a := now])
  {}

  lemma LostMarked(n: NetRec, used: set<Addr>, given: set<Addr>, lost: set<Addr>, freed: map<Addr, int>, a: Addr)
    requires MarkedNet(n, used, given, lost, freed) && a in used && a in given
    ensures MarkedNet(n, used - {a}, given, lost + {a}, freed)
  {}

  lemma CountUnmarked(n: NetRec, count: int, used: set<Addr>, given: set<Addr>, lost: set<Addr>, freed: map<Addr, int>)
    ensures MarkedNet(n.(machineCount := count), used, given, lost, freed) <==> MarkedNet(n, used, given, lost, freed)
  {}

  /** Removing a member of a network that has its history. */
  lemma RemovedRecord(db: DB, id: PeerID, now: int)
    requires ValidDB(db) && id in db.peers && db.peers[id].networkID in db.networks
    requires db.networks[db.peers[id].networkID].history.Some?
    ensures var net, a := db.peers[id].networkID, db.peers[id].vpnAddr;
            var n := db.networks[net];
            Removed(db, id, now) ==
              DB(db.networks[net := n.(history := Some(n.history.value[a := now]), machineCount := Decremented(n).machineCount)],
                 db.peers - {id})
  {
    hide Used, PossiblyFreed;
  }

  lemma RemoveMarked(w: World, id: PeerID, now: int, w': World)
    requires Inv(w) && Marked(w) && Takes(w, Remove(id, now), w') && now > 0
    ensures Marked(w')
  {
    hide MarkedNet, Untouched, Used, Members, NetOk, UniqueAddrs, Recorded, Removed, Decremented;
    if id in w.db.peers {
      var rec := w.db.peers[id];
      var net := rec.networkID;
      NetFacts(w.db, net, w.given[net]);
      assert MarkedIn(w, net);
      var n := w.db.networks[net];
      HasHistory(w, net);
      RemovedRecord(w.db, id, now);
      LeaveUsed(w.db, w'.db, id, net);
      FreedMarked(n, Used(w.db, net), w.given[net], w.lost[net], w.freed[net], rec.vpnAddr, now);
      CountUnmarked(n.(history := Some(n.history.value[rec.vpnAddr := now])), Decremented(n).machineCount,
                    Used(w'.db, net), w.given[net], w.lost[net], w'.freed[net]);
      OtherNetsUntouched(w.db, w'.db, id, net);
      OneNetMarked(w, w', net);
    } else {
      RemovedNobody(w.db, id, now);
      assert w' == w;
    }
  }

  lemma RemovedNobody(db: DB, id: PeerID, now: int)
    requires ValidDB(db) && id !in db.peers
    ensures Removed(db, id, now) == db
  {}

  lemma ExpelMarked(w: World, id: PeerID, w': World)
    requires Inv(w) && Marked(w) && Takes(w, Expel(id), w')
    ensures Marked(w')
  {
    hide MarkedNet, Untouched, Used, Members, NetOk, UniqueAddrs, Recorded;
    if id in w.db.peers {
      var rec := w.db.peers[id];
      var net := rec.networkID;
      NetFacts(w.db, net, w.given[net]);
      assert MarkedIn(w, net);
      LeaveUsed(w.db, w'.db, id, net);
      LostMarked(w.db.networks[net], Used(w.db, net), w.given[net], w.lost[net], w.freed[net], rec.vpnAddr);
      CountUnmarked(w.db.networks[net], Decremented(w.db.networks[net]).machineCount, Used(w'.db, net), w.given[net], w'.lost[net], w.freed[net]);
      OtherNetsUntouched(w.db, w'.db, id, net);
      OneNetMarked(w, w', net);
    }
  }

  lemma StepMarked(w: World, step: Step, w': World)
    requires Inv(w) && Marked(w) && Takes(w, step, w') && Timely(step)
    ensures Marked(w')
  {
    hide Marked, NetOk, Used, Picks, PossiblyFreed, NameFor;
    match step
    case Create(net, cidr) => CreateMarked(w, net, cidr, w');
    case Remove(id, now) => RemoveMarked(w, id, now, w');
    case Expel(id) => ExpelMarked(w, id, w');
    case Register(claim, net, maxMachines) =>
      var r :| Registers(w.db, claim, net, maxMachines, w'.db, r) && w'.given == GivenAfter(w, claim, net, r);
      if r.Ok? {
        if claim.id in w.db.peers {
          RenameMarked(w, claim, net, w');
        } else {
          JoinMarked(w, claim, net, maxMachines, r, w');
        }
      } else {
        assert w' == w;
      }
  }

  // ----- Runs of a registry that starts empty

  /** Every world of a run that starts with nothing is marked. */
  lemma {:induction false} RunMarked(worlds: seq<World>, steps: seq<Step>, i: nat)
    requires Run(worlds, steps) && worlds[0] == EMPTY && (forall s <- steps :: Timely(s)) && i <= |steps|
    ensures Inv(worlds[i]) && Marked(worlds[i])
  {
    hide Inv, Marked, Takes;
    if i == 0 {
      EmptyIsMarked();
    } else {
      RunMarked(worlds, steps, i - 1);
      StepKeepsInv(worlds[i - 1], steps[i - 1], worlds[i]);
      StepMarked(worlds[i - 1], steps[i - 1], worlds[i]);
    }
  }

  lemma EmptyIsMarked()
    ensures Inv(EMPTY) && Marked(EMPTY)
  {}

  /** While some host address was never handed out, a new peer gets the least such address. */
  lemma FreshWhileAny(w: World, claim: Claim, net: NetID, maxMachines: int, db': DB, a: Addr, unused: Addr)
    requires Inv(w) && Marked(w) && ValidDB(w.db) && claim.id !in w.db.peers
    requires Registers(w.db, claim, net, maxMachines, db', Ok(a))
    requires net in w.db.networks && w.db.networks[net].cidr.Host(unused) && unused !in w.given[net]
    ensures a !in w.given[net] && w.db.networks[net].cidr.Host(a) && a <= unused
  {
    hide Used, Registers, PossiblyFreed, NameFor, NetOk;
    Joined(w.db, claim, net, maxMachines, db', Ok(a));
    NetFacts(w.db, net, w.given[net]);
    assert Unrecorded(w.db.networks[net].cidr, Used(w.db, net), w.db.networks[net].history.value, unused);
  }

  /** A host address that was handed out, is not held and was not lost to a sweep. */
  ghost predicate Free(w: World, net: NetID, a: Addr)
    requires ValidDB(w.db) && net in w.db.networks && net in w.given && net in w.lost
  {
    w.db.networks[net].cidr.Host(a) && a in w.given[net] && a !in w.lost[net] && a !in Used(w.db, net)
  }

  /** Once all were, it gets a free one: the one removed first, the lower of two removed at once. */
  lemma OldestFreedOtherwise(w: World, claim: Claim, net: NetID, maxMachines: int, db': DB, a: Addr)
    requires Inv(w) && Marked(w) && ValidDB(w.db) && claim.id !in w.db.peers
    requires Registers(w.db, claim, net, maxMachines, db', Ok(a))
    requires net in w.db.networks && forall h: Addr :: w.db.networks[net].cidr.Host(h) ==> h in w.given[net]
    ensures Free(w, net, a)
    ensures forall b: Addr :: Free(w, net, b) ==>
              && a in w.freed[net] && b in w.freed[net]
              && (w.freed[net][a] < w.freed[net][b] || (w.freed[net][a] == w.freed[net][b] && a <= b))
  {
    hide Used, Registers, PossiblyFreed, NameFor, NetOk;
    Joined(w.db, claim, net, maxMachines, db', Ok(a));
    NetFacts(w.db, net, w.given[net]);
    var n := w.db.networks[net];
    assert MarkedIn(w, net);
    assert forall h: Addr :: !Unrecorded(n.cidr, Used(w.db, net), n.history.value, h);
    forall b: Addr | Free(w, net, b) ensures Freed(n.cidr, Used(w.db, net), n.history.value, b) {}
  }

  /**
   A registration is refused for want of an address exactly when it is for a new peer of a
   known network below its machine limit and every host address is held or lost.
   */
  lemma ExhaustedIff(w: World, claim: Claim, net: NetID, maxMachines: int, db': DB, r: Result<Addr, Error>)
    requires Inv(w) && Marked(w) && ValidDB(w.db) && Registers(w.db, claim, net, maxMachines, db', r)
    ensures r == Err(AddressSpaceExhausted) <==>
              && claim.id !in w.db.peers && net in w.db.networks
              && !(maxMachines > 0 && |Members(w.db, net)| >= maxMachines)
              && forall h: Addr :: w.db.networks[net].cidr.Host(h) ==> h in Used(w.db, net) || h in w.lost[net]
  {
    hide Used, PossiblyFreed, NameFor, NetOk, Members, Picks;
    if claim.id !in w.db.peers && net in w.db.networks {
      NetFacts(w.db, net, w.given[net]);
      assert MarkedIn(w, net);
      NothingToPick(w.db.networks[net], Used(w.db, net), w.given[net], w.lost[net], w.freed[net]);
    }
  }

  lemma NothingToPick(n: NetRec, used: set<Addr>, given: set<Addr>, lost: set<Addr>, freed: map<Addr, int>)
    requires n.cidr.Valid() && MarkedNet(n, used, given, lost, freed) && used <= given
    ensures (forall pick :: Picks(n.cidr, used, n.history.value, pick) ==>
              (pick.None? <==> forall h: Addr :: n.cidr.Host(h) ==> h in used || h in lost))
  {
    forall pick | Picks(n.cidr, used, n.history.value, pick)
      ensures pick.None? <==> forall h: Addr :: n.cidr.Host(h) ==> h in used || h in lost
    {
      if pick.None? {
        forall h: Addr | n.cidr.Host(h) ensures h in used || h in lost {
          assert !Unrecorded(n.cidr, used, n.history.value, h) && !Freed(n.cidr, used, n.history.value, h);
        }
      }
    }
  }

  // ----- The next address

  /** The next address, which older versions go by, lies in the network and above everything handed out. */
  ghost predicate NextAboveNet(n: NetRec, given: set<Addr>)
    requires n.cidr.Valid()
  {
    n.nextIP.Some? && (given == {} || n.cidr.Contains(n.nextIP.value)) && forall a :: a in given ==> a < n.nextIP.value
  }

  ghost predicate NextAbove(w: World) {
    && ValidDB(w.db) && w.given.Keys == w.db.networks.Keys
    && forall net :: net in w.db.networks ==> NextAboveNet(w.db.networks[net], w.given[net])
  }

  lemma HandedOutAbove(n: NetRec, given: set<Addr>, a: Addr)
    requires n.cidr.Valid() && n.history.Some? && NextAboveNet(n, given) && n.cidr.Host(a)
    ensures NextAboveNet(HandedOut(n, a), given + {a})
  {}

  lemma RegisterNextAbove(w: World, claim: Claim, net: NetID, maxMachines: int, w': World)
    requires Inv(w) && Marked(w) && NextAbove(w) && Takes(w, Register(claim, net, maxMachines), w')
    ensures NextAbove(w')
  {
    hide Inv, Marked, Used, Picks, PossiblyFreed, NameFor, NextAboveNet, Migrated;
    var r :| Registers(w.db, claim, net, maxMachines, w'.db, r) && w'.given == GivenAfter(w, claim, net, r);
    if r.Ok? && claim.id !in w.db.peers {
      Joined(w.db, claim, net, maxMachines, w'.db, r);
      HasHistory(w, net);
      var n := w.db.networks[net];
      AlreadyMigrated(n, Used(w.db, net));
      PickIsFree(n.cidr, Used(w.db, net), n.history.value, Some(r.value));
      HandedOutAbove(n, w.given[net], r.value);
    }
  }

  lemma AlreadyMigrated(n: NetRec, used: set<Addr>)
    requires n.cidr.Valid() && n.history.Some?
    ensures Migrated(n, used) == n
  {}

  lemma LeaveNextAbove(w: World, step: Step, w': World)
    requires Inv(w) && Marked(w) && NextAbove(w) && (step.Remove? || step.Expel?) && Takes(w, step, w')
    ensures NextAbove(w')
  {
    hide Inv, Marked, Used, PossiblyFreed;
    if step.id in w.db.peers && w.db.peers[step.id].networkID in w.db.networks {
      HasHistory(w, w.db.peers[step.id].networkID);
    }
  }

  lemma StepNextAbove(w: World, step: Step, w': World)
    requires Inv(w) && Marked(w) && NextAbove(w) && Takes(w, step, w')
    ensures NextAbove(w')
  {
    hide Inv, Marked, NextAboveNet, Registers, Removed, Expelled;
    match step
    case Create(_, cidr) => NewNextAbove(cidr);
    case Register(claim, net, maxMachines) => RegisterNextAbove(w, claim, net, maxMachines, w');
    case _ => LeaveNextAbove(w, step, w');
  }

  lemma NewNextAbove(cidr: Cidr)
    requires cidr.Valid()
    ensures NextAboveNet(NetRec(cidr, Some(cidr.addr + 1), 0, Some(map[])), {})
  {}

  /** In every state of every run from an empty registry. */
  lemma {:induction false} RunNextAbove(worlds: seq<World>, steps: seq<Step>, i: nat)
    requires Run(worlds, steps) && worlds[0] == EMPTY && (forall s <- steps :: Timely(s)) && i <= |steps|
    ensures NextAbove(worlds[i])
  {
    hide Inv, Marked, Takes;
    if i > 0 {
      RunNextAbove(worlds, steps, i - 1);
      RunMarked(worlds, steps, i - 1);
      StepNextAbove(worlds[i - 1], steps[i - 1], worlds[i]);
    }
  }

  // ----- Swept addresses

  /** Whatever happens afterwards, an address a swept peer held is never held again. */
  lemma {:induction false} LostForever(worlds: seq<World>, steps: seq<Step>, i: nat, j: nat, net: NetID, a: Addr)
    requires Run(worlds, steps) && worlds[0] == EMPTY && (forall s <- steps :: Timely(s)) && i <= j <= |steps|
    requires net in worlds[i].lost && a in worlds[i].lost[net]
    ensures net in worlds[j].lost && a in worlds[j].lost[net] && a !in Used(worlds[j].db, net)
    decreases j
  {
    hide Inv, Takes, Used;
    if i < j {
      LostForever(worlds, steps, i, j - 1, net, a);
      RunMarked(worlds, steps, j - 1);
      LostGrows(worlds[j - 1], steps[j - 1], worlds[j], net);
    }
    RunMarked(worlds, steps, j);
  }

  lemma LostGrows(w: World, step: Step, w': World, net: NetID)
    requires Takes(w, step, w') && net in w.lost && w.lost.Keys == w.db.networks.Keys
    ensures net in w'.lost && w.lost[net] <= w'.lost[net]
  {}

  ghost function AfterExpel(w: World, id: PeerID): World {
    World(Expelled(w.db, id), w.given,
          if id in w.db.peers then Grown(w.lost, w.db.peers[id].networkID, w.db.peers[id].vpnAddr) else w.lost,
          w.freed)
  }

  ghost function Expels(ids: seq<PeerID>): (steps: seq<Step>)
    ensures |steps| == |ids|
  {
    seq(|ids|, i requires 0 <= i < |ids| => Expel(ids[i]))
  }

  ghost function SweepRun(w: World, ids: seq<PeerID>): (worlds: seq<World>)
    ensures |worlds| == |ids| + 1 && worlds[0] == w
  {
    if ids == [] then [w]
    else var before := SweepRun(w, ids[..|ids| - 1]); before + [AfterExpel(before[|ids| - 1], ids[|ids| - 1])]
  }

  ghost function Each(ids: seq<PeerID>): set<PeerID> {
    set id | id in ids
  }

  /** The addresses the peers held in the network. */
  ghost function HeldBy(db: DB, ids: set<PeerID>, net: NetID): set<Addr> {
    set id | id in ids && id in Members(db, net) :: db.peers[id].vpnAddr
  }

  /** A sweep is a run of expulsions. */
  lemma {:induction false} SweepIsRun(w: World, ids: seq<PeerID>)
    requires ValidDB(w.db)
    ensures Run(SweepRun(w, ids), Expels(ids)) && ValidDB(SweepRun(w, ids)[|ids|].db)
    ensures SweepRun(w, ids)[|ids|].db == ExpelledAll(w.db, ids)
  {
    if ids != [] {
      var rest, last := ids[..|ids| - 1], ids[|ids| - 1];
      SweepIsRun(w, rest);
      var before := SweepRun(w, rest);
      assert Takes(before[|rest|], Expel(last), AfterExpel(before[|rest|], last));
    }
  }

  lemma ExpelLoses(w: World, first: DB, gone: set<PeerID>, id: PeerID, net: NetID)
    requires net in w.lost && id !in gone && w.db.peers == first.peers - gone
    ensures net in AfterExpel(w, id).lost
    ensures AfterExpel(w, id).db.peers == first.peers - (gone + {id})
    ensures HeldBy(first, gone + {id}, net) == HeldBy(first, gone, net) + HeldBy(first, {id}, net)
    ensures AfterExpel(w, id).lost[net] == w.lost[net] + HeldBy(first, {id}, net)
  {
    if id in Members(first, net) {
      assert HeldBy(first, {id}, net) == {first.peers[id].vpnAddr};
    } else {
      assert HeldBy(first, {id}, net) == {};
    }
  }

  /** Its peers and no others are gone, and exactly the addresses they held are lost. */
  lemma {:induction false} SweepLoses(w: World, ids: seq<PeerID>, net: NetID)
    requires net in w.lost && (forall i, j :: 0 <= i < j < |ids| ==> ids[i] != ids[j])
    ensures var after := SweepRun(w, ids)[|ids|];
            && net in after.lost && after.db.peers == w.db.peers - Each(ids)
            && after.lost[net] == w.lost[net] + HeldBy(w.db, Each(ids), net)
  {
    hide AfterExpel, HeldBy;
    if ids == [] {
      NobodyHolds(w.db, net);
      assert Each(ids) == {};
    } else {
      var rest, last := ids[..|ids| - 1], ids[|ids| - 1];
      SweepLoses(w, rest, net);
      ExpelLoses(SweepRun(w, rest)[|rest|], w.db, Each(rest), last, net);
      assert Each(ids) == Each(rest) + {last};
    }
  }

  lemma NobodyHolds(db: DB, net: NetID)
    ensures HeldBy(db, {}, net) == {}
  {}

  // ----- A network without peers that is full

  const NONE: set<Addr> := {}

  /** Two hosts. */
  const LAN := Cidr(0, 4)

  function Joiner(id: PeerID): Claim {
    Claim(id, "", "key", [], 0, 1, "")
  }

  function Joinee(a: Addr): PeerRec {
    PeerRec("net", "", a, "key", [], 0, 1)
  }

  function Lan(peers: map<PeerID, PeerRec>, nextIP: Addr, count: int, history: map<Addr, int>, given: set<Addr>, lost: set<Addr>): World {
    World(DB(map["net" := NetRec(LAN, Some(nextIP), count, Some(history))], peers), map["net" := given], map["net" := lost],
          map["net" := map[]])
  }

  const CREATED := Lan(map[], 1, 0, map[], NONE, NONE)
  const ONE := Lan(map["a" := Joinee(1)], 2, 1, map[1 := 0], {1}, NONE)
  const TWO := Lan(map["a" := Joinee(1), "b" := Joinee(2)], 3, 2, map[1 := 0, 2 := 0], {1, 2}, NONE)
  const SWEPT_ONE := Lan(map["b" := Joinee(2)], 3, 1, map[1 := 0, 2 := 0], {1, 2}, {1})
  const SWEPT := Lan(map[], 3, 0, map[1 := 0, 2 := 0], {1, 2}, {1, 2})

  lemma LanJoin(w: World, id: PeerID, a: Addr, w': World)
    requires ValidDB(w.db) && id !in w.db.peers && "net" in w.db.networks && "net" in w.given
    requires w.db.networks["net"].history.Some? && w'.lost == w.lost && w'.freed == w.freed && w'.given == Grown(w.given, "net", a)
    requires Picks(w.db.networks["net"].cidr, Used(w.db, "net"), w.db.networks["net"].history.value, Some(a))
    requires w'.db == DB(w.db.networks["net" := HandedOut(w.db.networks["net"], a)], w.db.peers[id := Joinee(a)])
    ensures Takes(w, Register(Joiner(id), "net", 0), w')
  {
    hide Picks, Used, PossiblyFreed;
    assert Joins(w.db, Joiner(id), "net", w'.db, Ok(a));
    assert Registers(w.db, Joiner(id), "net", 0, w'.db, Ok(a));
  }

  lemma LanOne()
    ensures Takes(CREATED, Register(Joiner("a"), "net", 0), ONE)
  {
    assert Unrecorded(LAN, Used(CREATED.db, "net"), map[], 1);
    assert NONE + {1} == {1};
    LanJoin(CREATED, "a", 1, ONE);
  }

  lemma LanTwo()
    ensures Takes(ONE, Register(Joiner("b"), "net", 0), TWO)
  {
    assert Members(ONE.db, "net") == {"a"};
    assert Used(ONE.db, "net") == {1};
    assert Unrecorded(LAN, {1}, map[1 := 0], 2);
    assert {1} + {2} == {1, 2};
    LanJoin(ONE, "b", 2, TWO);
  }

  lemma LanSwept()
    ensures Takes(TWO, Expel("a"), SWEPT_ONE) && Takes(SWEPT_ONE, Expel("b"), SWEPT)
  {
    assert NONE + {1} == {1} && {1} + {2} == {1, 2};
  }

  lemma SweptFull(claim: Claim, db': DB, r: Result<Addr, Error>)
    requires Registers(SWEPT.db, claim, "net", 0, db', r)
    ensures r == Err(AddressSpaceExhausted)
  {
    hide Used, NameFor, PossiblyFreed;
    NoneUsed();
  }

  lemma NoneUsed()
    ensures Used(SWEPT.db, "net") == {}
  {}

  /** After its two peers are swept, a network of two hosts is empty, yet refuses every new peer. */
  lemma EmptyYetExhausted(claim: Claim, db': DB, r: Result<Addr, Error>)
    requires Registers(SWEPT.db, claim, "net", 0, db', r)
    ensures Run([EMPTY, CREATED, ONE, TWO, SWEPT_ONE, SWEPT],
                [Create("net", LAN), Register(Joiner("a"), "net", 0), Register(Joiner("b"), "net", 0), Expel("a"), Expel("b")])
    ensures SWEPT.db.peers == map[] && r == Err(AddressSpaceExhausted)
  {
    hide Takes, Registers, Lan, Joiner;
    LanCreated();
    LanOne();
    LanTwo();
    LanSwept();
    SweptFull(claim, db', r);
  }

  lemma LanCreated()
    ensures Takes(EMPTY, Create("net", LAN), CREATED) && SWEPT.db.peers == map[]
  {}
}
