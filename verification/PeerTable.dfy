/**
 The peer routing table: entries by identity, with three more indexes, by VPN address,
 by UDP endpoint and by name, whose slots belong to one peer at a time.
 */
module PeerTable {
  import opened Wrappers
  import opened Names

  type Id = seq<int>
  type Addr = int
  type Endpoint = (int, int)

  /** A range of addresses, as a route or the mesh's own network covers one. */
  datatype Prefix = Prefix(first: Addr, last: Addr) {
    predicate Contains(a: Addr) {
      first <= a <= last
    }
  }

  class Entry {
    const id: Id
    const vpnAddr: Option<Addr>
    const name: string
    const subnetRoutes: seq<Prefix>
    var endpoint: Option<Endpoint>

    constructor (id: Id, vpnAddr: Option<Addr>, name: string, subnetRoutes: seq<Prefix>, endpoint: Option<Endpoint>)
      ensures this.id == id && this.vpnAddr == vpnAddr && this.name == name
      ensures this.subnetRoutes == subnetRoutes && this.endpoint == endpoint
    {
      this.id, this.vpnAddr, this.name := id, vpnAddr, name;
      this.subnetRoutes, this.endpoint := subnetRoutes, endpoint;
    }
  }

  /** An index without the slots of one peer. */
  ghost function Without<K>(index: map<K, Entry>, id: Id): map<K, Entry> {
    map k | k in index && index[k].id != id :: index[k]
  }

  /** An index with a slot for `e`, if `key` is one and no other peer holds it. */
  ghost function Offer<K>(index: map<K, Entry>, key: Option<K>, e: Entry): map<K, Entry> {
    if key.Some? && key.value !in index then index[key.value := e] else index
  }

  ghost predicate Finds<K>(index: map<K, Entry>, key: K, e: Entry) {
    key in index && index[key] == e
  }

  ghost predicate HeldByAnother<K>(index: map<K, Entry>, key: K, id: Id) {
    key in index && index[key].id != id
  }

  /** Every slot of another peer is as it was. */
  ghost predicate KeepsOthers<K(!new)>(before: map<K, Entry>, after: map<K, Entry>, id: Id) {
    forall k :: k in before && before[k].id != id ==> k in after && after[k] == before[k]
  }

  function NameKey(e: Entry): Option<string> {
    if e.name == "" then None else Some(Lower(e.name))
  }

  lemma KeepsItself<K(!new)>(index: map<K, Entry>, id: Id)
    ensures KeepsOthers(index, index, id)
  {}

  // ----- One index

  ghost predicate ById(byID: map<Id, Entry>) {
    forall id :: id in byID ==> byID[id].id == id
  }

  /** Every slot points at the entry its identity has, and that entry carries the slot's value. */
  ghost predicate Indexed<K(!new)>(byID: map<Id, Entry>, carried: map<Id, Option<K>>, index: map<K, Entry>) {
    && carried.Keys == byID.Keys
    && forall k :: k in index ==> index[k].id in byID && byID[index[k].id] == index[k] && carried[index[k].id] == Some(k)
  }

  /** Every value carried by an entry has its slot. */
  ghost predicate Complete<K>(byID: map<Id, Entry>, carried: map<Id, Option<K>>, index: map<K, Entry>)
    requires carried.Keys == byID.Keys
  {
    forall id :: id in byID && carried[id].Some? ==> carried[id].value in index && index[carried[id].value] == byID[id]
  }

  /** Clearing the slot an entry carries clears all slots of its peer. */
  lemma ClearedSlot<K(!new)>(byID: map<Id, Entry>, carried: map<Id, Option<K>>, index: map<K, Entry>, id: Id)
    requires Indexed(byID, carried, index) && id in byID && byID[id].id == id
    ensures Without(index, id) ==
              if carried[id].Some? && carried[id].value in index && index[carried[id].value] == byID[id]
              then index - {carried[id].value} else index
  {
    var rest := if carried[id].Some? && carried[id].value in index && index[carried[id].value] == byID[id]
                then index - {carried[id].value} else index;
    forall k ensures k in Without(index, id) <==> k in rest {
    }
    assert Without(index, id) == rest;
  }

  lemma AbsentHasNoSlots<K(!new)>(byID: map<Id, Entry>, carried: map<Id, Option<K>>, index: map<K, Entry>, id: Id)
    requires Indexed(byID, carried, index) && id !in byID
    ensures Without(index, id) == index
  {
    assert forall k :: k in index ==> index[k].id != id;
  }

  lemma RemovedIndexed<K(!new)>(byID: map<Id, Entry>, carried: map<Id, Option<K>>, index: map<K, Entry>, id: Id)
    requires Indexed(byID, carried, index) && ById(byID)
    ensures Indexed(byID - {id}, carried - {id}, Without(index, id))
    ensures Complete(byID, carried, index) ==> Complete(byID - {id}, carried - {id}, Without(index, id))
  {}

  /** Replacing a peer's entry and offering its value keeps the index right and other peers' slots in place. */
  lemma OfferedIndexed<K(!new)>(byID: map<Id, Entry>, carried: map<Id, Option<K>>, index: map<K, Entry>, e: Entry, key: Option<K>)
    requires Indexed(byID, carried, index) && ById(byID)
    ensures var after := Offer(Without(index, e.id), key, e);
            && Indexed(byID[e.id := e], carried[e.id := key], after)
            && KeepsOthers(index, after, e.id)
            && (Complete(byID, carried, index) && (key.Some? ==> key.value !in Without(index, e.id)) ==>
                  Complete(byID[e.id := e], carried[e.id := key], after))
  {}

  // ----- The table

  ghost function VpnAddrs(byID: map<Id, Entry>): map<Id, Option<Addr>> {
    map id | id in byID :: byID[id].vpnAddr
  }

  ghost function NameKeys(byID: map<Id, Entry>): map<Id, Option<string>> {
    map id | id in byID :: NameKey(byID[id])
  }

  ghost function Endpoints(byID: map<Id, Entry>): map<Id, Option<Endpoint>>
    reads byID.Values
  {
    map id | id in byID :: byID[id].endpoint
  }

  /** What the entries carry once `e` has replaced its peer's entry. */
  lemma CarriedUpdate(byID: map<Id, Entry>, e: Entry)
    ensures VpnAddrs(byID[e.id := e]) == VpnAddrs(byID)[e.id := e.vpnAddr]
    ensures Endpoints(byID[e.id := e]) == Endpoints(byID)[e.id := e.endpoint]
    ensures NameKeys(byID[e.id := e]) == NameKeys(byID)[e.id := NameKey(e)]
  {}

  lemma ByIdUpdate(byID: map<Id, Entry>, e: Entry)
    requires ById(byID)
    ensures ById(byID[e.id := e]) && (e.id in byID ==> byID[e.id].id == e.id)
  {}

  lemma CarriedAt(byID: map<Id, Entry>, id: Id)
    requires id in byID
    ensures id in VpnAddrs(byID) && VpnAddrs(byID)[id] == byID[id].vpnAddr
    ensures id in Endpoints(byID) && Endpoints(byID)[id] == byID[id].endpoint
    ensures id in NameKeys(byID) && NameKeys(byID)[id] == NameKey(byID[id])
  {}

  lemma AllCarried(byID: map<Id, Entry>)
    ensures Endpoints(byID).Keys == byID.Keys
    ensures forall id :: id in byID ==> Endpoints(byID)[id] == byID[id].endpoint
  {}

  /** Moving the endpoint touches the peer and a previous holder of it, and nobody else. */
  lemma CarriedByOthers(byID: map<Id, Entry>, carried: map<Id, Option<Endpoint>>, index: map<Endpoint, Entry>, id: Id, ep: Option<Endpoint>)
    requires Indexed(byID, carried, index) && ById(byID) && id in byID
    ensures CarriedAfter(carried, index, id, ep)[id] == ep
    ensures forall other :: other in byID && other != id ==>
              other in CarriedAfter(carried, index, id, ep) &&
              CarriedAfter(carried, index, id, ep)[other] == if ep.Some? && Finds(index, ep.value, byID[other]) then None else carried[other]
  {}

  lemma WithoutHasNone<K(!new)>(index: map<K, Entry>, id: Id)
    ensures forall k :: k in Without(index, id) ==> Without(index, id)[k].id != id
  {}

  ghost predicate HeldByOther(index: map<Endpoint, Entry>, id: Id, ep: Option<Endpoint>) {
    ep.Some? && ep.value in index && index[ep.value].id != id
  }

  /** The endpoint index once the peer's slot has moved to `ep`. */
  ghost function SlotAfter(index: map<Endpoint, Entry>, id: Id, ep: Option<Endpoint>, e: Entry): map<Endpoint, Entry> {
    if ep.Some? then Without(index, id)[ep.value := e] else Without(index, id)
  }

  /** What the entries carry once the peer has the endpoint and a previous holder of it has none. */
  ghost function CarriedAfter(carried: map<Id, Option<Endpoint>>, index: map<Endpoint, Entry>, id: Id, ep: Option<Endpoint>)
    : map<Id, Option<Endpoint>>
  {
    (if HeldByOther(index, id, ep) then carried[index[ep.value].id := None] else carried)[id := ep]
  }

  /** A slot is the peer's own exactly when it points at the peer's entry. */
  lemma SlotOwner(byID: map<Id, Entry>, carried: map<Id, Option<Endpoint>>, index: map<Endpoint, Entry>, id: Id, ep: Option<Endpoint>)
    requires Indexed(byID, carried, index) && ById(byID) && id in byID
    ensures ep.Some? && ep.value in index ==>
              && (index[ep.value] == byID[id] <==> index[ep.value].id == id)
              && index[ep.value].id in byID && byID[index[ep.value].id] == index[ep.value]
  {}

  /** Moving a peer's endpoint slot keeps the index right, even when it takes the slot of another. */
  lemma EndpointMoves(byID: map<Id, Entry>, carried: map<Id, Option<Endpoint>>, index: map<Endpoint, Entry>, id: Id, ep: Option<Endpoint>)
    requires Indexed(byID, carried, index) && ById(byID) && id in byID
    ensures var after := SlotAfter(index, id, ep, byID[id]);
            && Indexed(byID, CarriedAfter(carried, index, id, ep), after)
            && (!HeldByOther(index, id, ep) ==> KeepsOthers(index, after, id))
  {
    var after := SlotAfter(index, id, ep, byID[id]);
    var moved := CarriedAfter(carried, index, id, ep);
    forall k | k in after
      ensures after[k].id in byID && byID[after[k].id] == after[k] && moved[after[k].id] == Some(k)
    {
      if ep != Some(k) {
        assert k in index && carried[index[k].id] == Some(k);
      }
    }
  }

  class Table {
    var byID: map<Id, Entry>
    var byVPN: map<Addr, Entry>
    var byEndpoint: map<Endpoint, Entry>
    var byName: map<string, Entry>

    ghost predicate Holds(e: Entry)
      reads this
    {
      e.id in byID && byID[e.id] == e
    }

    ghost predicate Valid()
      reads this, byID.Values
    {
      && ById(byID)
      && Indexed(byID, VpnAddrs(byID), byVPN)
      && Complete(byID, VpnAddrs(byID), byVPN)
      && Indexed(byID, Endpoints(byID), byEndpoint)
      && Indexed(byID, NameKeys(byID), byName)
    }

    constructor ()
      ensures Valid() && byID == map[] && byVPN == map[] && byEndpoint == map[] && byName == map[]
    {
      byID, byVPN, byEndpoint, byName := map[], map[], map[], map[];
    }

    /** Removes the slots that point at `e`; these are all the slots of its peer. */
    method Unindex(e: Entry, ghost all: map<Id, Entry>)
      requires e.id in all && all[e.id] == e
      requires Indexed(all, VpnAddrs(all), byVPN) && Indexed(all, Endpoints(all), byEndpoint) && Indexed(all, NameKeys(all), byName)
      modifies this`byVPN, this`byEndpoint, this`byName
      ensures byVPN == Without(old(byVPN), e.id)
      ensures byEndpoint == Without(old(byEndpoint), e.id)
      ensures byName == Without(old(byName), e.id)
    {
      hide Indexed, Without, VpnAddrs, Endpoints, NameKeys, Lower;
      CarriedAt(all, e.id);
      ClearedSlot(all, VpnAddrs(all), byVPN, e.id);
      ClearedSlot(all, Endpoints(all), byEndpoint, e.id);
      ClearedSlot(all, NameKeys(all), byName, e.id);
      if e.vpnAddr.Some? && e.vpnAddr.value in byVPN && byVPN[e.vpnAddr.value] == e {
        byVPN := byVPN - {e.vpnAddr.value};
      }
      if e.endpoint.Some? && e.endpoint.value in byEndpoint && byEndpoint[e.endpoint.value] == e {
        byEndpoint := byEndpoint - {e.endpoint.value};
      }
      if e.name != "" {
        var key := Lower(e.name);
        if key in byName && byName[key] == e {
          byName := byName - {key};
        }
      }
    }

    /** Gives an entry whose peer has no slots those that are free. */
    method Index(e: Entry)
      requires e.vpnAddr.Some? ==> e.vpnAddr.value !in byVPN
      requires forall ep :: ep in byEndpoint ==> byEndpoint[ep].id != e.id
      requires forall n :: n in byName ==> byName[n].id != e.id
      modifies this`byVPN, this`byEndpoint, this`byName
      ensures byVPN == Offer(old(byVPN), e.vpnAddr, e)
      ensures byEndpoint == Offer(old(byEndpoint), e.endpoint, e)
      ensures byName == Offer(old(byName), NameKey(e), e)
    {
      if e.vpnAddr.Some? {
        byVPN := byVPN[e.vpnAddr.value := e];
      }
      if e.endpoint.Some? {
        var ep := e.endpoint.value;
        if ep !in byEndpoint || byEndpoint[ep].id == e.id {
          byEndpoint := byEndpoint[ep := e];
        }
      }
      if e.name != "" {
        var key := Lower(e.name);
        if key !in byName || byName[key].id == e.id {
          byName := byName[key := e];
        }
      }
    }

    /** Inserts or replaces a peer. Refused if its VPN address is another peer's; a name or endpoint of another peer is left alone. */
    method Upsert(e: Entry) returns (ok: bool)
      requires Valid()
      modifies this
      ensures Valid()
      ensures ok <==> !(e.vpnAddr.Some? && e.vpnAddr.value in Without(old(byVPN), e.id))
      ensures !ok ==> unchanged(this)
      ensures ok ==>
                && byID == old(byID)[e.id := e]
                && byVPN == Offer(Without(old(byVPN), e.id), e.vpnAddr, e)
                && byEndpoint == Offer(Without(old(byEndpoint), e.id), e.endpoint, e)
                && byName == Offer(Without(old(byName), e.id), NameKey(e), e)
      ensures KeepsOthers(old(byVPN), byVPN, e.id)
      ensures KeepsOthers(old(byEndpoint), byEndpoint, e.id)
      ensures KeepsOthers(old(byName), byName, e.id)
      // an accepted entry is found under its address, and under its endpoint and name unless another peer has them
      ensures ok && e.vpnAddr.Some? ==> Finds(byVPN, e.vpnAddr.value, e)
      ensures ok && e.endpoint.Some? && !HeldByAnother(old(byEndpoint), e.endpoint.value, e.id) ==> Finds(byEndpoint, e.endpoint.value, e)
      ensures ok && e.name != "" && !HeldByAnother(old(byName), Lower(e.name), e.id) ==> Finds(byName, Lower(e.name), e)
    {
      hide Indexed, Complete, KeepsOthers;
      if e.vpnAddr.Some? {
        if e.vpnAddr.value in byVPN && byVPN[e.vpnAddr.value].id != e.id {
          KeepsItself(byVPN, e.id);
          KeepsItself(byEndpoint, e.id);
          KeepsItself(byName, e.id);
          return false;
        }
      }
      Replace(e);
      return true;
    }

    method Replace(e: Entry)
      requires Valid() && (e.vpnAddr.Some? ==> e.vpnAddr.value !in Without(byVPN, e.id))
      modifies this
      ensures Valid()
      ensures byID == old(byID)[e.id := e]
      ensures byVPN == Offer(Without(old(byVPN), e.id), e.vpnAddr, e)
      ensures byEndpoint == Offer(Without(old(byEndpoint), e.id), e.endpoint, e)
      ensures byName == Offer(Without(old(byName), e.id), NameKey(e), e)
      ensures KeepsOthers(old(byVPN), byVPN, e.id)
      ensures KeepsOthers(old(byEndpoint), byEndpoint, e.id)
      ensures KeepsOthers(old(byName), byName, e.id)
    {
      hide Indexed, Complete, KeepsOthers, Offer, Without, VpnAddrs, NameKeys, Endpoints, NameKey, Lower, ById;
      ghost var all, endpoints := byID, Endpoints(byID);
      ByIdUpdate(all, e);
      OfferedIndexed(all, VpnAddrs(all), byVPN, e, e.vpnAddr);
      OfferedIndexed(all, endpoints, byEndpoint, e, e.endpoint);
      OfferedIndexed(all, NameKeys(all), byName, e, NameKey(e));
      if e.id in byID {
        Unindex(byID[e.id], all);
      } else {
        AbsentHasNoSlots(all, VpnAddrs(all), byVPN, e.id);
        AbsentHasNoSlots(all, Endpoints(all), byEndpoint, e.id);
        AbsentHasNoSlots(all, NameKeys(all), byName, e.id);
      }
      WithoutHasNone(old(byEndpoint), e.id);
      WithoutHasNone(old(byName), e.id);
      byID := byID[e.id := e];
      Index(e);
      assert Endpoints(all) == endpoints;
      CarriedUpdate(all, e);
    }

    /** Leaves an entry without an endpoint. */
    method Strip(e: Entry)
      requires Holds(e) && ById(byID)
      modifies e`endpoint
      ensures Endpoints(byID) == old(Endpoints(byID))[e.id := None]
      ensures forall x <- byID.Values :: x != e ==> x.endpoint == old(x.endpoint)
    {
      e.endpoint := None;
    }

    /** Moves the peer's endpoint slot to `ep`, whoever holds that. */
    method MoveSlot(e: Entry, ep: Option<Endpoint>)
      requires Holds(e) && ById(byID)
      requires Without(byEndpoint, e.id) ==
                 if e.endpoint.Some? && e.endpoint.value in byEndpoint && byEndpoint[e.endpoint.value] == e
                 then byEndpoint - {e.endpoint.value} else byEndpoint
      modifies this`byEndpoint, e`endpoint
      ensures byEndpoint == SlotAfter(old(byEndpoint), e.id, ep, e)
      ensures Endpoints(byID) == old(Endpoints(byID))[e.id := ep]
    {
      hide Without;
      var was := e.endpoint;
      if was.Some? && was.value in byEndpoint && byEndpoint[was.value] == e {
        byEndpoint := byEndpoint - {was.value};
      }
      e.endpoint := ep;
      if ep.Some? {
        byEndpoint := byEndpoint[ep.value := e];
      }
    }

    /**
     Gives a peer a new endpoint. If another peer holds it, an unauthenticated hint is
     refused, while a claim takes the slot and leaves that peer without an endpoint.
     */
    method SetEndpoint(id: Id, ep: Option<Endpoint>, claim: bool) returns (ok: bool)
      requires Valid()
      modifies this`byEndpoint, byID.Values`endpoint
      ensures Valid()
      ensures ok <==> id in byID && (claim || !HeldByOther(old(byEndpoint), id, ep))
      ensures !ok ==> unchanged(this) && Endpoints(byID) == old(Endpoints(byID))
      ensures ok ==>
                && byEndpoint == SlotAfter(old(byEndpoint), id, ep, byID[id])
                && Endpoints(byID) == CarriedAfter(old(Endpoints(byID)), old(byEndpoint), id, ep)
      ensures !claim ==> KeepsOthers(old(byEndpoint), byEndpoint, id)
      ensures ok ==> byID[id].endpoint == ep && (ep.Some? ==> Finds(byEndpoint, ep.value, byID[id]))
      ensures ok ==> forall other :: other in byID && other != id ==>
                byID[other].endpoint == if ep.Some? && Finds(old(byEndpoint), ep.value, byID[other]) then None else old(byID[other].endpoint)
    {
      hide Indexed, Complete, Without, KeepsOthers, Endpoints, VpnAddrs, NameKeys;
      KeepsItself(byEndpoint, id);
      if id !in byID {
        return false;
      }
      var e := byID[id];
      ghost var index, carried := byEndpoint, Endpoints(byID);
      CarriedAt(byID, id);
      SlotOwner(byID, carried, index, id, ep);
      ClearedSlot(byID, carried, index, id);
      EndpointMoves(byID, carried, index, id, ep);
      CarriedByOthers(byID, carried, index, id, ep);
      AllCarried(byID);
      if ep.Some? {
        if ep.value in byEndpoint && byEndpoint[ep.value] != e {
          if !claim {
            return false;
          }
          Strip(byEndpoint[ep.value]);
        }
      }
      MoveSlot(e, ep);
      AllCarried(byID);
      return true;
    }

    method Remove(id: Id)
      requires Valid()
      modifies this
      ensures Valid()
      ensures byID == old(byID) - {id}
      ensures byVPN == Without(old(byVPN), id)
      ensures byEndpoint == Without(old(byEndpoint), id)
      ensures byName == Without(old(byName), id)
    {
      hide Indexed, Complete, Without;
      ghost var all := byID;
      if id !in byID {
        AbsentHasNoSlots(all, VpnAddrs(all), byVPN, id);
        AbsentHasNoSlots(all, Endpoints(all), byEndpoint, id);
        AbsentHasNoSlots(all, NameKeys(all), byName, id);
        assert byID == byID - {id};
        return;
      }
      RemovedIndexed(all, VpnAddrs(all), byVPN, id);
      RemovedIndexed(all, Endpoints(all), byEndpoint, id);
      RemovedIndexed(all, NameKeys(all), byName, id);
      var e := byID[id];
      byID := byID - {id};
      Unindex(e, all);
      assert VpnAddrs(byID) == VpnAddrs(all) - {id};
      assert Endpoints(byID) == old(Endpoints(byID)) - {id};
      assert NameKeys(byID) == NameKeys(all) - {id};
    }

    /** The index answers as a scan of all entries would. */
    method LookupByVPN(addr: Addr) returns (r: Option<Entry>)
      requires Valid()
      ensures r.Some? ==> Holds(r.value) && r.value.vpnAddr == Some(addr)
      ensures forall id :: id in byID && byID[id].vpnAddr == Some(addr) ==> r == Some(byID[id])
    {
      r := if addr in byVPN then Some(byVPN[addr]) else None;
    }

    method LookupByEndpoint(ep: Endpoint) returns (r: Option<Entry>)
      requires Valid()
      ensures r.Some? <==> ep in byEndpoint
      ensures r.Some? ==> Holds(r.value) && r.value.endpoint == Some(ep)
    {
      r := if ep in byEndpoint then Some(byEndpoint[ep]) else None;
    }

    method LookupByName(name: string) returns (r: Option<Entry>)
      requires Valid()
      ensures r.Some? <==> Lower(name) in byName
      ensures r.Some? ==> Holds(r.value) && r.value.name != "" && Lower(r.value.name) == Lower(name)
    {
      r := if Lower(name) in byName then Some(byName[Lower(name)]) else None;
    }

    /**
     Whether a decrypted packet from `entry` may carry the source address `src`. No peer
     in the table can speak for another one's VPN address, nor, through a subnet route,
     for any address of the mesh.
     */
    method SourceAllowed(entry: Entry, src: Option<Addr>, mesh: Option<Prefix>) returns (ok: bool)
      requires Valid()
      ensures ok <==>
        && src.Some?
        && (entry.vpnAddr == src ||
            (&& (mesh.Some? ==> !(mesh.value.first <= src.value <= mesh.value.last))
             && (forall id :: id in byID && byID[id].vpnAddr == src ==> byID[id] == entry)
             && exists p <- entry.subnetRoutes :: p.first <= src.value <= p.last))
      ensures ok && Holds(entry) ==> forall id :: id in byID && byID[id].vpnAddr == src ==> byID[id] == entry
    {
      if src.None? {
        return false;
      }
      var a := src.value;
      if entry.vpnAddr == Some(a) {
        return true;
      }
      if mesh.Some? && mesh.value.Contains(a) {
        return false;
      }
      var owner := LookupByVPN(a);
      if owner.Some? && owner.value != entry {
        return false;
      }
      for i := 0 to |entry.subnetRoutes|
        invariant forall j :: 0 <= j < i ==> !entry.subnetRoutes[j].Contains(a)
      {
        if entry.subnetRoutes[i].Contains(a) {
          return true;
        }
      }
      return false;
    }
  }
}
