# Veld, verified

Veld is a mesh VPN. Nodes hold encrypted sessions with each other, filter what comes in
against an access policy, and find each other through a coordinator and relays. This
project models the parts of it that keep state or must agree with each other, and proves
what they promise over every input and every run.

Each component has the same shape. A specification on values says what the component
should do. A class with the program's own fields and loops is proved to do exactly that,
call by call. Lemmas then follow the specification through arbitrary runs.

| file | component |
|---|---|
| `ReplayWindow.dfy` | the 2048-bit anti-replay ring, against the set of all accepted nonces |
| `Session.dfy` | a session's nonce counter and its two-phase decryption, over a network that drops, repeats and reorders |
| `PeerSessions.dfy` | the active, pending and previous session of a peer |
| `Flows.dfy` | flows and the key both directions share |
| `FlowRecency.dfy` | the flow table as a sequence, most recently seen first |
| `FlowTable.dfy` | the sharded table with its linked eviction list, proved to be that sequence |
| `Packets.dfy` | parsing IPv4, IPv6, TCP, UDP and ICMP, and the rejects the node builds |
| `PacketLaws.dfy` | the kind and flow of every packet, told from its bytes |
| `AclPolicy.dfy` | policies, their compilation, and combining deciders |
| `InboundFilter.dfy` | the stateful inbound filter, over every run of packets and table events |
| `FlowRuns.dfy` | the table's order, closing flows and replies over those runs |
| `PeerTable.dfy` | the peer table and its three secondary indexes |
| `Handshake.dfy` | replay protection of handshake Inits across pruning, crashes and restarts |
| `ReplayCaches.dfy` | the bounded replay caches of the relay and of the coordinator |
| `Tofu.dfy` | pinned keys and the address index |
| `SignedMessage.dfy` | the byte strings that are signed |
| `Registry.dfy` | the coordinator's registry: networks, peers, addresses, migration, sweep |
| `RegistryHistory.dfy` | what the registry keeps over runs |
| `AddressReuse.dfy` | which address a registration gets, over runs |
| `Bus.dfy` | the coordinator's signal bus, split where it releases its lock |
| `RateLimiter.dfy` | the per-address token bucket and its collector |
| `Wrappers.dfy`, `Collections.dfy`, `Names.dfy` | shared definitions |

## What holds

* No nonce is accepted twice and no packet is delivered twice, whatever the network does,
  across session changes too.
* The eviction list and the shard maps always hold the same flows. They stay sorted by
  when they were last seen exactly while no operation goes in front of a later reading,
  and then eviction removes the flow seen longest ago.
* With a policy set, a delivered inbound packet starts a flow that the policy in force
  allows, or belongs to a live flow that such a start established and that has stayed
  established since.
* What a packet starts, ends or reports is decided by bytes of its headers, whatever
  extension headers, options or fragments it has.
* Compiling a policy keeps its meaning, and combining policies allows what all allow.
* The rate limiter grants exactly the requests that keep every stretch of time within
  burst + rate x its length.
* The pin store lets a key in at an address exactly if no other key holds the address
  among its latest seventeen.
* Two peers of a network never share an address or a name. In a registry that starts
  empty, an address is not handed out again while one that was never handed out is left;
  in a network migrated from an older version, while one is left that is not recorded.
* Signed messages agree exactly when the claims do, up to the order of the routes.

## Where the code and its comments or intentions part

Each is proved, with the exact condition under which the intended property holds.

* A session hands out distinct nonces if and only if `Encrypt` is called at most 2^64
  times; the counter keeps moving after the rekey threshold and then wraps
  (`Session.SentNoncesDistinct`).
* Timestamps of Inits that take effect strictly increase if and only if the clock starts
  more than 30 s less 512 ns after the epoch, because a stamp below zero is saved but not
  loaded again (`Handshake.EffectsIncrease`).
* A sweep does not record when it freed an address. The address stays marked as held and
  is never handed out again, so an empty network can refuse every peer
  (`AddressReuse.ExhaustedIff`, `AddressReuse.LostForever`, `AddressReuse.EmptyYetExhausted`).
* A call signature can be used twice if and only if its timestamp is exactly 120 s ahead
  of the coordinator's clock when first used (`CallReplay.ReplayableIffWindowAhead`).
* Both replay caches are consulted under a lock with a clock reading taken before it. A
  reading older than one with which the cache was swept can let a message or signature in
  again (`RelayReplay.LateReadingReplays`, `CallReplay.LateReadingReplays`). A message
  stays cached exactly until a sweep with a reading past its expiry
  (`RelayReplay.KeptUntilSwept`). A signature's entry stays exactly until such a sweep or
  such a use (`CallReplay.KeptIff`), and until then a second use passes exactly in the case
  above (`CallReplay.AcceptedAgainIff`).
* The flow list is meant to be in order of last use. It is if and only if every lookup
  has read a time no earlier than that of the record it goes in front of, and every stamp
  the inbound filter writes without moving the record lies between its neighbours
  (`FlowRuns.OrderKeptIff`). Two lookups in different shards can reach the list in another
  order than they read the clock (`FlowRuns.CrossedReadingsBreakOrder`), and the other loop
  can come in between a lookup and its stamp, which leaves the flow seen last next in line
  for eviction (`FlowRuns.LateStampBreaksOrder`).
* Replies to an allowed connection are documented to pass always. A reply gets through if
  and only if two things hold (`FlowRuns.ReplyArrivesIff`). The sender's policy must let
  the sender start a connection to the reply's own port: with one rule that lets Alice
  reach Bob's port 22, Bob takes her connection and is not let answer it
  (`FlowRuns.AcceptedIsNotAnswered`). And the receiver must have the flow open from an
  allowed inbound start that every later event has spared and that has not timed out: the
  answer to a connection the node itself opened is dropped, for an outbound start is
  recorded but opens nothing (`FlowRuns.OwnReplyIsDropped`).
* Fragments are meant to pass for established flows. A later fragment carries no ports
  and passes, with a policy set, if and only if the flow without ports between its two
  addresses is open (`FlowRuns.FragmentDeliveredIff`). So later fragments of a TCP or UDP
  connection are dropped however established it is, unless a start with both ports 0 was
  allowed before (`FlowRuns.FragmentsOfConnectionsDropped`).
* An empty packet uses up its nonce but comes back as nil, so it neither is delivered nor
  confirms a pending session (`PeerSessions.EmptyConfirmsNothing`).
* Both directions of a flow share a key for every flow except an IPv4 flow whose two
  addresses differ only above their last four bytes and whose ports are equal
  (`Flows.BothDirectionsShareKey`). A parsed flow is of the usual form unless it is an
  IPv4 packet quoted by an ICMPv6 error from an address whose first bytes are not zero
  (`Packets.ParsedFlowIsCanonical`).
* A prohibited message for an IPv6 packet reads back as an error about that packet's flow
  if and only if the packet has no extension headers (`Packets.ProhibitedReadsBack`).
* A flow that is closing is not reopened by a new connection on the same ports: after
  SYN, FIN and SYN again the flow is not open (`FlowRuns.ReconnectIsBlocked`). It stays
  closing until it is evicted, removed, or left alone past its timeout; its own packets
  prolong it (`FlowRuns.StaysClosingIff`).
* When a victim's shard is locked, `evictOneLocked` leaves the table as it was. The
  comment speaks of a temporary overshoot, but the loop in `Lookup` evicts again until
  there is room (`FlowTable.FlowTable.EvictOne`).
* A rule is warned about as one that can never match when its two ends are one and the
  same peer or have no peer in common. The filter only asks about two different peers
  (`internal/dataplane/dispatcher.go:290-291` and `400-406`; a node is not in its own table,
  `internal/coord/client.go:326-328`), so the first warning is right unless an end is the
  wildcard, and the second never is (`AclPolicy.WarningRightIff`).
* Idle collection changes no answer if and only if burst <= 900 s x rate
  (`RateLimiter.CollectionInvisibleIff`).
* The empty key is never evicted. While no request carries it, the cap of 10000 holds and
  collection ends (`RateLimiter.CapHolds`). Once one does, there is a run to any number of
  entries, and a collection with 10000 live entries newer than the empty key never ends
  (`RateLimiter.EmptyKeyDefeatsCap`, `RateLimiter.TrimmableIff`).
* Loading a saved pin file restores both maps if and only if the empty key is not pinned
  (`Tofu.LoadUndoesSave`).
* Two claims can have one encoding once a field reaches 2^32 bytes
  (`SignedMessage.LongFieldsCollide`).

## Model

| member | source | states |
|---|---|---|
| `ReplayWindow.Window.SetBit` | internal/session/window.go:58-61 | sets the bit of a ring position and of no other |
| `ReplayWindow.Window.ClearBit` | internal/session/window.go:63-66 | clears the bit of a ring position and of no other |
| `ReplayWindow.Window.GetBit` | internal/session/window.go:68-71 | reads the bit of a nonce |
| `ReplayWindow.Window.ClearAll` | internal/session/window.go:34-37 | a jump of a window or more leaves no bit set |
| `ReplayWindow.Window.ClearAhead` | internal/session/window.go:38-42 | after a shorter jump the ring holds exactly the accepted nonces of the new window |
| `ReplayWindow.Window.Mark` | internal/session/window.go:43-55 | marking a nonce of the window adds it and disturbs no other nonce of the window |
| `ReplayWindow.Window.Check` | internal/session/window.go:17-22 | true exactly when the nonce is new and less than 2048 behind every accepted nonce |
| `ReplayWindow.Window.CheckAndMark` | internal/session/window.go:24-56 | accepts exactly when `Check` would, and then the accepted set grows by the nonce; the ring keeps agreeing with the set |
| `ReplayWindow.SetAndClear` | internal/session/window.go:58-66 | setting or clearing one bit of a word decides that bit and no other |
| `ReplayWindow.OfferAllGrows` | internal/session/window.go:24-56 | nothing leaves the accepted set, whatever is offered |
| `ReplayWindow.RejectedForever` | internal/session/window.go:17-56 | a nonce rejected once is rejected after any further offers |
| `ReplayWindow.AcceptedAtMostOnce` | internal/session/window.go:24-56 | after a nonce was offered once, every later offer of it fails |
| `Session.Open` | internal/session/session.go:86-89 | ideal authenticated encryption: opens exactly what was sealed under the same key and nonce |
| `Session.Session.Encrypt` | internal/session/session.go:64-70 | uses the counter as nonce and moves it on by one, modulo 2^64; fails exactly at and above the threshold |
| `Session.Session.DecryptBegin` | internal/session/session.go:75-89 | the first half: threshold, window check and opening, without touching the window |
| `Session.Session.DecryptFinish` | internal/session/session.go:91-97 | the second half: delivers exactly if the nonce is still fresh, and then marks it |
| `Session.Session.Decrypt` | internal/session/session.go:75-98 | delivers exactly a sealed packet whose nonce is below the threshold and fresh; only then does the window move |
| `Session.StepsAreMethods` | internal/session/session.go:64-97 | the steps of a run do what the methods do: the counter as nonce below 2^32, first half, second half |
| `Session.SentNoncesDistinct` | internal/session/session.go:64-70 | over every run successful encrypts use nonces below 2^32, distinct if and only if there were at most 2^64 calls |
| `Session.WrappedNonceRepeats` | internal/session/session.go:64-70 | past 2^64 calls some nonce was used twice |
| `Session.EarlyNoncesDistinct` | internal/session/session.go:64-70 | up to 2^64 calls all nonces used are distinct |
| `Session.RunInv` | internal/session/session.go:64-98 | what every interleaving of senders, network and half-finished decrypts keeps |
| `Session.DeliveredAtMostOnce` | internal/session/session.go:75-98 | with loss, repetition, reordering and interleaved decrypts, what is delivered was sent, and each packet at most once |
| `Session.FreshPacketIsDelivered` | internal/session/session.go:75-98 | a sent packet with a fresh nonce is delivered when it arrives undisturbed |
| `PeerSessions.Entry.SetSession` | internal/peer/state.go:71-79 | the session, or none, becomes active and a different one it replaces becomes previous; the pending one is kept |
| `PeerSessions.Entry.SetPendingSession` | internal/peer/state.go:97-101 | replaces the pending session only, by any session or none |
| `PeerSessions.Entry.PromotePendingSession` | internal/peer/state.go:105-118 | the pending session becomes active and the active one previous; nothing changes when none is pending |
| `PeerSessions.Entry.DecryptDataPacket` | internal/dataplane/dispatcher.go:655-688 | tries active, pending and previous in order; a packet under the pending session promotes it; an empty one is marked, not returned, and promotes nothing |
| `PeerSessions.ReceiveNeverRepeats` | internal/dataplane/dispatcher.go:655-688 | a ciphertext delivered before is not delivered again in any role its session has moved to |
| `PeerSessions.RunInv` | internal/peer/state.go:67-118 | windows know every nonce delivered under their key, over every run of installs, promotions and packets |
| `PeerSessions.NoCiphertextTwice` | internal/dataplane/dispatcher.go:655-688 | over every run no ciphertext is delivered twice |
| `PeerSessions.ReceiveExact` | internal/dataplane/dispatcher.go:655-688 | one packet by its key: delivered exactly if it opens and is not empty; it then confirms a pending session that is not active, and the roles and accepted nonces are given in full |
| `PeerSessions.EmptyConfirmsNothing` | internal/dataplane/dispatcher.go:655-688 | an empty packet is not delivered, changes no role, and uses up its nonce |
| `PeerSessions.RunMirrors` | internal/peer/state.go:67-118 | over every run the three roles and their windows are what the handshakes and packets tell, recorded without sessions |
| `PeerSessions.DeliveredIff` | internal/dataplane/dispatcher.go:655-688 | over every run a packet is delivered if and only if it is not empty, its key is the current one, the waiting one or the one replaced last, and its nonce is below 2^32 and fresh under that key |
| `PeerSessions.ReceiveKeeps` | internal/dataplane/dispatcher.go:655-688 | a packet already delivered is not delivered again, a delivered one is remembered in every role, and no memory is lost |
| `PeerSessions.Entry.TryDecrypt` | internal/dataplane/dispatcher.go:657-662 | one attempt: the session's window moves, in every role it plays, exactly if the packet opens |
| `Flows.CompareAntisymmetric` | internal/acl/flowtable.go:146-168 | address comparison changes sign with its arguments and is 0 exactly on equal bytes |
| `Flows.BothDirectionsShareKey` | internal/acl/flowtable.go:121-143 | a flow and its reverse have the same key exactly when they are not told apart by address bytes the comparison skips |
| `Flows.KeyDeterminesFlow` | internal/acl/flowtable.go:121-143 | only a flow and its reverse can share a key |
| `Flows.SameKeyIffSameConversation` | internal/acl/flowtable.go:121-143 | for a flow in the usual form, two keys agree exactly for the flow and its reverse |
| `Flows.MarkedAgainstKey` | internal/acl/flowtable.go:121-143 | the reply mark says exactly whether the key is the flow or its reverse |
| `FlowRecency.IndexOf` | internal/acl/flowtable.go:263-319 | the first record under a key, if any |
| `FlowRecency.LookupInv` | internal/acl/flowtable.go:263-319 | looking up or creating keeps keys unique, the order by last-seen time and the cap, exactly if its reading is not before that of the record it goes in front of |
| `FlowRecency.UpdateStateInv` | internal/acl/flowtable.go:368-397 | so does changing a state, under the same condition |
| `FlowRecency.ExpireInv` | internal/acl/flowtable.go:437-458 | so does expiry, which keeps exactly the records that are not closed and not idle beyond the limit of their protocol number |
| `FlowRecency.SiftOne` | internal/acl/flowtable.go:437-458 | expiring key by key, in any order, is expiring all at once |
| `FlowRecency.EvictsLeastRecent` | internal/acl/flowtable.go:300-365 | making room removes one record only at the cap, and one seen no later than any kept |
| `FlowRecency.ApplyInv` | internal/acl/flowtable.go:263-458 | every operation keeps the invariant exactly if it is in place |
| `FlowRecency.RunInv` | internal/acl/flowtable.go:263-458 | over every run, whatever the operations have read, all states are sorted by last-seen time, unique by key and within the cap if and only if every operation is in place |
| `FlowRecency.ClockedIsInPlace` | internal/acl/flowtable.go:263-458 | with readings in the order of the list, every operation is in place |
| `FlowRecency.StampKeepsOrderIff` | internal/dataplane/dispatcher.go:424-440 | the filter's own stamp, which moves nothing, keeps the order exactly if it lies between the readings of the records around it |
| `FlowTable.EvictList.constructor` | internal/acl/flowtable.go:87-116 | starts empty |
| `FlowTable.EvictList.Unlink` | internal/acl/flowtable.go:198-211 | takes one entry out of the doubly linked list and leaves the others in order |
| `FlowTable.EvictList.LinkFront` | internal/acl/flowtable.go:215-225 | puts an entry in front |
| `FlowTable.EvictList.LinkBack` | internal/acl/flowtable.go:229-239 | puts an entry at the back |
| `FlowTable.EvictList.MoveToFront` | internal/acl/flowtable.go:243-246 | moves one entry to the front and leaves the others in order |
| `FlowTable.EvictList.PopOldest` | internal/acl/flowtable.go:251-258 | takes the last entry off |
| `FlowTable.InStepDelete` | internal/acl/flowtable.go:277-282 | maps and list stay in step when an entry leaves both |
| `FlowTable.InStepAdd` | internal/acl/flowtable.go:312-317 | and when an entry joins both |
| `FlowTable.TotalUpdate` | internal/acl/flowtable.go:312-317 | the sum of the shard sizes follows one shard |
| `FlowTable.FlowTable.constructor` | internal/acl/flowtable.go:87-116 | an empty valid table, with the defaults for a cap or timeout of 0 or less |
| `FlowTable.FlowTable.Position` | internal/acl/flowtable.go:264-273 | a key is in its shard exactly if it is in the list, and both lead to the same entry |
| `FlowTable.FlowTable.KeysUnique` | internal/acl/flowtable.go:198-458 | in a valid table no two listed entries share a key |
| `FlowTable.FlowTable.Forget` | internal/acl/flowtable.go:401-418 | removes one entry from list, shard and count together |
| `FlowTable.FlowTable.Refresh` | internal/acl/flowtable.go:284-291 | stamps an entry and brings it to the front |
| `FlowTable.FlowTable.Insert` | internal/acl/flowtable.go:312-317 | adds an entry to shard, list and count |
| `FlowTable.FlowTable.TryEvict` | internal/acl/flowtable.go:325-363 | one attempt: removes the oldest entry unless its shard is locked, else leaves everything in place |
| `FlowTable.FlowTable.EvictOne` | internal/acl/flowtable.go:323-365 | removes the oldest entry exactly if its shard is free at one of eight attempts, else nothing |
| `FlowTable.FlowTable.EvictUntilRoom` | internal/acl/flowtable.go:300-303 | terminates, if no shard stays locked for ever, with the count below the cap, having kept a prefix of the list |
| `FlowTable.FlowTable.FindLive` | internal/acl/flowtable.go:271-283 | finds the live entry of a key and removes a stale one |
| `FlowTable.FlowTable.Create` | internal/acl/flowtable.go:300-318 | makes room and puts the new entry in front |
| `FlowTable.FlowTable.Lookup` | internal/acl/flowtable.go:263-319 | equals the lookup on the recency sequence; says whether the entry is new and which direction was asked for |
| `FlowTable.FlowTable.UpdateState` | internal/acl/flowtable.go:368-397 | equals the state change on the recency sequence; true exactly for a live flow |
| `FlowTable.FlowTable.RemoveFlow` | internal/acl/flowtable.go:401-418 | equals removal on the recency sequence |
| `FlowTable.FlowTable.ExpireShard` | internal/acl/flowtable.go:440-456 | expires the stale entries of one shard |
| `FlowTable.FlowTable.ExpireOldFlows` | internal/acl/flowtable.go:437-458 | equals expiry on the recency sequence and counts what it removed |
| `Packets.WalkExtensionHeaders` | internal/acl/parse.go:110-233 | the loop over IPv6 extension headers ends within bounds on every input with the recursive reading of the chain |
| `Packets.Canonicalize` | internal/acl/flowtable.go:146-168 | the usual form of a flow, a fixed point exactly for flows already in it |
| `Packets.IPv4HeaderReads` | internal/acl/parse.go:50-108 | a built IPv4 header is read as its addresses and protocol; what other headers are read as is told by `PacketLaws.IPv4ByBytes` |
| `Packets.IPv6HeaderReads` | internal/acl/parse.go:110-233 | a built IPv6 header is read as its addresses and next header |
| `Packets.SegmentReads` | internal/acl/parse.go:250-286 | a TCP segment with any flags parses as its flow, and as start, end or other by its flags |
| `Packets.ResetReadsBack` | internal/dataplane/dispatcher.go:535-588 | a built RST parses as the end of the reversed flow |
| `Packets.ResetHasSameKey` | internal/dataplane/dispatcher.go:535-588 | it has the original key exactly when the flow is in the usual form |
| `Packets.QuotedIPv4ReadsBack` | internal/acl/parse.go:389-426 | an IPv4 packet quoted up to 64 bytes reads as the flow of the whole packet |
| `Packets.QuotedIPv6ReadsBack` | internal/acl/parse.go:428-456 | a quoted IPv6 packet does exactly when it has no extension headers |
| `Packets.ProhibitedReadsBack` | internal/dataplane/dispatcher.go:591-648 | a prohibited message parses as an error about the rejected packet's own flow exactly when an IPv6 packet had no extension headers |
| `Packets.WalkStart` | internal/acl/parse.go:110-248 | only a transport header of at least four bytes can start a flow |
| `Packets.WalkChain` | internal/acl/parse.go:132-233 | walking a well-formed chain ends at its transport header, or fails exactly if the chain is longer than the payload length |
| `Packets.ExtensionHeadersAreTransparent` | internal/acl/parse.go:110-233 | a well-formed chain of extension headers changes nothing exactly if it fits the payload length |
| `Packets.WalkCanonical` | internal/acl/parse.go:110-233 | an IPv4 flow parsed out of an IPv6 packet keeps the high address bytes of the outer packet |
| `Packets.ParsedFlowIsCanonical` | internal/acl/parse.go:34-456 | exactly which packets parse to a flow in the usual form |
| `PacketLaws.TransportByBytes` | internal/acl/parse.go:235-387 | start, end and error by bytes of the transport header: SYN without ACK, a UDP header, echo request; FIN or RST otherwise; the ICMP error types; and the ports |
| `PacketLaws.ErrorFlowByBytes` | internal/acl/parse.go:360-456 | an error is about the addresses, protocol and ports of the packet quoted eight bytes on, or keeps its own flow if that cannot be read |
| `PacketLaws.IPv4ByBytes` | internal/acl/parse.go:50-108 | over all bytes: fragment exactly if the offset field is not 0, or the header ends the packet and more fragments follow; start, end and error exactly by the transport bytes at offset 0; addresses, protocol and ports by bytes |
| `PacketLaws.ChainWalks` | internal/acl/parse.go:132-233 | the walk passes through every chain of headers in which each is named by the one before |
| `PacketLaws.EndByBytes` | internal/acl/parse.go:132-233 | at the last header of a complete chain the packet has the kind, addresses and ports of its bytes |
| `PacketLaws.IPv6ByBytes` | internal/acl/parse.go:110-233 | over all bytes: fragment exactly if a chain within the payload length leads to a fragment header with an offset; start, end and error exactly if it leads to such a transport header |
| `PacketLaws.FragmentHasNoPorts` | internal/acl/parse.go:83-101 | a later fragment, IPv4 or IPv6, parses as a fragment of the flow without ports between its addresses |
| `PacketLaws.BuiltLengths` | internal/dataplane/dispatcher.go:535-648 | the length fields of built packets are right, and none exceeds the smallest MTU |
| `AclPolicy.ResolveNames` | internal/acl/compile.go:105-111 | the keys of the known names among those listed |
| `AclPolicy.ResolveSubject` | internal/acl/compile.go:98-117 | the keys a name or tag stands for |
| `AclPolicy.Compile` | internal/acl/compile.go:52-94 | every rule and the outbound-only set are compiled to exactly the keys their subjects cover |
| `AclPolicy.PortsMatchScan` | internal/acl/compile.go:147-157 | finds a matching port range exactly if there is one |
| `AclPolicy.Decide` | internal/acl/compile.go:129-171 | the rule scan with its early exits computes the recursive decision |
| `AclPolicy.DecidesUnique` | internal/acl/compile.go:129-171 | the reference reading gives one decision per query |
| `AclPolicy.CompiledMatchesIff` | internal/acl/compile.go:52-94 | a compiled rule matches exactly when the rule does, by names, tags and wildcards |
| `AclPolicy.ScanDecides` | internal/acl/compile.go:129-171 | from any rule before which none matches, the scan decides as the policy says |
| `AclPolicy.CompilePreservesMeaning` | internal/acl/compile.go:52-171 | compiled decisions equal the reference: outbound-only destinations denied, else the first matching rule, else the default |
| `AclPolicy.DefaultDenyAllowsIff` | internal/acl/compile.go:129-171 | with default deny, TCP and UDP are allowed exactly by a rule that covers both ends and has a range for any protocol or one of its own around the port |
| `AclPolicy.SubjectsByForm` | internal/acl/compile.go:98-117 | a wildcard stands for all, a tag for the known peers under it, a name for its peer |
| `AclPolicy.CombinedDecision` | internal/acl/compile.go:204-218 | a combined decision is one of the two, the local one if that denies or matched and both allow, the network one if only that denies |
| `AclPolicy.PassesIffAllAllow` | internal/acl/compile.go:204-218 | a combination allows exactly what all the policies in it allow |
| `AclPolicy.CombineKeepsAll` | internal/acl/compile.go:183-218 | combining optional deciders allows exactly what each present one allows |
| `AclPolicy.ResolveKnown` | internal/acl/policy.go:422-443 | the known peers a subject stands for, all of them for the wildcard |
| `AclPolicy.IsUnmatchable` | internal/acl/policy.go:393-420 | warns exactly when the ends are one shared peer or have none in common |
| `AclPolicy.UnmatchableIff` | internal/acl/policy.go:268-287 | a rule of a valid policy matches no packet between two peers exactly when both ends cover one and the same peer only |
| `AclPolicy.WarningRightIff` | internal/acl/policy.go:393-420 | every unmatchable rule is warned about, and a warning is right exactly when the ends share a peer and neither is the wildcard |
| `AclPolicy.DisjointIsWarned` | internal/acl/policy.go:393-420 | every rule between ends without a common peer is warned about, though it can match |
| `InboundFilter.HandleInbound` | internal/dataplane/dispatcher.go:388-446 | delivers exactly the allowed starts and the packets of live established flows, and leaves the table as specified |
| `InboundFilter.FollowFlow` | internal/dataplane/dispatcher.go:414-440 | a packet that starts nothing passes exactly if its flow is live and established; FIN or RST closes it, others stamp it |
| `InboundFilter.HandledAsEvents` | internal/dataplane/dispatcher.go:388-446 | handling a packet is its lookup and, if delivered and no start, one close for FIN or RST or else one stamp |
| `InboundFilter.Restamp` | internal/dataplane/dispatcher.go:431-440 | the direct stamp of the front record |
| `InboundFilter.HandleOutbound` | internal/dataplane/dispatcher.go:265-337 | an outbound packet is sent exactly if it parses, the policy lets this node reach that peer's port, and there is a session; only a start is recorded, as new |
| `InboundFilter.LookupEstablishes` | internal/acl/flowtable.go:263-319 | a lookup establishes only the flow looked up, and only when asked to |
| `InboundFilter.OnlyAllowedStartsEstablish` | internal/dataplane/dispatcher.go:388-446 | of all events only an allowed inbound start makes a flow established |
| `InboundFilter.EstablishedWasAdmitted` | internal/dataplane/dispatcher.go:388-446 | an established flow had an allowed start and has been established ever since |
| `InboundFilter.DeliveredWasAllowed` | internal/dataplane/dispatcher.go:388-446 | over every run a delivered packet is an allowed start or belongs to a live flow that an allowed start established |
| `InboundFilter.StartOpensUnlessClosing` | internal/dataplane/dispatcher.go:404-412 | an allowed start leaves its flow open exactly when no live record of it was closing or closed |
| `FlowRuns.StepOrder` | internal/dataplane/dispatcher.go:388-446 | an event of the data plane keeps the table in order exactly if it is in place |
| `FlowRuns.OrderKeptIff` | internal/dataplane/dispatcher.go:388-446 | over every run, whatever the events have read, all states are in order if and only if every event is in place |
| `FlowRuns.LateStampBreaksOrder` | internal/dataplane/dispatcher.go:433-440 | a run of the two loops after which the flow seen last is the next to be evicted |
| `FlowRuns.CrossedReadingsBreakOrder` | internal/acl/flowtable.go:263-319 | two flows entered in another order than their clocks were read leave the list out of order |
| `FlowRuns.FindLookup` | internal/acl/flowtable.go:263-319 | what a lookup of one flow does to the record of any flow |
| `FlowRuns.StepClosing` | internal/acl/flowtable.go:263-458 | a closing record survives an event exactly if the event spares it, and is stamped as told |
| `FlowRuns.StaysClosingIff` | internal/dataplane/dispatcher.go:388-446 | over every run of any events a flow stays closing if and only if no event drops it by eviction, removal or expiry |
| `FlowRuns.ClosingBlocks` | internal/dataplane/dispatcher.go:414-440 | while a flow is closing its packets are dropped, starts aside |
| `FlowRuns.ReconnectIsBlocked` | internal/dataplane/dispatcher.go:404-422 | SYN, FIN, SYN: all delivered, the flow not open, the next packet dropped, under a policy that allows everything |
| `FlowRuns.StepOpen` | internal/acl/flowtable.go:263-458 | an established record survives an event exactly if the event spares it, and is stamped as told |
| `FlowRuns.OnlyStartsOpen` | internal/dataplane/dispatcher.go:388-446 | only an allowed start, with no live record closing, opens a flow that is not open |
| `FlowRuns.ReplyDeliveredIff` | internal/dataplane/dispatcher.go:414-440 | over every run from an empty table a packet that starts nothing is delivered if and only if an allowed start opened its flow, every event since spared it and the timeout has not passed |
| `FlowRuns.FragmentDeliveredIff` | internal/dataplane/dispatcher.go:424-430 | over every run a later fragment is delivered if and only if there is no policy or the flow without ports between its addresses is open |
| `FlowRuns.FragmentsOfConnectionsDropped` | internal/dataplane/dispatcher.go:424-430 | with a policy, later fragments are dropped if every start of their protocol had a port that is not 0 |
| `FlowRuns.ReplyArrivesIff` | internal/dataplane/dispatcher.go:286-296 | between two nodes, if and only if moreover the sender's policy allows its own port, whatever its flow table holds |
| `FlowRuns.AcceptedIsNotAnswered` | internal/dataplane/dispatcher.go:286-296 | under a policy of one rule a connection is let in, its flow is open, and the answer is not let out |
| `FlowRuns.OwnReplyIsDropped` | internal/dataplane/dispatcher.go:334-337 | the answer to the node's own SYN is dropped under a policy that allows everything |
| `PeerTable.Table.constructor` | internal/peer/table.go:23-30 | starts empty and valid |
| `PeerTable.Table.Unindex` | internal/peer/table.go:75-87 | clears exactly the slots that lead to the entry's peer |
| `PeerTable.Table.Upsert` | internal/peer/table.go:41-71 | refused exactly if another peer holds the VPN address; otherwise every index is the old one without the peer plus its free slots, no other peer loses one, and the entry is found by its address, and by endpoint and name unless another peer has them |
| `PeerTable.Table.SetEndpoint` | internal/peer/table.go:93-130 | refused exactly if another peer holds the endpoint and it is not claimed; otherwise the peer is found by it, a previous holder is left with none, and no other endpoint changes |
| `PeerTable.Table.Remove` | internal/peer/table.go:166-176 | the peer leaves all four maps and nothing else does |
| `PeerTable.Table.LookupByVPN` | internal/peer/table.go:141-146 | finds the entry a scan of all peers would find |
| `PeerTable.Table.LookupByEndpoint` | internal/peer/table.go:149-154 | finds a held entry that carries the endpoint |
| `PeerTable.Table.LookupByName` | internal/peer/table.go:157-162 | finds a held entry that carries the name, ignoring case |
| `PeerTable.Table.SourceAllowed` | internal/dataplane/dispatcher.go:736-760 | exactly the own address, or one in an own route that is neither in the mesh nor another peer's; no peer speaks for another |
| `PeerTable.ClearedSlot` | internal/peer/table.go:75-87 | clearing by slot value is clearing by peer |
| `PeerTable.OfferedIndexed` | internal/peer/table.go:41-71 | indexes stay sound and keep others' slots when an entry is replaced; the VPN index stays complete |
| `PeerTable.RemovedIndexed` | internal/peer/table.go:166-176 | indexes stay sound and complete when a peer leaves |
| `PeerTable.EndpointMoves` | internal/peer/table.go:105-130 | the endpoint index stays sound when a slot moves, and only a claim takes one from another peer |
| `Handshake.WindowIsExact` | internal/crypto/keys.go:197-202 | the freshness test with wrapping arithmetic is a distance of at most 30 s |
| `Handshake.NormalizedByNumbers` | internal/crypto/keys.go:167-174 | a stamp above 10^12 counts nanoseconds, one up to that seconds, wrapped into 64 bits |
| `Handshake.NegativeStampsAreCoarse` | internal/crypto/keys.go:167-174 | a normalized stamp below zero is at most -512 |
| `Handshake.Manager.UseReplayState` | internal/handshake/manager.go:214-240 | loads from the file what is recent, and keeps the larger stamp per peer |
| `Handshake.Manager.PruneTimestamps` | internal/handshake/manager.go:244-255 | drops exactly the stamps older than the window |
| `Handshake.Manager.RecordInit` | internal/handshake/manager.go:310-320 | refuses a stamp not above the last; otherwise records, prunes and returns what to save |
| `Handshake.Manager.HandleInit` | internal/handshake/manager.go:259-323 | one Init from its raw stamp to the saved file: refused exactly if stale, zero or not above the last, in seconds or nanoseconds by its size; otherwise memory and file are those of the modelled steps |
| `Handshake.HandledIsRun` | internal/handshake/manager.go:273-348 | those steps are a run |
| `Handshake.NextKeepsInv` | internal/handshake/manager.go:214-348 | each step, crash or tick keeps every effective stamp covered by memory, file or age |
| `Handshake.RunKeepsInv` | internal/handshake/manager.go:214-348 | over every run |
| `Handshake.EffectsIncrease` | internal/handshake/manager.go:273-348 | stamps that take effect strictly increase per peer in every run if and only if the clock starts more than 30 s - 512 ns after the epoch |
| `Handshake.FreshInitTakesEffect` | internal/handshake/manager.go:259-348 | in every reachable state an Init takes effect if its stamp is within 30 s, not zero and above all its peer has sent |
| `Handshake.EarlyClockReplays` | internal/handshake/manager.go:214-348 | at an earlier clock, a run with a crash in which one Init takes effect twice |
| `RelayReplay.Service.Sweep` | relay/service.go:278-283 | drops exactly the expired entries |
| `RelayReplay.Service.FreshMsg1` | relay/service.go:265-291 | with a clock reading taken before the lock: accepts exactly a recent message not in the cache when there is room, and then remembers it |
| `RelayReplay.AcceptsByNumbers` | relay/service.go:265-291 | accepted exactly within 30 s of the client clock, before or after, with a key not cached and fewer than 65536 entries or an expired one; cached until 30 s after the client clock |
| `RelayReplay.AcceptedUntilFull` | relay/service.go:265-291 | over every run until 65536 are accepted, exactly the messages within 30 s whose key was not accepted before |
| `RelayReplay.NextKeepsInv` | relay/service.go:265-291 | an accepted message is in the cache or was swept with a reading at which it was stale, in any order of readings; the bound holds |
| `RelayReplay.AcceptedAtMostOnce` | relay/service.go:265-291 | over every run the cache stays within its bound, and no message_1 is accepted twice if no reading is older than one with which the cache was swept |
| `RelayReplay.AgainOnlyIfLate` | relay/service.go:265-291 | in any order of readings, a second acceptance has a reading older than one with which the cache was swept |
| `RelayReplay.KeptUntilSwept` | relay/service.go:265-291 | in any order of readings, a message stays cached exactly until a sweep with a reading past its expiry |
| `RelayReplay.LateReadingReplays` | relay/service.go:265-291 | a run in which one late reading lets a message in twice |
| `CallReplay.SeenSignatures.Sweep` | coord/server/replay.go:37-42 | drops exactly the expired entries |
| `CallReplay.SeenSignatures.FirstUseOf` | coord/server/replay.go:30-51 | true exactly for a signature not remembered, when there is room |
| `CallReplay.SeenSignatures.VerifyCall` | coord/server/server.go:99-113 | with a clock reading taken before the lock: accepts exactly a signature in its window on its first use |
| `CallReplay.AcceptsByNumbers` | coord/server/server.go:99-113 | accepted exactly from 120 s before its second to 120 s after, if not remembered and there is room; remembered for 240 s |
| `CallReplay.RunKeepsInv` | coord/server/replay.go:30-51 | the cache stays within its bound and no entry outlives two windows |
| `CallReplay.RunKeeps` | coord/server/replay.go:30-51 | an accepted signature stays remembered until two windows have passed |
| `CallReplay.ReplayableIffWindowAhead` | coord/server/server.go:99-113 | after acceptance some later run accepts the signature again if and only if its timestamp was exactly 120 s ahead |
| `CallReplay.AgainOnlyIfAheadOrLate` | coord/server/server.go:99-113 | in any order of readings, a second acceptance was the whole window ahead at first or has a late reading |
| `CallReplay.KeptIff` | coord/server/replay.go:30-51 | in any order of readings, an entry keeps its expiry exactly until a sweep, or a use of the signature in its window, with a reading from the expiry on |
| `CallReplay.AcceptedAgainIff` | coord/server/server.go:99-113 | while the entry is kept, a second use passes exactly two windows later, for a timestamp that was the whole window ahead, if there is room |
| `CallReplay.LateReadingReplays` | coord/server/server.go:99-113 | a run in which one late reading lets a signature in twice |
| `Tofu.Store.Check` | internal/tofu/store.go:71-124 | pins a new key, moves a known one, refuses a mismatch or an address held or reserved for another key; the maps change as specified |
| `Tofu.Store.Unpin` | internal/tofu/store.go:138-145 | drops the pin and its address slots |
| `Tofu.Store.Forget` | internal/tofu/store.go:127-135 | forgets one key |
| `Tofu.Store.ForgetByVPNAddr` | internal/tofu/store.go:150-161 | forgets the key the address is pinned to or reserved for |
| `Tofu.Store.Save` | internal/tofu/store.go:248-267 | writes each pin once, in any order |
| `Tofu.Store.LoadFile` | internal/tofu/store.go:186-246 | entry by entry: the pin, its address, then its reservations where they displace nothing; entries without a key or a 32-byte fingerprint are skipped |
| `Tofu.MoveReserves` | internal/tofu/store.go:83-106 | exactly what a move reserves and releases |
| `Tofu.MoveKeepsInv` | internal/tofu/store.go:83-106 | pins and index still describe each other after a move |
| `Tofu.UnpinKeepsInv` | internal/tofu/store.go:138-145 | and after a pin is dropped, which frees that key's addresses and no other |
| `Tofu.NextKeepsInv` | internal/tofu/store.go:71-161 | and after every operation |
| `Tofu.RunKeepsInv` | internal/tofu/store.go:71-161 | over every run: an address leads to a key exactly when that key's pin lists it |
| `Tofu.StoreIsBook` | internal/tofu/store.go:71-161 | over every run a key passes exactly if no other key holds the address, and each key holds its latest seventeen addresses, the current one first |
| `Tofu.RunIsBooked` | internal/tofu/store.go:71-161 | every operation changes that book as told: a check moves the address to the front, forgetting drops a list |
| `Tofu.StaysReserved` | internal/tofu/store.go:71-161 | over every run an address stays reserved and refused to every other key exactly until its key is forgotten or has moved to more than sixteen distinct addresses since it was last there |
| `Tofu.StepAhead` | internal/tofu/store.go:71-161 | one operation: whether an address stays reserved, and which are newer then |
| `Tofu.ReleasedIff` | internal/tofu/store.go:83-106 | a move releases exactly the sixteenth previous address, and only if it goes to an address not already listed |
| `Tofu.LoadUndoesSave` | internal/tofu/store.go:186-267 | loading what was saved, in whatever order, restores both maps exactly when the empty key is not pinned |
| `SignedMessage.AppendPrefixedString` | internal/crypto/register.go:70-73 | appends a length and the bytes |
| `SignedMessage.RegisterSignedMessage` | internal/crypto/register.go:44-66 | builds the message from the claim with its routes sorted |
| `SignedMessage.CallSignedMessage` | internal/crypto/call.go:61-72 | builds the message of a call |
| `SignedMessage.PrefixedInjective` | internal/crypto/register.go:70-73 | a prefixed string can be told from what follows it |
| `SignedMessage.SortIsPermutation` | internal/crypto/register.go:45-49 | sorting gives a sorted permutation |
| `SignedMessage.SortEqualIffPermutation` | internal/crypto/register.go:45-49 | two lists sort alike exactly when they are permutations of each other |
| `SignedMessage.RegisterMessagesAgree` | internal/crypto/register.go:44-73 | with fields below 2^32 bytes, Register messages agree exactly when all fields do and the routes are permutations |
| `SignedMessage.CallMessagesAgree` | internal/crypto/call.go:61-72 | with fields below 2^32 bytes, call messages agree exactly when the claims do |
| `SignedMessage.U32Reads` | internal/crypto/register.go:70-73 | a length is written highest byte first, modulo 2^32 |
| `SignedMessage.U64Reads` | internal/crypto/register.go:64 | a timestamp is written highest byte first, in two's complement |
| `SignedMessage.LeqIff` | internal/crypto/register.go:49 | routes are compared bytewise: a start of the other, or the smaller byte where they first differ |
| `SignedMessage.RegisterMessageReads` | internal/crypto/register.go:44-73 | read back: domain, network, name, signing key, exchange key, endpoint, the routes counted and ascending, the time |
| `SignedMessage.CallMessageReads` | internal/crypto/call.go:61-72 | read back: domain, method, peer, the arguments counted and in order, the time |
| `SignedMessage.DomainsSpell` | internal/crypto/register.go:13-18 | the two domains spell their names and end with NUL |
| `SignedMessage.DomainsSeparate` | internal/crypto/call.go:61-72 | no Register message equals a call message |
| `SignedMessage.LongFieldsCollide` | internal/crypto/register.go:70-73 | without that bound two different claims can share a message |
| `Registry.Range` | coord/server/registry.go:321-327 | the addresses between two bounds |
| `Registry.Registry.CreateNetwork` | coord/server/registry.go:179-204 | adds a network with nothing assigned; an existing one is kept |
| `Registry.CidrByNumbers` | coord/server/registry.go:420-430 | a network is a block of its size at a multiple of it, and its hosts are all but the first and the last |
| `Registry.RoundedByNumbers` | coord/server/registry.go:82-87 | the latest full hour, or the value itself up to 0 |
| `Registry.Registry.UsedAddrs` | coord/server/registry.go:405-415 | the addresses held in a network |
| `Registry.Registry.IsNameTaken` | coord/server/registry.go:565-576 | true exactly if another peer of the network has the name, ignoring case |
| `Names.SameNameIff` | coord/server/registry.go:565-576 | names are the same exactly if they agree letter by letter but for case |
| `Registry.Registry.MigrateAssignedAddrs` | coord/server/registry.go:280-328 | an old record gets exactly the held addresses at 0 and the possibly freed ones at 1, by NextIP or by a bounded scan |
| `Registry.Registry.Allocate` | coord/server/registry.go:422-456 | the least unrecorded host, else the host freed first, the lower of two freed at once, else none |
| `Registry.Registry.RegisterPeer` | coord/server/registry.go:343-495 | the four refusals change nothing; a known peer keeps its address; a new one gets the allocated address, and record, count and NextIP follow |
| `Registry.Registry.RemovePeer` | coord/server/registry.go:580-640 | removes the peer, migrates the record, decrements the count and stamps the freed address |
| `Registry.Registry.SweepStalePeers` | coord/server/sweep.go:46-104 | removes exactly the peers that are not skipped and were last seen, or registered if never seen, longer ago than the limit, each once |
| `Registry.Registry.StaleIDs` | coord/server/sweep.go:55-82 | the stale peers, each once |
| `RegistryHistory.NameForUnique` | coord/server/registry.go:350-355 | the name a peer is given clashes with no other member's |
| `RegistryHistory.NameKeptIff` | coord/server/registry.go:350-355 | a claimed name is kept exactly if no other member has it letter by letter, ignoring case |
| `RegistryHistory.RegisteredRecord` | coord/server/registry.go:343-495 | the stored record is the claim at the answered address, last seen to the hour; nothing else changes |
| `RegistryHistory.RefusedExactly` | coord/server/registry.go:343-419 | when each of the refusals is given; none changes anything |
| `RegistryHistory.MigratedRecords` | coord/server/registry.go:280-328 | migration records everything handed out before when the old record can tell |
| `RegistryHistory.MigratedExactly` | coord/server/registry.go:280-328 | migration records exactly the held addresses at 0 and at 1 the other hosts below the next address, or all of them without one in a network of at most 65536 hosts |
| `RegistryHistory.MigratedGives` | coord/server/registry.go:280-459 | in a network from an older version a new peer gets the least unheld host from the next address on, else the least unheld |
| `RegistryHistory.JoinKeepsInv` | coord/server/registry.go:390-489 | a new registration keeps addresses and names unique, the count right and the history complete |
| `RegistryHistory.UnrecordedFirst` | coord/server/registry.go:422-459 | while an unrecorded host address remains, a new peer gets an address never handed out, also in a migrated network |
| `RegistryHistory.RemoveKeepsInv` | coord/server/registry.go:580-640 | removal keeps the invariant |
| `RegistryHistory.ExpelKeepsInv` | coord/server/sweep.go:78-97 | so does sweeping a peer, also before migration |
| `RegistryHistory.StepKeepsInv` | coord/server/registry.go:179-640 | every step does |
| `RegistryHistory.RunKeepsInv` | coord/server/registry.go:179-640 | over every run addresses and non-empty names stay unique per network, the count is the number of peers and every address handed out stays recorded |
| `AddressReuse.StepMarked` | coord/server/registry.go:422-640 | each step keeps held and swept addresses at 0 and every other one at the time its last holder was removed |
| `AddressReuse.RunMarked` | coord/server/registry.go:179-640 | over every run of a registry that starts empty |
| `AddressReuse.RunNextAbove` | coord/server/registry.go:343-495 | over every run the next address that older versions go by is above every address handed out |
| `AddressReuse.FreshWhileAny` | coord/server/registry.go:422-459 | while any host address was never handed out, a new peer gets the least of them |
| `AddressReuse.OldestFreedOtherwise` | coord/server/registry.go:422-459 | after that it gets the free address whose holder was removed first, the lower of two removed at once |
| `AddressReuse.ExhaustedIff` | coord/server/registry.go:343-459 | exhaustion is answered exactly for a new peer of a known network below its limit in which every host address is held or was a swept peer's |
| `AddressReuse.LostForever` | coord/server/sweep.go:78-97 | the address of a swept peer is never held again in any later state of any run |
| `AddressReuse.SweepIsRun` | coord/server/sweep.go:46-104 | a sweep is a run of single removals |
| `AddressReuse.SweepLoses` | coord/server/sweep.go:46-104 | it removes its peers and no others and loses exactly the addresses they held |
| `AddressReuse.EmptyYetExhausted` | coord/server/sweep.go:46-104 | a run after which a network without peers refuses every new peer |
| `Bus.Chan.Send` | coord/server/bus.go:109-117 | needs an open channel with room, so it never blocks |
| `Bus.Chan.TrySend` | coord/server/bus.go:169-174 | needs an open channel; drops when full |
| `Bus.Bus.SubscribeSignals` | coord/server/bus.go:103-121 | the new channel holds exactly the unexpired held signals in order; nothing stays held for the peer |
| `Bus.Bus.UnsubscribeSignals` | coord/server/bus.go:124-135 | closes and removes the channel, once |
| `Bus.Bus.SendUnderReadLock` | coord/server/bus.go:144-176 | delivers to every subscriber with room, or reports there is none |
| `Bus.Bus.SendUnderWriteLock` | coord/server/bus.go:150-165 | looks again: delivers to the subscribers that appeared in between and to no one else, or holds |
| `Bus.Bus.Hold` | coord/server/bus.go:179-206 | sweeps when full, drops for a new recipient if still full, else queues |
| `Bus.Bus.Requeue` | coord/server/bus.go:195-205 | drops the expired signals, appends the new one and keeps the newest sixteen |
| `Bus.Bus.DropPendingSignals` | coord/server/bus.go:209-213 | drops what is held for one peer |
| `Bus.Bus.Receive` | coord/server/server.go:496-499 | a reader takes the oldest signal |
| `Bus.EnqueueOk` | coord/server/bus.go:195-205 | queues stay non-empty, time-ordered and at most 16 long |
| `Bus.HoldingOk` | coord/server/bus.go:179-206 | at most 4096 recipients have held signals |
| `Bus.UnexpiredIsEnd` | coord/server/bus.go:183-190 | the unexpired signals are a suffix of the queue |
| `Bus.RunTells` | coord/server/bus.go:103-206 | over every run of holds and sweeps, a queue tells the newest sixteen unexpired signals sent |
| `Bus.SubscriberGetsNewestUnexpired` | coord/server/bus.go:103-206 | a subscriber gets exactly the newest of the signals held for it: at most sixteen, each less than 30 s old |
| `Bus.HoldingIsQueueStep` | coord/server/bus.go:179-206 | holding for one recipient is, for each recipient, a hold, a sweep or nothing, or a drop when 4096 others are waiting |
| `Bus.BusTells` | coord/server/bus.go:103-213 | over every run of bus operations each queue tells the newest sixteen unexpired signals of its log |
| `Bus.SubscriberGetsLog` | coord/server/bus.go:103-213 | a subscriber gets exactly the newest of the signals sent to it since it last subscribed or they were dropped, less those refused: at most sixteen, each less than 30 s old |
| `Bus.RefusedIff` | coord/server/bus.go:179-192 | refused exactly for a new recipient while 4096 others each wait for a signal less than 30 s old |
| `Bus.Bus.Publish` | coord/server/bus.go:107-118 | the channel joins the recipient's list and nothing stays held for it |
| `RateLimiter.IPRateLimiter.EvictOldest` | coord/server/ratelimit.go:87-104 | removes a key idle longest, unless that is the empty key |
| `RateLimiter.IPRateLimiter.Allow` | coord/server/ratelimit.go:62-85 | grants exactly if the refilled bucket holds a token, and says what the bucket and the map become |
| `RateLimiter.IPRateLimiter.DropIdle` | coord/server/ratelimit.go:112-118 | drops exactly the buckets idle over 15 minutes |
| `RateLimiter.IPRateLimiter.Collect` | coord/server/ratelimit.go:106-127 | drops the idle, then evicts down to the cap; can meet the empty key only if more than 10000 live entries are as new, and must if 10000 are newer |
| `RateLimiter.TrimmableIff` | coord/server/ratelimit.go:119-121 | the eviction loop can end if and only if fewer than 10000 entries are newer than a live empty key |
| `RateLimiter.SpinsIff` | coord/server/ratelimit.go:119-121 | it can meet the empty key if and only if more than 10000 entries are as new as it |
| `RateLimiter.CapHolds` | coord/server/ratelimit.go:62-127 | over every run without an empty key the cap holds in every state and every collection ends |
| `RateLimiter.EmptyKeyDefeatsCap` | coord/server/ratelimit.go:62-127 | for every n a run to n + 1 entries; from 10001 on the next collection never ends |
| `RateLimiter.LevelRises` | coord/server/ratelimit.go:62-85 | between requests a bucket fills at the rate up to the burst |
| `RateLimiter.GrantsAreBounded` | coord/server/ratelimit.go:62-85 | grants never exceed the level plus what flows in |
| `RateLimiter.RateHolds` | coord/server/ratelimit.go:62-127 | any stretch of a run grants at most burst + rate x its length, if burst <= 900 s x rate |
| `RateLimiter.GrantedIffConforming` | coord/server/ratelimit.go:62-85 | a request is granted if and only if with it the grants since each earlier request stay within burst + rate x the time since |
| `RateLimiter.LevelIsLeastSlack` | coord/server/ratelimit.go:62-85 | the tokens in a bucket are the least of these margins |
| `RateLimiter.SameLevelSameAnswers` | coord/server/ratelimit.go:106-127 | collection in between changes no answer under that bound |
| `RateLimiter.LevelsTellApart` | coord/server/ratelimit.go:62-85 | buckets at different levels are told apart by some requests |
| `RateLimiter.CollectionShows` | coord/server/ratelimit.go:106-127 | without the bound some run answers differently because of collection |
| `RateLimiter.CollectionInvisibleIff` | coord/server/ratelimit.go:106-127 | collection changes no answer in any run if and only if burst <= 900 s x rate |

## Left out

Not modelled:

- TUN devices, routes, sockets, gRPC, IPC, the command line and the tray: input and output.
- The internals of Noise, Ed25519, X25519, HKDF and AEAD: a ciphertext opens only under its own key and nonce, and a signature fits one message.
- Databases and codecs: a transaction is one step, a codec is a bijection on records, file writes succeed.
- The pending table of `Initiate` and `handleResp`, retries and the hold queue of packets, which is flushed without another policy check: bookkeeping around the replay rule that is modelled.
- The publish and subscribe half of the bus for peer events: the signal half contains its cases and more.
- `PolicySwap`, the local policy loader and reloading: file events.
- The textual syntax of policies, keys, ports and addresses; `normalizeIP`; unparsable addresses in stored records.
- Pin files of the first format, which have no keys and are dropped on load.
- Relay pairing and splicing, NAT negotiation, STUN, mDNS, DNS and coexistence detection: network plumbing with small parsers.
- Names are folded as ASCII; validated peer names are DNS labels.
- Addresses are natural numbers and a prefix is its first address and size, so IPv4 and IPv6 prefixes are handled alike.

Modelled as one step although the program takes several:

- FlowTable.FlowTable.TryEvict: popping a victim and removing it from its shard are one step, though the program releases its list lock in between.
- FlowTable.FlowTable.EvictOne: likewise for each attempt; which shards are locked at each attempt is a parameter.
- FlowTable.FlowTable.EvictUntilRoom: other goroutines may lock shards but change nothing meanwhile; a shard locked for ever would keep the loop from ending.
- InboundFilter.HandleInbound: one packet at a time, as in the receive loop; the run lemmas split it in two.
- Handshake.Manager.RecordInit: Inits are handled one at a time, as in the single receive loop; crashes may fall between all steps.

Stated under an assumption of the model:

- CallReplay.ReplayableIffWindowAhead: readings in the order of the lock; other orders are covered by `CallReplay.KeptIff`.
- CallReplay.AgainOnlyIfAheadOrLate: one way only; `CallReplay.KeptIff` and `CallReplay.AcceptedAgainIff` are exact.
- RateLimiter.IPRateLimiter.Collect: returns where an eviction meets the empty key, from where the program goes round again; `RateLimiter.TrimmableIff` says when going round can end.
- Handshake.EffectsIncrease: the clock stays 30 s below the largest 64-bit nanosecond count.
- RateLimiter.RateHolds: token arithmetic is over the reals, and the key is not evicted by the cap.
- RateLimiter.GrantedIffConforming: likewise, and without collections; with them under the bound of `RateLimiter.CollectionInvisibleIff`.
- RegistryHistory.MigratedRecords: a record of an older version must still tell, by its next address or by the bounded scan, every address handed out before.
- AddressReuse.RunMarked: removal times are after the epoch.
- PeerTable.Table.SetEndpoint: entries in the table change their endpoint only through the table.
- PeerSessions.Entry.SetSession: two different sessions share neither key nor window, as every handshake makes its own.
- PeerSessions.Entry.SetPendingSession: likewise.
