# ncdn, verified

Dafny models of the hard parts of a small content delivery network, with proofs:

- the L4 load balancer: Maglev table population and its health-driven life cycle
  (`NumberTheory`, `Maglev`, `Stability`, `L4lb`, `Bindings`), the XDP packet program (`Words`, `Jhash`,
  `FlowHash`, `Checksum`, `Encap`, `Counters`, `Xdp`), and both together while table writes and
  packets interleave (`Datapath`);
- the two-tier cache: one node on the heap, with its aliased objects (`Http`, `Rendezvous`,
  `Routing`, `Lru`, `Popcache`), and the network of edges, shields and origins as a system of steps
  (`Cdn`), with transparency of caching (`Transparency`, `Faults`) and hop bounds (`Hops`);
- the global load balancer: longest-prefix match, nearest point of presence, fallback (`Gslb`,
  `GslbCore`);
- the request-rate window (`RateWindow`).

`Wrappers` and `Sequences` hold what several of them share.

`dafny verify dfyconfig.toml` checks everything.

## How to read it

Code that works in place is a class with the same fields, or a method on an array or a buffer, proved
against a specification function; the properties are lemmas about those functions and invariants over
runs. Loop bodies of the source that are long are split into one method per inner loop, in the same order.

Foreign functions are parameters, so every theorem holds for any of them: SipHash
(`hash: Addr -> nat`, of which the low 64 bits are used), MD5 (`Hash = string -> Word32`), the
port-cutting of `net.SplitHostPort` (`removePort`), the origin's content (`origin`), the outcome of
every map write, buffer adjustment, probe and fetch (lost, whole, or with a body that breaks off).
SHA-256 is taken to be injective, so that a cache key is the text that is hashed. Header names are taken
to be canonical. Machine words are written out as subset types with explicit wrap-around.

Lookups of key 0 in the maps of the packet program always succeed, because the maps are arrays, so the
three early exits at the start of `lb_main` are not modelled. The number of destinations is below 2^32.

## What the proofs found

- The lookup table does not depend on how it is populated: it is the one fair table in which no backend
  would rather have had a slot that was given away later (`Stability.FairAndStableIffLookupTable`). In
  particular the slot that a live backend's hash points to belongs to it or to a live backend before it
  (`L4lb.FirstChoiceInstalled`).
- The outer IP checksum is right exactly when the single fold leaves no carry
  (`Encap.OuterChecksumVerifies`). Computing in little-endian order stores the same bytes as big-endian
  order exactly when neither fold overflows (`Checksum.SameBytesInEitherOrder`), so the equality does not
  hold of all headers. `Xdp.SingleFoldCanFail` gives a 60-byte frame that the program accepts and for
  which both fail.
- The flow hash loses source-port bits 0x0600 and nothing else (`FlowHash.FlowsMerge`): the protocol is
  OR-ed over the port's high byte.
- A frame shorter than 60 bytes loses the end of its datagram when it is encapsulated, because padding
  is cut that was never there (`Encap.RoundTrip`, `Encap.ExactLength`).
- If peer lists may disagree, a request can travel without bound exactly if the client sends `X-Shard`
  with an empty first value: it reads as unmarked, and marking it appends a second value that is never
  looked at (`Hops.BoundedIffMarkIsUsable`). Otherwise four hops are the bound, and they do happen
  (`Hops.AtMostFourHops`, `Hops.FourHopsHappen`). Agreeing lists of shields make it three, and with
  agreeing lists of edges as well three hops bound a request with any header (`Hops.AtMostThreeHops`,
  `Hops.NoShieldAsksAnother`).
- Error pages of upstream nodes are cached, and served as hits after the outage
  (`Faults.ErrorPagesAreServedAsHits`). The answers for a resource are the origin's if and only if no node
  has made an error page for it (`Faults.AnswersMatchIffNoFault`).
- The fallback to the next upstream does not cover a response whose body breaks off: a chain succeeds
  exactly if the first fetch that is not lost brings a whole response (`Cdn.FirstFetchDecides`). A page for
  a registered host is made with fetches left exactly if a body broke off
  (`Faults.FetchesWereLeftIffBodyBroke`), and this happens while the origin would have answered
  (`Faults.BrokenBodyEndsTheWalk`, `Faults.ErrorPageWithFetchesLeft`).
- With ports in the URL, requests to different hosts can share a cache key (`Routing.PortsCanCollide`).
- The region that serves an address depends on the order of the configuration exactly if two different
  regions share its longest match (`Gslb.OrderMattersOnlyForTies`), and the answer exactly if such regions
  would be answered differently (`Gslb.AnswerOrderMattersOnlyForTies`).
- Whatever the unlocked appends in `HealthCheckAll` do to the list, the fact that something changed is
  never lost.

## Model

| member | source | states |
|---|---|---|
| NumberTheory.Prime65537 | l4lb/l4lbdrv/drv.go:112-117 | the table size is prime |
| NumberTheory.OrbitIsPermutation | l4lb/l4lbdrv/drv.go:181-189 | for a prime m and any step in 1..m-1, m successive positions visit every slot exactly once |
| Maglev.Slot | l4lb/l4lbdrv/drv.go:181-189 | the cursor of a backend is always a slot of the table |
| Maglev.SlotClosedForm | l4lb/l4lbdrv/drv.go:181-189 | the stepping cursor computes (offset + j * skip) mod m |
| Maglev.ChoicesArePermutation | l4lb/l4lbdrv/drv.go:110-119 | the m choices of a backend are pairwise different, and every slot is among them |
| Maglev.TurnOrder | l4lb/l4lbdrv/drv.go:149-176 | the loop over backends that skips the dead gives the turns to the live ones in index order, round after round |
| Maglev.RoundEnds | l4lb/l4lbdrv/drv.go:149-176 | after a whole round the first live backend is next |
| Maglev.OwnersAreLive | l4lb/l4lbdrv/drv.go:148-162 | every slot taken so far belongs to a live backend with index at least 1 |
| Maglev.TableIsFull | l4lb/l4lbdrv/drv.go:148-176 | after m turns every slot belongs to a live backend |
| Maglev.TurnsTakenIsShare | l4lb/l4lbdrv/drv.go:148-176 | turns are shared out evenly, the remainder to the first backends |
| Maglev.TableIsFair | l4lb/l4lbdrv/drv.go:124-178 | each of a live backends owns floor(m/a) slots, exactly the first m mod a of them one more; the dead and index 0 own none |
| Maglev.FirstChoiceGoes | l4lb/l4lbdrv/drv.go:148-162 | the first choice of a live backend belongs to it or to a live backend before it |
| Stability.FillIsStable | l4lb/l4lbdrv/drv.go:148-176 | after every turn, whatever a backend prefers to a slot of its own was due earlier to its owner |
| Stability.FairAndStableIffLookupTable | l4lb/l4lbdrv/drv.go:124-178 | a table is the lookup table if and only if it is full, its shares are even, and it is stable in this sense: the result is characterised without turns, cursors or probes |
| L4lb.PreferencesFit | l4lb/l4lbdrv/drv.go:110-119 | whatever the hash, offsets are slots and skips lie in 1..m-1 |
| L4lb.Installed | l4lb/l4lbdrv/drv.go:163-174 | the installed table has m entries, all of them live backends |
| L4lb.ChoicesFromHash | l4lb/l4lbdrv/drv.go:112-117 | the high half of the 64-bit hash modulo m is the first choice, the low half modulo m - 1, plus 1, the step from each choice to the next |
| L4lb.FirstChoiceInstalled | l4lb/l4lbdrv/drv.go:110-168 | in the installed table, the slot at the high half of a live backend's hash modulo m belongs to it or to a live backend before it, so the first live backend has its own |
| L4lb.InstalledIsFairAndStable | l4lb/l4lbdrv/drv.go:110-178 | a table is the installed one if and only if it is fair and stable for the preferences hashed from the addresses |
| L4lb.Balancer.GenerateOffsetsAndSkips | l4lb/l4lbdrv/drv.go:110-119 | every cursor starts at the high half of its backend's hash modulo m and steps by the low half modulo m - 1, plus 1 |
| L4lb.Balancer.NextOffset | l4lb/l4lbdrv/drv.go:181-189 | returns the current choice and moves on by one; uint32 wrap-around never shows |
| L4lb.Balancer.Probe | l4lb/l4lbdrv/drv.go:156-159 | the probe loop stops, at the backend's most preferred free slot counted from the start of its permutation |
| L4lb.Balancer.Turn | l4lb/l4lbdrv/drv.go:156-162 | one turn claims that slot, and no cursor has ever skipped a free one |
| L4lb.Balancer.PlayRound | l4lb/l4lbdrv/drv.go:151-176 | one pass over the backends plays one round, cut short when the table is full |
| L4lb.Balancer.FillTable | l4lb/l4lbdrv/drv.go:137-163 | the cursor algorithm computes the table of the greedy game |
| L4lb.Balancer.WriteTable | l4lb/l4lbdrv/drv.go:164-174 | entries are written in order, and the first failure leaves exactly a prefix written |
| L4lb.Balancer.CountAlive | l4lb/l4lbdrv/drv.go:125-134 | counts the live backends, never index 0 |
| L4lb.Balancer.PopulateLookupTable | l4lb/l4lbdrv/drv.go:124-178 | terminates; installs the table of the live set, or a prefix of it if a write fails, or nothing if all are dead; at most m cursor steps each |
| L4lb.Balancer.HealthCheckAll | l4lb/l4lbdrv/drv.go:211-242 | in every interleaving of the goroutines, a destination is dead exactly if its probe failed, index 0 is left alone, and a change is reported exactly if a flag changed |
| L4lb.Balancer.Tick | l4lb/cmd/main.go:84-95 | the table is recomputed exactly if some status changed and somebody is alive; a failed write leaves exactly a prefix of it |
| L4lb.Balancer.Run | l4lb/cmd/main.go:84-95 | over any run with successful writes, the table is that of the last dead set with a live backend |
| L4lb.LastLive | l4lb/cmd/main.go:84-95 | the dead set that counts leaves somebody alive |
| L4lb.OnlyLastLiveRoundCounts | l4lb/cmd/main.go:84-95 | neither earlier rounds nor a total outage of any length afterwards matter: recovery restores the earlier table |
| Bindings.BpfArray.Put | l4lb/l4lbdrv/drv.go:169-173 | a write changes one entry, or fails and changes nothing |
| Bindings.MarshalRoundTrip | l4lb/l4lbdrv/bindings.go:159-176 | entry i of the marshalled list is the four address bytes of destination i in order, then its hardware address cut or padded to six bytes |
| Bindings.MarshalBinary | l4lb/l4lbdrv/bindings.go:159-176 | succeeds exactly if all addresses are IPv4, names the first that is not, and fills the buffer with all entries |
| Jhash.MixBijection | l4lb/c/jhash.h:24-35 | the mix has an explicit two-sided inverse on 96-bit states |
| Jhash.MixInArithmetic | l4lb/c/jhash.h:24-35 | the nine lines with their shifts, as equations modulo 2^32 |
| Jhash.ShrDivides | l4lb/c/jhash.h:24-35 | a right shift by k divides by 2^k |
| Jhash.ShlMultiplies | l4lb/c/jhash.h:24-35 | a left shift by k multiplies by 2^k modulo 2^32 |
| Jhash.JhashMix | l4lb/c/jhash.h:24-35 | the nine in-place lines compute the mix |
| Jhash.Jhash | l4lb/c/jhash.h:44-82 | the byte loop and the eleven fall-through cases compute the block hash of the bytes |
| Jhash.Jhash2 | l4lb/c/jhash.h:87-113 | the word loop computes the block hash of the words |
| Jhash.WordsRefineBytes | l4lb/c/jhash.h:44-113 | hashing words equals hashing any bytes that are their little-endian form |
| Jhash.Jhash2IsJhash | l4lb/c/jhash.h:87-113 | jhash2 equals jhash on the little-endian bytes, for every length and initval |
| FlowHash.GenerateHashFromFlow | l4lb/c/lb.c:97-102 | the flow hash is one component of the mixed state of the packed flow |
| FlowHash.MixInputInArithmetic | l4lb/c/lb.c:97-102 | what is mixed: both addresses plus 0x9e3779b9, and the ports with 6 or-ed into the high byte |
| FlowHash.PortWordSplit | l4lb/c/lb.c:100 | the protocol byte is OR-ed over the high byte of the source port |
| FlowHash.PortWordMerges | l4lb/c/lb.c:100 | two port pairs pack alike exactly if they differ in nothing but source-port bits 0x0600 |
| FlowHash.FlowsMerge | l4lb/c/lb.c:97-102 | two TCP flows reach the same mixed state exactly if they differ in nothing but those bits |
| Checksum.ChecksumVerifies | l4lb/c/lb.c:234-240 | a header completed with the complement of one fold verifies exactly if that fold is below 65536 |
| Checksum.VerifiesInEitherOrder | l4lb/c/lb.c:234-240 | a header verifies in one byte order exactly if it does in the other (section 2 of RFC 1071) |
| Checksum.SameBytesInEitherOrder | l4lb/c/lb.c:234-240 | little- and big-endian computation store the same bytes exactly if neither fold overflows |
| Encap.Output | l4lb/c/lb.c:194-249 | what is sent is 20 bytes longer than the frame, less the trimmed padding |
| Encap.RoundTrip | l4lb/c/lb.c:194-249 | stripping 34 bytes gives back the datagram exactly if the frame had at least max(60, 14 + tot_len) bytes |
| Encap.ExactLength | l4lb/c/lb.c:242-249 | 34 + tot_len bytes are sent exactly if the frame had exactly that many, and then they are the datagram |
| Encap.SentFrameIsAddressed | l4lb/c/lb.c:209-214 | whatever is trimmed, the frame goes to the backend's hardware address, from the balancer's, with the type of IPv4 |
| Encap.OuterHeaderFields | l4lb/c/lb.c:222-232 | the outer header names IP-in-IP, no service class, source and destination; its length is right exactly for tot_len up to 65515 |
| Encap.OuterChecksumVerifies | l4lb/c/lb.c:234-240 | the outer header verifies exactly if the single fold of its sum, given in closed form, is below 65536 |
| Xdp.SingleFoldCanFail | l4lb/c/lb.c:234-240 | a concrete frame that the program accepts and sends with a checksum that does not verify, where big-endian order would have stored other bytes |
| Counters.ReadStatCountersAggregate | l4lb/l4lbdrv/bindings.go:121-135 | the loop sums all CPUs |
| Counters.TotalIsSum | l4lb/l4lbdrv/bindings_generated.go:94-104 | the aggregate is the exact sum modulo 2^64 in every field |
| Counters.AggregateIsExact | l4lb/l4lbdrv/bindings.go:121-135 | over any run on any CPUs, each aggregate counter is the number of its events modulo 2^64 |
| Counters.RejectsAreCountedApart | l4lb/c/lb.c:132-160 | each of the five reject counters is the number of packets with its own outcome, modulo 2^64 |
| Counters.ReceivedAreCountedApart | l4lb/c/lb.c:164-251 | rx_packet_total and rx_total_size are the number and the bytes of the packets that passed the checks, the other two those of the two failed adjustments |
| Counters.ProcessedAreRejectedOrReceived | l4lb/c/lb.c:133-165 | packets processed equal the five reject counters plus rx_packet_total, modulo 2^64 |
| Counters.ReceivedAreAccountedFor | l4lb/c/lb.c:164-254 | rx_packet_total equals transmitted, port-22, destination-less, head-failed and tail-failed packets, modulo 2^64 |
| Datapath.StartedPacketsAreAccountedFor | l4lb/c/lb.c:164-254 | once New has returned, at any moments of table rewrites and on any CPUs, rx_packet_total equals transmitted, port-22, head-failed and tail-failed packets, modulo 2^64 |
| Xdp.XdpMd.AdjustHead | l4lb/c/lb.c:194-197 | grows the packet at its head, or fails and changes nothing |
| Xdp.XdpMd.AdjustTail | l4lb/c/lb.c:245-248 | cuts the tail but never the Ethernet header, or fails and changes nothing |
| Xdp.KeyOf | l4lb/c/lb.c:175 | the slot looked up lies in the table |
| Xdp.KeyByBytes | l4lb/c/lb.c:175 | the slot as a function of bytes 26 to 37 of the frame |
| Xdp.FramesMerge | l4lb/c/lb.c:97-102 | two frames reach the same mixed state exactly if these bytes agree, save for two bits of byte 35 |
| Xdp.ClassifyByBytes | l4lb/c/lb.c:132-171 | by bytes of the frame, which of the checks decides, in the source's order |
| Xdp.WriteEthHeader | l4lb/c/lb.c:209-214 | writes the 14 bytes, whose order `Encap.SentFrameIsAddressed` states, and touches nothing else |
| Xdp.WriteOuterHeader | l4lb/c/lb.c:216-232 | writes the outer header from the inner one, the source and the destination, and touches nothing else |
| Xdp.SumHeader | l4lb/c/lb.c:234-238 | the loop sums the ten little-endian words |
| Xdp.WriteChecksum | l4lb/c/lb.c:239-240 | stores the complement of one fold |
| Xdp.Encapsulate | l4lb/c/lb.c:209-240 | both headers end up in front of the unchanged datagram, in place |
| Xdp.Inspect | l4lb/c/lb.c:132-171 | classification in the source's order, with the matching counter |
| Xdp.LookUp | l4lb/c/lb.c:175-188 | finds the entry behind the flow's slot, or one of the two assertion failures |
| Xdp.Send | l4lb/c/lb.c:194-254 | transmits exactly the specified packet, addressed to the backend, or reports which adjustment failed and with which bytes the packet is dropped |
| Xdp.LbMain | l4lb/c/lb.c:105-255 | one run of the program: outcome, bytes and counters are those specified; only the adjustments are left to chance |
| Datapath.Target | l4lb/l4lbdrv/drv.go:137-168 | the table about to be written has only live backends |
| Datapath.InitInv | l4lb/l4lbdrv/drv.go:46-83 | the invariant holds when New starts to populate |
| Datapath.NextInv | l4lb/l4lbdrv/drv.go:80-105 | every step keeps it: single map writes, failed writes, health rounds |
| Datapath.RunInv | l4lb/l4lbdrv/drv.go:80-105 | it holds at every moment of every run |
| Datapath.FinishedTableIsInstalled | l4lb/l4lbdrv/drv.go:163-174 | when the last entry has been written, the table is the one of the destinations alive, whatever failed before |
| Datapath.StartedForGood | l4lb/cmd/main.go:73-101 | a started balancer stays started |
| Datapath.EveryPacketFindsItsBackend | l4lb/c/lb.c:175-188 | once New has returned, a slot read at one moment and an entry read at any later one give the ten bytes of a configured backend |
| Datapath.NoAssertionFailure | l4lb/c/lb.c:177-188 | both assertion failures are unreachable, and what is transmitted goes to the backend in the packet's slot |
| Datapath.SentPacketReachesItsBackend | l4lb/c/lb.c:175-232 | a packet that is sent carries, as bytes, the configured hardware and IP addresses of the backend in its slot as destination and the balancer's as source |
| Rendezvous.RendezvousSelect | popcache/internal/rendezvous.go:21-38 | the first backend whose hash of node id, colon and key is highest and positive is selected; none exactly if all these hashes are 0; an empty list is fatal |
| Rendezvous.WinnerOwns | popcache/internal/rendezvous.go:30-36 | the first of the highest non-zero hashes owns the key |
| Rendezvous.OwnerWins | popcache/internal/rendezvous.go:30-36 | and nobody else does |
| Rendezvous.NobodyIffAllZero | popcache/internal/rendezvous.go:27-37 | nil is returned exactly if every hash is 0 |
| Rendezvous.OwnerOfBoth | popcache/internal/rendezvous.go:30-36 | the owner of a joined list is the owner of the half with the higher hash |
| Rendezvous.InsertionMovesKeysOnlyToTheInserted | popcache/internal/rendezvous.go:21-38 | an inserted backend takes exactly the keys it wins, and no other key moves |
| Rendezvous.RemovalMovesOnlyOwnedKeys | popcache/internal/rendezvous.go:21-38 | taking out any set of backends moves only their own keys |
| Rendezvous.OrderMattersOnlyForTies | popcache/internal/rendezvous.go:30-36 | the owner is the same in every order of the list exactly if the highest hash is not shared |
| Http.HitIgnoresTheMark | popcache/internal/middleware.go:57-59 | a hit is the same whether it was cloned before or after the stored object was marked |
| Http.StoredIsCacheable | popcache/internal/middleware.go:42-59 | what is stored has the upstream's status, body and fields, but for the three hop fields, and is marked as a miss |
| Http.HitDiffersOnlyInXCache | popcache/internal/middleware.go:29-33 | a hit is the stored object except for X-Cache |
| Http.ServedIsClean | popcache/internal/cacheserver.go:28-56 | what is served has one X-Cache and one node id, the server's own |
| Http.StoredAgain | popcache/internal/middleware.go:42-59 | a second cache stores what the first one stored, whether it was served a hit or a miss |
| Http.ErrorPages | popcache/internal/cacheserver.go:35-47 | the two error pages: 404 and 500, their texts, and the node that made them |
| Routing.KeyIdentifiesResource | popcache/internal/middleware.go:11-23 | keys agree exactly if paths agree and host and port run together agree |
| Routing.PortsCanCollide | popcache/internal/middleware.go:17-19 | two different hosts with the same key |
| Routing.NoPeerIsAsked | popcache/internal/middleware.go:72-84 | a marked request goes on without the mark, one for a key of the node's own as it came: to the owning shield for an edge, to the origin if that is lost |
| Routing.LostPeerIsReplaced | popcache/internal/middleware.go:85-92 | a request for another peer's key is answered by that peer, or if that is lost by the owning shield, asked with the mark still set, or if that is lost too by the origin |
| Routing.OriginIsTheLastResort | popcache/internal/middleware.go:71-124 | if the origin answers, no body breaks off and every selector finds somebody, the chain succeeds, whichever other fetches are lost |
| Popcache.Object.Clone | popcache/internal/types.go:18-24 | a clone has the same value and shares no memory |
| Popcache.Cache.Lookup | popcache/internal/cache.go:25-31 | a hit hands out a fresh copy and makes its key the most recently used |
| Popcache.Cache.Put | popcache/internal/cache.go:33-35 | stores the reference; exactly if the key is new and the cache is full, the least recently used entry goes |
| Lru.SurvivesIffRecent | popcache/internal/cache.go:11-35 | a key is still cached exactly if fewer than capacity other keys were used since its last use |
| Popcache.StoreAndMark | popcache/internal/middleware.go:57-59 | marking the object after storing it changes its own entry and no other |
| Popcache.ForwardToOrigin | popcache/internal/middleware.go:112-124 | one fetch from the registered origin, then the error |
| Popcache.Forward | popcache/cmd/popcache/main.go:80-82 | the upstream chain of a node attempts the fetches of its plan, in order |
| Popcache.Shard | popcache/internal/middleware.go:71-94 | the whole chain attempts the fetches of its plan, which `Routing.NoPeerIsAsked`, `Routing.LostPeerIsReplaced` and `Routing.OriginIsTheLastResort` determine |
| Popcache.CopyWithoutHopFields | popcache/internal/middleware.go:42-45 | the copy lacks the three hop fields and nothing else |
| Popcache.CacheAndFetch | popcache/internal/middleware.go:26-61 | a hit leaves the cache as it was although the answer is changed; a miss stores the very object it returns, marked after it was stored; a body that breaks off is an error and stores nothing |
| Popcache.CopyFields | popcache/internal/cacheserver.go:50-54 | the nested loops merge all values, in any order of the map |
| Popcache.ServeHTTP | popcache/internal/cacheserver.go:27-58 | response and cache contents are those of `React`, for every outcome of every fetch, broken bodies included |
| Popcache.WhatTheClientGets | popcache/internal/cacheserver.go:35-57 | 404 for an unknown host, the entry's status and body on a hit, the upstream's on success, 500 otherwise; and only a success changes the cache |
| Popcache.EveryReplyIsClean | popcache/internal/cacheserver.go:28-56 | whatever upstreams send, every response from the cache handler has exactly one X-Cache and the answering node's id |
| Popcache.HitRepeatsTheFetch | popcache/internal/middleware.go:27-60 | a later hit repeats the answer of the original miss except for X-Cache |
| Cdn.ArrivalIsReply | popcache/internal/cacheserver.go:27-41 | an arrival answered at once in the protocol is answered as by the server |
| Cdn.FailuresAreAWalk | popcache/internal/middleware.go:87-91 | fetches that are lost one by one in the protocol are the walk that the handler chain takes |
| Cdn.FirstFetchDecides | popcache/internal/middleware.go:37-50 | a chain returns exactly the response of the first fetch that is not lost, whole or broken, and ends empty-handed exactly if every fetch is lost |
| Cdn.FinishIsReply | popcache/internal/middleware.go:42-60 | a response that comes in is stored and served as by the server, whatever other calls did to the cache since the lookup |
| Cdn.FailureIsReply | popcache/internal/cacheserver.go:42-47 | and so is the end of a call without a response: a broken body, no upstream left, a crash |
| Cdn.RunInherits | popcache/internal/middleware.go:71-124 | what clients' calls have and calls pass on to the calls they make holds of all calls of all runs |
| Transparency.PlanIsForResource | popcache/internal/types.go:36-48 | every fetch asks for the same host and path |
| Transparency.StepInv | popcache/internal/cacheserver.go:27-58 | every step keeps entries and answers good: arrivals, fetches, answers, broken bodies, failures, evictions |
| Transparency.RunInv | popcache/internal/cacheserver.go:27-58 | and so does every run |
| Transparency.EveryEntryIsTheOrigins | popcache/internal/middleware.go:42-57 | every cached entry is the origin's response without hop fields, or a recorded error page for the same resource |
| Transparency.EveryAnswerIsTheOrigins | popcache/internal/cacheserver.go:42-56 | every answer is the origin's up to hop fields, if no error page was made for the resource; and names the node that was asked |
| Transparency.OnlyUpstreamFaults | popcache/internal/middleware.go:37-50 | with agreeing tables, error pages for registered hosts come only from nodes that ran out of upstreams or read a broken body |
| Transparency.OriginIsAlwaysFound | popcache/internal/middleware.go:104-108 | the origin lookup never yields nil past the host check |
| Faults.RunRecords | popcache/internal/cacheserver.go:35-47 | over any run, lost fetches and fetches to come make up each call's plan, and every fault has its call |
| Faults.EveryFaultWasMade | popcache/cmd/popcache/main.go:71-82 | every recorded fault has a call that was answered with its page; for want of an upstream only after every fetch of the plan was lost, for a broken body before |
| Faults.FetchesWereLeftIffBodyBroke | popcache/internal/middleware.go:47-50 | a page for a registered host was made with fetches left exactly if the body of a response broke off |
| Faults.BrokenBodyEndsTheWalk | popcache/internal/middleware.go:37-50 | for any origin, a broken body from the shield keeps an edge from an origin that would have answered |
| Faults.ErrorPageWithFetchesLeft | popcache/internal/middleware.go:47-50 | a run in which nothing is lost, the shield holds the origin's response, and the edge answers with an error page |
| Faults.AnswersMatchIffNoFault | popcache/internal/cacheserver.go:42-56 | answers for a resource are the origin's, up to hop fields, if and only if no error page was made for it |
| Faults.PageIsServedAgain | popcache/internal/middleware.go:42-57 | in any state, a node that fetched an error page serves it as a hit to the next request for its key |
| Faults.ErrorPagesAreServedAsHits | popcache/internal/middleware.go:27-60 | a run in which one lost fetch makes a later client get the error page as a hit, whatever the origin would answer |
| Hops.PlanDescends | popcache/internal/middleware.go:71-124 | every fetch leads to a call of lower rank, also with a leftover or client-sent mark |
| Hops.AtMostFourHops | popcache/cmd/popcache/main.go:80-84 | for any peer lists, a request takes at most four hops |
| Hops.AtMostThreeHops | popcache/cmd/shield/main.go:80-83 | with agreeing lists of shields and equal keys, at most three, for any header if the lists of edges agree too |
| Hops.NoShieldAsksAnother | popcache/internal/middleware.go:79-84 | then a shield that was asked by a node neither waits for nor has left any fetch from another node |
| Hops.FourHopsHappen | popcache/cmd/shield/main.go:80-83 | a run with disagreeing lists that takes edge, edge, shield, shield, origin |
| Hops.BoundedIffMarkIsUsable | popcache/internal/middleware.go:74-85 | the bound holds exactly if X-Shard is absent or its first value is not empty; otherwise every bound is exceeded |
| Gslb.NearestIsFirstMinimum | gslb/gslbcore/core.go:274-282 | the scan finds the first strict minimum below the limit, and only that |
| Gslb.NoneIsNearest | gslb/gslbcore/core.go:284-288 | it finds nothing exactly if no latency is below the limit |
| Gslb.ContainsIffNetworkAgrees | gslb/gslbcore/core.go:258-265 | a prefix contains an address exactly if both are of one family, without zones, and agree but for the last 32 or 128 less its length bits |
| Gslb.ColumnSumOfUpdate | gslb/gslbcore/core.go:217-222 | every region enters a sum once, with its own latency |
| Gslb.MostAverageHasLeastSum | gslb/gslbcore/core.go:224-233 | the fallback is the first of the lowest sums over all regions, index 0 exactly if no sum is below the largest float |
| Gslb.LongestPrefixMatch | gslb/gslbcore/core.go:255-265 | the chosen region has the longest prefix that contains the address |
| Gslb.HomelessIffNoMatch | gslb/gslbcore/core.go:267-271 | no region is chosen exactly if no prefix contains the address |
| Gslb.RegionOrderIsIrrelevant | gslb/gslbcore/core.go:236-294 | no answer depends on the order of the regions unless two of them share a network |
| Gslb.PrefixOrderIsIrrelevant | gslb/gslbcore/core.go:258-265 | the order of prefixes within regions never matters |
| Gslb.FirstHighestIsFirst | gslb/gslbcore/core.go:255-265 | the scan finds the first of the highest matches above -1, and only that |
| Gslb.FirstBestIsHome | gslb/gslbcore/core.go:258-265 | of all regions with the longest match, the first configured is chosen |
| Gslb.ChoiceAnswers | gslb/gslbcore/core.go:236-294 | by prefixes, latencies and sums alone: the fallback is taken exactly if no prefix contains the address or nothing in its region is below the default; otherwise the first of the nearest in the first region with a longest prefix |
| Gslb.OrderMattersOnlyForTies | gslb/gslbcore/core.go:258-265 | for each address, the region is the same in every order exactly if no two different regions share its longest match |
| Gslb.AnswerOrderMattersOnlyForTies | gslb/gslbcore/core.go:236-294 | for each address, the answer is the same in every order exactly if all regions with its longest match pick the same point of presence |
| GslbCore.GslbCore.constructor | gslb/gslbcore/core.go:62-109 | every latency starts at the default |
| GslbCore.GslbCore.UpdatePoPStatus | gslb/gslbcore/core.go:142-168 | statuses and serial are replaced together |
| GslbCore.GslbCore.UpdateRegion | gslb/gslbcore/core.go:177-196 | one region's latencies are replaced; failed probes count as the default |
| GslbCore.GslbCore.SumLatencies | gslb/gslbcore/core.go:217-222 | the nested loops compute the column sums |
| GslbCore.GslbCore.GetMostAveragePop | gslb/gslbcore/core.go:216-234 | answers the point of presence with the first of the lowest sums, the first one if none is below the largest float |
| GslbCore.GslbCore.FindRegion | gslb/gslbcore/core.go:255-265 | the running best over regions and prefixes is the longest match |
| GslbCore.GslbCore.Query | gslb/gslbcore/core.go:236-294 | answers the one index that `Gslb.Answers` admits, and panics exactly if no point of presence is configured |
| GslbCore.AlwaysComplete | gslb/gslbcore/core.go:142-197 | after any run of updates every index is in range, prefixes are unchanged, and the serial counts the updates |
| GslbCore.LatencyIsLastProbe | gslb/gslbcore/core.go:181-195 | every stored latency is that of the last probe, the default if it failed or never happened |
| GslbCore.DirectAnswerWasProbed | gslb/gslbcore/core.go:273-289 | after any run of updates, an answer without fallback had a successful last probe from the address's region, and none is nearer |
| RateWindow.WindowSlides | httprps/httprps.go:36-40 | a new sample changes the window's sum by itself less the sample that leaves |
| RateWindow.RingOldest | httprps/httprps.go:37 | the sample under the index is the one that leaves the window |
| RateWindow.RequestLosesNothing | httprps/httprps.go:49 | a request adds one to the counter, exactly or modulo 2^64 |
| RateWindow.RecordLosesNothing | httprps/httprps.go:34-41 | moving the sample in flight into the ring loses no request |
| RateWindow.Middleware.ServeHTTP | httprps/httprps.go:48-51 | keeps total and count in step with the history |
| RateWindow.Middleware.Swap | httprps/httprps.go:34 | the ticker takes the whole counter |
| RateWindow.Middleware.Record | httprps/httprps.go:36-41 | the sample joins the history, and total stays the sum of the last min(t, 60) samples |
| RateWindow.Middleware.GetRPS | httprps/httprps.go:53-58 | the sum of the last 60 samples of the true history, or of all there are, divided by 60 |
| RateWindow.Run | httprps/httprps.go:23-58 | in every interleaving, each reading is the mean of the window at its moment, and requests served equal the counter plus the sample in flight plus all samples |

## Left out

- Loading, binding and attaching BPF programs, DWARF layout checks and RLIMIT set-up: system calls.
- The configuration's early failures in `New` (paths, interface lookup) other than its length check: they end before anything runs.
- The scratch copies made while populating (`tableIndices`, `values`): they hold the same numbers.
- L4lb.Balancer.HealthCheckAll: the HTTP probe is a Boolean per destination, and a torn slice header is not modelled beyond length and store.
- Bindings.MarshalBinary: the panic on an address that was never set, because the command line always parses one.
- Xdp.LbMain: reads a destination entry at one moment; `Datapath.EveryPacketFindsItsBackend` covers reads at different moments.
- Encap.OuterHeaderFields: fragments and IPv6 inside are not told apart, as in the source.
- Popcache.CacheAndFetch: runs without interleaving; that a concurrent clone may read the header map while it is marked is a data race of Go maps and is not modelled beyond `Http.HitIgnoresTheMark`.
- Popcache.ServeHTTP: only GET requests, whose method and missing body every hop keeps; the response writer keeps no Date or Content-Length field.
- HTTP transport (timeouts, connection reuse, compression), logging, YAML and flag parsing, and the status endpoints: input and output.
- Transparency.EveryAnswerIsTheOrigins: for requests without a URL port and for registered hosts that `RemovePortFromHost` leaves alone; an IPv6 literal as host would lose its brackets at the first hop.
- Gslb.AnswerOrderMattersOnlyForTies: latencies are exact reals without NaN, so the rounding of float sums is not captured.
- RateWindow.Middleware.GetRPS: the result is an exact quotient, not a float.
- The CoreDNS plugin, the GSLB's HTTP server, the prober, the origin demo site, the bindings generator and all scripts: glue and presentation.
