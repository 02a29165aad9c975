# A verified model of bio-rd's core

bio-rd is a routing daemon: it learns routes over BGP and IS-IS, stores them, selects the best ones and
passes them on. This project models the parts of it where most can go wrong and proves what they keep:

| files | what they model |
|---|---|
| `Dijkstra.dfy` | the shortest path tree of the IS-IS topology, as loops over maps in any iteration order |
| `Prefixes.dfy`, `Trie.dfy`, `RoutingTables.dfy` | prefix arithmetic, the radix trie as a value, and the same trie as linked nodes on the heap that are changed in place |
| `Paths.dfy`, `Routes.dfy` | comparing, preferring and selecting paths of one route |
| `LocRIBs.dfy`, `LocRIBRuns.dfy` | the Loc-RIB and its clients, first one call at a time, then in every interleaving of changes with registrations |
| `Wire.dfy`, `Nlris.dfy`, `PathAttributes.dfy`, `Updates.dfy` | the bytes of BGP UPDATE messages and when they bring the message back |
| `Layouts.dfy` | the same format in numbers: which byte stands where |
| `Buffers.dfy`, `Packets.dfy` | the same codec as it runs, on buffers that are consumed and filled step by step |
| `Checksums.dfy` | the Fletcher checksum of link state PDUs |
| `LinkStateDatabases.dfy` | flooding flags of the IS-IS database under CSNPs and PSNPs |
| `Handshakes.dfy` | the three-way handshake of point-to-point adjacencies among any number of interfaces |
| `Words.dfy`, `Options.dfy`, `BGPTypes.dfy`, `Lexicographic.dfy` | machine words with their wrap-around, and types and an order the others share |
| `PathIDs.dfy`, `UpdateQueues.dfy`, `MergedLocRIBs.dfy` | the add-path identifier allocator, the queue to a RIS observer, the merged Loc-RIB of RIS mirror |

Where the program updates objects or buffers in place the model does too: classes with `modifies` clauses
and loops, each proved against a function on values. Where it is concurrent the model is a state machine
whose steps are the statements that can interleave, and the theorems are about every run.

`dafny verify dfyconfig.toml` checks everything.

## What is a parameter

- The outcome of `sort.Slice` is a parameter that may be any permutation, in order or not, since the
  preference it sorts by is not always transitive. What needs the order says so.
- Whether a hello passes the checks of areas, protocols and addresses is a parameter of its delivery.
- Time is not measured: a hold timer may fire at any moment an adjacency is up.
- Hashes of paths and routes are taken to be free of collisions.
- The iteration order of Go maps is arbitrary everywhere.

## Where the program does less than one would hope

The model follows the code. Each of these is stated with the exact condition under which the hoped-for
property holds.

- `Topology.SPT` dereferences nil exactly when a declared node cannot be reached
  (`Dijkstra.Topology.ShortestPathTree`). This and minimality need distances that are not negative; with a
  negative one there may be no shortest path tree at all (`Dijkstra.NegativeHasNoTree`).
- Adding a prefix to a trie adds it to the table the trie stores, whatever that is, exactly when the prefix
  has no host bits (`Trie.AddsRightIff`). Of two prefixes that differ in host bits only the first is lost
  (`Trie.FirstIsLost`).
- Counting the paths that share traffic panics under some order of the paths exactly when there are
  several and they are not all BGP, all static or all FIB paths (`Routes.NeverPanicsIff`).
- A client that registers again holds exactly its selection if and only if its new options entitle it to
  all it holds (`LocRIBs.LocRIB.RegisterWithOptions`, with a client for which it fails in
  `LocRIBs.NarrowedKeepsBoth`).
- The preference among BGP paths is transitive unless exactly two of three paths carry a cluster list
  (`Paths.SelectTransitiveIff`). The directions of the router ID, cluster list and address comparisons are
  those of the code, not those of section 9.1.2.2 of RFC 4271.
- `RoutingTable.ReplacePath` leaves only the new path exactly when every former path is a BGP or a static
  one, because any other is not even the same as itself (`Trie.ReplacesAllIff`).
- `RoutingTable.GetLonger` returns nothing for a prefix that is not itself stored
  (`RoutingTables.RoutingTable.GetLonger`).
- An accepted UPDATE comes back from its own bytes exactly when it is proper: among others, its cluster
  lists have fewer than 64 entries, since their length is counted in eight bits
  (`Updates.UpdateRoundTrip`).
- `csum` is right for all PDUs of a length exactly up to 5802 bytes (`Checksums.CsumCorrectIff`), and
  `SetChecksum` leaves a verifying PDU exactly when the octets of the old checksum were 0 or 255
  (`Checksums.StampVerifiesIff`).
- An adjacency that is up proves that the neighbor has heard this interface, except for the identity with
  system ID and circuit ID zero (`Handshakes.UpMeansHeard`, `Handshakes.ZeroIdentityFails`).
- A new path is refused an identifier by a counter that partial releases decrement as well
  (`PathIDs.AddUnknown`, `PathIDs.RefusedWhileEmpty`).
- `dequeue` on an empty queue goes on instead of blocking, and so may return an empty batch, exactly when a
  producer has signalled between the consumer's last receive and its lock
  (`UpdateQueues.EmptyQueueSignalledIff`). Such a batch is never the first and never follows another
  (`UpdateQueues.EmptyBatchesAreRare`).
- The Loc-RIB behind the merged one, over prefixes without host bits, follows the announcements of a path
  up to sameness exactly when that is a BGP or a static one (`MergedLocRIBs.AlwaysMirroredIff`). It holds
  the very paths that are announced exactly when moreover no two paths of one prefix are the same without
  being equal (`MergedLocRIBs.AlwaysExactIff`). With host bits it loses paths that are announced
  (`MergedLocRIBs.HostBitsLoseAnnounced`).
- `DropAllBySrc` leaves nothing of a source exactly when it held no route twice
  (`MergedLocRIBs.MergedLocRIB.DropAllBySrc`).

## Model

| member | source | states |
|---|---|---|
| Dijkstra.Topology.constructor | util/dijkstra/dijkstra.go:31-50 | the topology has the listed nodes, and between two nodes the distance of the last edge listed |
| Dijkstra.FrontierBound | util/dijkstra/dijkstra.go:82-135 | every walk that leaves the settled nodes is at least as long as the nearest known unsettled node |
| Dijkstra.RelaxEdgeKeeps | util/dijkstra/dijkstra.go:82-110 | relaxing one edge keeps settled distances minimal and every known entry the description of a walk |
| Dijkstra.Settle | util/dijkstra/dijkstra.go:112-135 | the nearest known unsettled node has its minimal distance |
| Dijkstra.Stuck | util/dijkstra/dijkstra.go:112-135 | if nothing is known outside the settled nodes, the others are unreachable |
| Dijkstra.Topology.Relax | util/dijkstra/dijkstra.go:82-110 | without negative distances and in any order of the neighbors, afterwards no edge from a settled node can improve the tree |
| Dijkstra.Topology.SelectNext | util/dijkstra/dijkstra.go:112-132 | in any order, the unmarked node with the smallest known distance; none exactly if all are unknown |
| Dijkstra.Topology.ShortestPathTree | util/dijkstra/dijkstra.go:52-139 | without negative distances it crashes exactly if a declared node is unreachable; otherwise every node has a chain of edges from the root, minimal over all walks, whose distances sum to the stored distance |
| Dijkstra.NegativeHasNoTree | util/dijkstra/dijkstra.go:66-139 | for every negative distance a topology, all reachable, without any shortest path tree |
| Prefixes.ValidIffBase | net/prefix.go:237-284 | a prefix is valid exactly if it is its own base address |
| Prefixes.BaseAddrKeepsKey | net/prefix.go:269-284 | the base address has no host bits and the same leading bits |
| Prefixes.EqualIffSameKey | net/prefix.go:175-177 | prefixes without host bits are equal exactly if their leading bits are |
| Prefixes.ContainsIffStrictPrefix | net/prefix.go:143-158 | the mask comparison is the strict prefix order on bit strings |
| Prefixes.SupernetIsLongest | net/prefix.go:188-203 | the supernet is valid, contains both prefixes, and no prefix containing both is longer |
| Prefixes.SupernetSeparates | net/prefix.go:188-203 | two prefixes neither of which contains the other differ in the bit after their supernet |
| Prefixes.Supernet | net/prefix.go:188-203 | the shifting loop computes the longest common supernet, and for a length of zero wraps to length 255 |
| Trie.AddPathStores | routingtable/trie.go:117-215 | adding keeps the shape of the trie, appends to the list of its prefix, leaves every other prefix alone and reports a new prefix |
| Trie.InsertBeforeStores | routingtable/trie.go:198-215 | a shorter prefix put above a node keeps what the node stores |
| Trie.NewSuperNodeStores | routingtable/trie.go:166-196 | a pseudo node above two diverging prefixes stores both and nothing else |
| Trie.RemovePathStores | routingtable/trie.go:26-50 | removing keeps the shape, shortens one list, leaves the others alone and reports a prefix that is gone |
| Trie.AddPathTable | routingtable/trie.go:117-143 | the trie after an addition stores the table after that addition |
| Trie.RemovePathTable | routingtable/trie.go:26-50 | the trie after a removal stores the table after that removal |
| Trie.GetFinds | routingtable/trie.go:94-115 | the search finds a node exactly if the prefix is stored, and that node holds its paths |
| Trie.GetCovers | routingtable/trie.go:94-115 | below the node found is stored exactly what is stored under that prefix |
| Trie.LpmLists | routingtable/trie.go:52-72 | the match lists exactly the stored prefixes that are or contain the needle |
| Trie.LpmLengthens | routingtable/trie.go:52-72 | the matches are listed from the shortest to the longest |
| Trie.DumpLists | routingtable/trie.go:217-230 | a dump lists exactly what is stored |
| Trie.DumpDistinct | routingtable/trie.go:217-230 | a dump lists no prefix twice |
| Trie.StaysStoredIff | routingtable/trie.go:166-196 | a prefix stays stored after every addition of a prefix without host bits exactly if it has none itself |
| Trie.AddsRightIff | routingtable/trie.go:117-196 | adding a prefix is adding it to the stored table, for every table, exactly if it has no host bits |
| Trie.FirstIsLost | routingtable/trie.go:177-196 | of two prefixes that differ in host bits only the first is overwritten by the second |
| Trie.RemovedEachOwn | routingtable/table.go:83-87 | withdrawing all paths of a prefix one by one leaves those that are neither BGP nor static, and nothing of the prefix without any |
| Trie.ReplacesAllIff | routingtable/table.go:51-67 | a replacement leaves exactly the new path if and only if every former path is BGP or static |
| RoutingTables.TrieNode.AddPath | routingtable/trie.go:117-143 | the linked nodes, changed in place, become the tree the value-level addition gives |
| RoutingTables.TrieNode.InsertBelow | routingtable/trie.go:145-164 | insertion below the low or the high child, the same for the linked nodes |
| RoutingTables.TrieNode.InsertBefore | routingtable/trie.go:198-215 | relinking a node below a new one, the same for the linked nodes |
| RoutingTables.TrieNode.NewSuperNode | routingtable/trie.go:166-175 | relinking a node below a pseudo node, the same for the linked nodes |
| RoutingTables.TrieNode.RemovePath | routingtable/trie.go:26-50 | removal in place, without allocating or unlinking a node |
| RoutingTables.RoutingTable.AddPath | routingtable/table.go:28-49 | the linked trie becomes what the specification makes of it; without host bits the stored table gains the path and the route count stays the number of stored prefixes |
| RoutingTables.RoutingTable.RemovePath | routingtable/table.go:69-81 | the stored table loses the first same path, a prefix without paths is gone, the count follows |
| RoutingTables.RoutingTable.ReplacePath | routingtable/table.go:51-67 | returns the former paths and, without host bits, stores what could not be withdrawn followed by the new path |
| RoutingTables.RoutingTable.RemovePfx | routingtable/table.go:89-102 | returns the former paths and withdraws them |
| RoutingTables.RoutingTable.Get | routingtable/table.go:117-135 | exactly the stored paths, or none |
| RoutingTables.RoutingTable.LPM | routingtable/table.go:104-115 | exactly the stored prefixes that are or contain the needle, the longest last |
| RoutingTables.RoutingTable.GetLonger | routingtable/table.go:137-147 | exactly what is stored under a stored prefix; nothing under any other |
| RoutingTables.RoutingTable.Dump | routingtable/table.go:149-156 | every stored prefix once, as many as are counted |
| Paths.SameIsPartialEquivalence | route/path.go:82-99 | sameness is symmetric and transitive, and reflexive exactly on BGP and static paths |
| Paths.SameIff | route/bgp_path.go:209-361 | two paths are the same exactly if both are BGP or both static and they are equal once the IP versions of next hop and source, the cached AS path length and, without communities, the unknown attributes are blanked |
| Paths.SelectAntisymmetric | route/bgp_path.go:373-472 | swapping two BGP paths flips the preference |
| Paths.PreferredBGPIff | route/bgp_path.go:373-472 | of two BGP paths the one is preferred in whose favour the first difference is in: local preference, AS path length, origin, MED, eBGP, router ID, cluster list length if both have one, source, next hop; in the directions of the code |
| Paths.PreferredIff | route/path.go:19-48 | the same for any two paths of known types, FIB before BGP before static paths, and those of one type by their keys |
| Paths.EqualIff | route/path.go:102-119 | two paths are equal exactly if they tie in every key and, being BGP paths, have the same path identifier |
| Paths.ECMPIff | route/path.go:51-62 | BGP paths share traffic exactly if they tie in local preference, AS path length, origin and MED, FIB paths exactly if they differ in the next hop only, static paths always; the pairs for which the program panics |
| Paths.SortedStartsBest | route/route.go:203-212 | in BGP paths that are in order no path is better than the first, key by key from the highest local preference down to the next hop |
| Paths.SelectTransitiveIff | route/bgp_path.go:373-472 | preference is transitive for a pattern of cluster lists exactly if not two of three paths carry one |
| Paths.SortedPermutationExists | route/route.go:203-212 | BGP paths with comparable cluster lists have an order in which no later path is preferred |
| Routes.RemoveEachOwn | route/route.go:185-200 | withdrawing every path of a list leaves exactly those that are neither BGP nor static |
| Routes.RemovesFirst | route/route.go:185-200 | a withdrawal takes the first path that is of the kind of the withdrawn one and equal to it in all that counts, if there is one, and nothing else |
| Routes.OtherPeersStay | route/bgp_path.go:333-361 | a withdrawal takes no BGP path with another source |
| Routes.CountedPathsShare | route/route.go:311-326 | in a sorted list of BGP paths the counted ones are exactly those that share traffic with the best |
| Routes.NeverPanicsIff | route/route.go:311-326 | no order of the paths makes the count panic, exactly if there is at most one or all are BGP, all static or all FIB paths |
| Routes.Route.RemovePath | route/route.go:161-200 | takes away the first path that is equal to the withdrawn one in all that counts, leaves every other one, and returns how many are left |
| Routes.Route.ReplacePath | route/route.go:174-183 | overwrites the first equal path, or changes nothing and says so |
| Routes.Route.PathSelection | route/route.go:203-212 | whatever the sort leaves, the count of leading paths that share traffic or a panic; of BGP paths left in order no path is better than the first, and exactly those are counted that share traffic with it |
| Routes.Route.UpdateEqualPathCount | route/route.go:311-326 | the loop counts the leading paths that share traffic, of any types, or panics |
| LocRIBs.DumpCountSelects | routingtable/locRIB/loc_rib.go:94-118 | an initial dump stays in bounds and sends the paths that later updates assume |
| LocRIBs.SelectedIff | routingtable/client_manager.go:18-29 | of a stored route with BGP paths in order a client is told the first path, exactly those that share traffic with the first, or the first so many |
| LocRIBs.UnsortedChanges | routingtable/locRIB/loc_rib.go:153-232 | an addition adds the path, a removal takes the first that matches or nothing, a replacement puts the new path in the place of the first equal one or nothing |
| LocRIBs.ChangeFollowsTable | routingtable/locRIB/loc_rib.go:153-211 | after an addition or a removal the lists are those the routing table is proved to store, with one of them sorted |
| LocRIBs.PathsDiff | route/path.go:122-142 | the members of one list, in order, that are not in the other |
| LocRIBs.UpdateKeepsSync | routingtable/locRIB/loc_rib.go:234-271 | withdrawals and then advertisements take a client's set from the old selection to the new one |
| LocRIBs.LocRIB.RegisterWithOptions | routingtable/client_manager.go:63-69 | after a first or repeated registration a client follows the table exactly if its options entitle it to all it held |
| LocRIBs.NarrowedKeepsBoth | routingtable/client_manager.go:63-69 | a client told of two paths that registers again for the best one only keeps both |
| LocRIBs.LocRIB.UpdateNewClient | routingtable/locRIB/loc_rib.go:94-118 | the dump adds exactly the selected paths to what the client was told before |
| LocRIBs.LocRIB.RemovePathsFromClients | routingtable/locRIB/loc_rib.go:256-272 | every client loses exactly what is no longer selected for it |
| LocRIBs.LocRIB.AddPathsToClients | routingtable/locRIB/loc_rib.go:239-254 | every client gains exactly what is newly selected for it |
| LocRIBs.LocRIB.Process | routingtable/locRIB/loc_rib.go:153-232 | after any addition, removal or replacement, whatever the sort leaves, the list of the prefix is the old one with that change, the prefix is gone exactly if the list is empty, other prefixes are untouched, and every client that held exactly its selection before does so again, unless the selection panics |
| LocRIBRuns.StepKeepsInv | routingtable/locRIB/loc_rib.go:94-271 | every step of a change, a first or repeated registration or a dump keeps what each client may and must hold |
| LocRIBRuns.QuiescentViews | routingtable/client_manager.go:63-69 | in every interleaving, whatever the sorts leave, with no change in progress a client that never registered again for less holds only selected paths, and all of them once its dump is complete |
| LocRIBRuns.ViewsNeverStray | routingtable/locRIB/loc_rib.go:153-271 | in every interleaving, in the middle of a change too, such a client holds only paths selected before or now |
| LocRIBRuns.DumpNeverPanics | routingtable/locRIB/loc_rib.go:94-118 | in every run a dump with any options cuts no list past its end |
| LocRIBRuns.EveryRunSettles | routingtable/locRIB/loc_rib.go:94-271 | every run, whatever its participants are in the middle of, can be carried on to where no change is in progress and every client has had its dump; then each that never registered again for less holds exactly its selection |
| LocRIBRuns.AnyChangeCanBeMade | routingtable/locRIB/loc_rib.go:153-232 | every run can be carried on to any change among BGP paths |
| LocRIBRuns.RegistrationTakesEffect | routingtable/client_manager.go:63-69 | a registration puts its options in force and takes nothing back |
| LocRIBRuns.NarrowedIff | routingtable/client_manager.go:63-69 | a client counts as registered again for less exactly from the step on that gives it options under which some route yields fewer paths |
| Wire.PrefixRoundTrip | protocols/bgp/packet/helper.go:9-34 | the leading bytes of a prefix bring it back in an address family exactly if it is sendable there |
| Nlris.LabelsRoundTrip | protocols/bgp/packet/nlri.go:77-93 | a proper label stack comes back with its last entry marked and the prefix length that was announced with it |
| Nlris.StacksAreProper | protocols/bgp/packet/nlri.go:77-93 | whatever is read as a label stack has entries of 24 bits and a mark on the last one only |
| Nlris.AnnouncedIsSum | protocols/bgp/packet/nlri.go:121-124 | the announced length is the prefix length plus 24 per label, modulo 256 |
| Nlris.RoundTrip | protocols/bgp/packet/nlri.go:55-142 | the bytes of an NLRI, plain, with path identifier or labelled, bring it back whatever follows exactly if it is proper |
| Nlris.ListRoundTrip | protocols/bgp/packet/nlri.go:27-53 | a list of proper NLRIs comes back whole and leaves what follows it |
| Nlris.LaggingCounter | protocols/bgp/packet/nlri.go:27-53 | a byte counter that fell behind makes the reader fail at the end of its buffer |
| Nlris.ListWasProper | protocols/bgp/packet/nlri.go:27-53 | a list that comes back was proper, and each of its NLRIs fitted the byte counter |
| PathAttributes.FlagsRoundTrip | protocols/bgp/packet/path_attribute_flags.go:9-67 | the flags of an attribute come back from their byte |
| PathAttributes.ASPathRoundTrip | protocols/bgp/packet/path_attributes.go:235-307 | an AS path comes back exactly if its segments are sets or sequences of 1 to 255 numbers that fit |
| PathAttributes.LargeRoundTrip | protocols/bgp/packet/path_attributes.go:375-409 | large communities come back |
| PathAttributes.MultiprotocolRoundTrip | protocols/bgp/packet/mp_reach_nlri.go:20-92 | reachable and unreachable NLRIs of any family come back exactly if they are proper |
| PathAttributes.UnreachReadBack | protocols/bgp/packet/mp_unreach_nlri.go:18-63 | reading MP_UNREACH_NLRI comes down to reading its list of NLRIs |
| PathAttributes.ValueRoundTrip | protocols/bgp/packet/path_attributes.go:96-165 | a body read under its own length brings its value back exactly if the value is proper |
| PathAttributes.RoundTrip | protocols/bgp/packet/path_attributes.go:509-850 | an attribute comes back, with the flags and length it was sent with, exactly if it is proper |
| Updates.PathAttributesRoundTrip | protocols/bgp/packet/path_attributes.go:15-73 | the attributes come back, without empty lists, exactly if each is proper and origin, AS path and next hop come together |
| Updates.HeaderRoundTrip | protocols/bgp/packet/decoder.go:365-422 | a header with a legal length and type comes back |
| Updates.HeaderAcceptedIff | protocols/bgp/packet/decoder.go:365-422 | a header is read from exactly the buffers that start with the bytes of a legal one |
| Updates.BodyRoundTrip | protocols/bgp/packet/decoder.go:48-80 | the three fields of an update body are told apart again, and the NLRI field ends where the message does |
| Updates.UpdateRoundTrip | protocols/bgp/packet/update.go:20-75 | an update of at most 4096 bytes under matching options comes back, its header carrying its exact length and what follows left alone, if and only if it is proper |
| Layouts.UpdateLayout | protocols/bgp/packet/update.go:20-75 | an update is sixteen bytes 255, its length, the type 2, and the three fields at the offsets their big-endian lengths give |
| Layouts.HeaderReadIff | protocols/bgp/packet/decoder.go:365-422 | a header is read exactly from nineteen bytes with sixteen times 255, a length from 19 to 4096 and a type from 1 to 4, at their offsets |
| Layouts.HeaderErrorIs | protocols/bgp/packet/decoder.go:365-422 | the error codes in numbers: 1/1 for the marker, 6/0 for a short read, 1/2 for the length, 1/3 for the type |
| Layouts.UpdateIsTypeTwo | protocols/bgp/packet/decoder.go:34-46 | a message is read as an update exactly if the byte at offset 18 is 2 |
| Layouts.EndOfRIB | protocols/bgp/packet/decoder.go:17-80 | the shortest update, given byte by byte, is read as an update with nothing in it |
| Layouts.PlainLayout | protocols/bgp/packet/nlri.go:113-142 | an NLRI is its path identifier in four bytes if paths are identified, its length and the leading bytes of its address |
| Layouts.LabeledLayout | protocols/bgp/packet/nlri.go:113-142 | with SAFI 4 the length counts 24 bits a label, and the labels stand in three bytes each, the last one marked, before the address |
| Layouts.ListLayout | protocols/bgp/packet/update.go:20-75 | lists of NLRIs are the bytes of one after the other |
| Layouts.AttributeLayout | protocols/bgp/packet/path_attributes.go:509-850 | for every type code the flags byte, the type code, the length in one byte or two, and the body behind it, all in numbers |
| Layouts.FixedValueLayout | protocols/bgp/packet/path_attributes.go:546-657 | origin, next hop, MED, local preference, originator and aggregator by their type codes, and where their bytes stand |
| Layouts.ListValueLayout | protocols/bgp/packet/path_attributes.go:659-768 | communities, large communities and cluster lists by their type codes, and where each number stands |
| Layouts.ASPathLayout | protocols/bgp/packet/path_attributes.go:557-597 | an AS path is its segments in order: kind, count, and AS numbers of four or two bytes each at their offsets |
| Layouts.MultiprotocolLayout | protocols/bgp/packet/mp_reach_nlri.go:20-37 | attributes 14 and 15: family, subsequent family, next hop with its length and a zero, and the NLRIs, at their offsets |
| Layouts.ValuesByType | protocols/bgp/packet/path_attributes.go:96-165 | which kind of value is read for which type code |
| Layouts.SegmentReadIff | protocols/bgp/packet/path_attributes.go:235-307 | a segment is read exactly if its kind is 1 or 2, its count is not zero and its AS numbers are all there |
| Layouts.AddPathIff | protocols/bgp/packet/decode_options.go:10-25 | path identifiers are read exactly for families 1 and 2 with SAFI 1 where they were agreed on |
| Layouts.TwoNextHops | protocols/bgp/packet/mp_reach_nlri.go:39-92 | of a next hop field of 32 bytes the first sixteen are the next hop, and the NLRIs start 33 bytes after its beginning |
| Layouts.OneNextHop | protocols/bgp/packet/mp_reach_nlri.go:39-92 | one of 4 or 16 bytes is the next hop, one of any other length is refused |
| Layouts.NoHostBitsIff | protocols/bgp/packet/helper.go:9-34 | a prefix has no host bits exactly if every bit from its length on is zero |
| Layouts.FamilyReads | protocols/bgp/packet/helper.go:9-34 | family 1 is read as IPv4, family 2 as IPv6 without host bits, any other is refused |
| Layouts.AllOrNone | protocols/bgp/packet/path_attributes.go:15-73 | attributes are read only if 1, 2 and one of 3 and 14 are all there or all missing |
| Packets.DecodeLabelStack | protocols/bgp/packet/nlri.go:77-93 | the label loop does what its specification says, on every buffer |
| Packets.DecodeNLRI | protocols/bgp/packet/nlri.go:55-111 | the reader of one NLRI does what its specification says, errors included |
| Packets.DecodeNLRIs | protocols/bgp/packet/nlri.go:27-53 | the loop does what its specification says and ends on every buffer |
| Packets.SerializeNLRI | protocols/bgp/packet/nlri.go:113-142 | appends the bytes of the NLRI and returns the eight-bit count |
| Packets.DumpNBytes | protocols/bgp/packet/path_attributes.go:491-506 | skips exactly n bytes or fails |
| Packets.DecodeASPath | protocols/bgp/packet/path_attributes.go:235-307 | the nested loops do what the AS path specification says, errors included |
| Packets.DecodeLargeCommunities | protocols/bgp/packet/path_attributes.go:375-409 | the loop does what its specification says |
| Packets.DeserializeReach | protocols/bgp/packet/mp_reach_nlri.go:39-92 | every byte string is read as specified |
| Packets.DeserializeUnreach | protocols/bgp/packet/mp_unreach_nlri.go:32-63 | every byte string is read as specified |
| Packets.DecodePathAttr | protocols/bgp/packet/path_attributes.go:75-168 | every buffer is read as specified, with the count the caller adds up |
| Packets.DecodePathAttrs | protocols/bgp/packet/path_attributes.go:15-73 | the loop and its three flags do what the specification says |
| Packets.DecodeHeader | protocols/bgp/packet/decoder.go:365-422 | marker, length and type are checked as specified, and a failure carries the error code and subcode of its cause |
| Packets.DecodeUpdateMsg | protocols/bgp/packet/decoder.go:48-80 | every buffer is read as specified, the NLRI length with its wrap-around |
| Packets.Decode | protocols/bgp/packet/decoder.go:17-46 | every buffer is read as specified, as an update exactly if the byte at offset 18 is 2 |
| Packets.ReportsNoMore | protocols/bgp/packet/path_attributes.go:546-850 | no serializer reports more bytes than it wrote |
| Packets.SerializeASPath | protocols/bgp/packet/path_attributes.go:557-597 | appends the bytes of the attribute and reports a wrapped length |
| Packets.SerializeCommunities | protocols/bgp/packet/path_attributes.go:659-731 | the same for communities and large communities |
| Packets.SerializeClusterList | protocols/bgp/packet/path_attributes.go:745-768 | the same for cluster lists, whose length is eight bits wide |
| Packets.SerializeMultiProtocol | protocols/bgp/packet/path_attributes.go:796-850 | the same for multiprotocol attributes, and the flags the serializer leaves on the attribute |
| Packets.SerializePathAttribute | protocols/bgp/packet/path_attributes.go:509-544 | the same for every well-typed attribute, and what it leaves of the attribute |
| Packets.SerializeUpdate | protocols/bgp/packet/update.go:20-75 | accepts exactly the updates whose bytes fit 4096, whatever the budget says in between, and returns those bytes, in the layout of an update |
| Packets.SerializedAgain | protocols/bgp/packet/path_attributes.go:796-850 | an attribute whose flags the serializer has set gives the same bytes again and changes no more |
| Packets.SendAndReceive | protocols/bgp/packet/update.go:20-75 | an update is accepted exactly if it fits, and what the reader then makes of the buffer is that update, with the rest left, exactly if it is proper |
| Checksums.ComputeCsum | protocols/isis/packet/lsp.go:79-114 | the chunked loop computes the octets from the sums over what it reads, which starts over with every chunk |
| Checksums.CheckOctetsBalance | protocols/isis/packet/lsp.go:102-113 | the two octets, at offsets 12 and 13, bring both Fletcher sums to zero modulo 255 |
| Checksums.StampVerifiesIff | protocols/isis/packet/lsp.go:79-133 | the stamped PDU verifies exactly if each octet of the former field was 0 or 255 |
| Checksums.CsumCorrectIff | protocols/isis/packet/lsp.go:79-114 | all PDUs of a length with a zeroed field verify exactly if that length is at most 5802 |
| Checksums.LSPDU.SetChecksum | protocols/isis/packet/lsp.go:117-133 | sets the computed octets, which stand at offsets 12 and 13 of what is summed; what is sent then verifies exactly if the former checksum was made of 0 and 255 |
| LinkStateDatabases.LastSummaryDecides | protocols/isis/server/lsdb.go:157-180 | of several summaries of a known LSP the last one decides about flooding and request |
| LinkStateDatabases.UnknownIsRequested | protocols/isis/server/lsdb.go:182-185 | a summary of an unknown LSP leaves a placeholder that is requested and not flooded |
| LinkStateDatabases.OthersUntouched | protocols/isis/server/lsdb.go:157-185 | the flags of other interfaces stay |
| LinkStateDatabases.SummariesKeep | protocols/isis/server/lsdb.go:157-185 | sequence number, lifetime and checksum of a known LSP stay, a placeholder takes the latter two from a summary, and summaries of the version at hand change no request |
| LinkStateDatabases.CompareIff | protocols/isis/packet/lsp.go:38-58 | identifiers are compared by the octets of the system ID and then the pseudonode ID, and the first difference decides |
| LinkStateDatabases.CompareOrders | protocols/isis/packet/lsp.go:38-58 | the comparison is antisymmetric and transitive |
| LinkStateDatabases.RangeContainsIff | protocols/isis/packet/csnp.go:134-137 | a CSNP covers exactly the identifiers not before its start and not after its end |
| LinkStateDatabases.CSNPDecides | protocols/isis/server/lsdb.go:130-185 | a live LSP in range is due for flooding exactly if the CSNP omits it or lists it lower; higher or unknown ones are requested; what is out of range, expired or a placeholder and not listed is left alone; other interfaces are untouched |
| LinkStateDatabases.LinkStateDatabase.ProcessCSNP | protocols/isis/server/lsdb.go:130-155 | every LSP becomes what the CSNP makes of it, and no placeholder is marked for flooding |
| LinkStateDatabases.LinkStateDatabase.ProcessPSNP | protocols/isis/server/lsdb.go:200-211 | exactly the listed LSPs lose their mark on that interface |
| LinkStateDatabases.LinkStateDatabase.SetSRMAllLSPs | protocols/isis/server/lsdb.go:94-100 | all LSPs but placeholders are marked on the interface |
| LinkStateDatabases.LinkStateDatabase.ClearAllSSNFlags | protocols/isis/server/lsdb.go:284-288 | no request is left |
| LinkStateDatabases.LinkStateDatabase.DecrementRemainingLifetimes | protocols/isis/server/lsdb.go:80-92 | LSPs in their last second are gone, the others are one second older |
| LinkStateDatabases.LinkStateDatabase.SendLSPDUs | protocols/isis/server/lsdb.go:115-128 | exactly the marked LSPs go out on their active interfaces, and never a placeholder |
| Handshakes.StepKeepsInv | protocols/isis/server/neighbor_manager.go:90-132 | every send, delivery, time-out, drop in any state and loss of an interface keeps: hellos name only identities their sender has heard, and adjacencies are up only with such hellos |
| Handshakes.UpMeansHeard | protocols/isis/server/neighbor.go:174-209 | in every run an adjacency is up only if the neighbor has received a hello of this very interface, whose IDs are not both zero |
| Handshakes.BothComeUp | protocols/isis/server/neighbor.go:174-209 | in every network any two interfaces on a common level have a run at whose end each is up with the other |
| Handshakes.HelloNames | protocols/isis/server/hello_sender.go:40-132 | a hello carries the own address, IDs and levels, and names by both IDs the only neighbor on level 1, else the only one on level 2, else nobody |
| Handshakes.HelloChanges | protocols/isis/server/neighbor_manager.go:90-132 | a hello adds a new sender on each level both run and accept, brings up a known one if it lists this interface by both IDs, and does nothing else |
| Handshakes.QuietChanges | protocols/isis/server/neighbor.go:85-135 | a time-out takes down one adjacency, losing an interface all of its own, a drop forgets one, and nothing else changes |
| Handshakes.ZeroIdentityFails | protocols/isis/server/hello_sender.go:92-132 | in every network an interface with both IDs zero comes up with any other on a common level that has heard from nobody |
| PathIDs.WrappedIsRemainder | routingtable/adjRIBOut/path_id_manager.go:26-71 | a 32-bit counter shows the count modulo 2^32 |
| PathIDs.PathIDManager.Probe | routingtable/adjRIBOut/path_id_manager.go:39-45 | the first free identifier after the last one given, across the wrap-around |
| PathIDs.PathIDManager.AddPath | routingtable/adjRIBOut/path_id_manager.go:26-53 | a step of such a run: a live path keeps its identifier, a new one gets the next free one after the last one given; refused exactly by the counter, and never returning exactly with every identifier in use |
| PathIDs.PathIDManager.ReleasePath | routingtable/adjRIBOut/path_id_manager.go:55-71 | a step of such a run: one reference less, and the identifier is free again after the last; a path that is not in use is refused |
| PathIDs.LiveWhileAdded | routingtable/adjRIBOut/path_id_manager.go:26-71 | in every run a path has an identifier exactly while it was added more often than released, and its count is the difference |
| PathIDs.IdentifierIsKept | routingtable/adjRIBOut/path_id_manager.go:26-71 | in every run a path keeps its identifier as long as it has one, and meanwhile no other path has it |
| PathIDs.AddUnknown | routingtable/adjRIBOut/path_id_manager.go:35-37 | a new path is refused exactly if the identifiers in use less the partial releases are 2^32 - 1 modulo 2^32 |
| PathIDs.AllInUseIff | routingtable/adjRIBOut/path_id_manager.go:39-45 | every identifier is in use exactly if 2^32 are |
| PathIDs.RefusedWhileEmpty | routingtable/adjRIBOut/path_id_manager.go:26-71 | after two additions and two releases of one path nothing is in use and the next path is refused |
| UpdateQueues.StepKeepsInv | cmd/ris/risserver/update_queue.go:22-47 | every step of producers and consumer keeps order, announcement and mutual exclusion |
| UpdateQueues.EveryRunInOrder | cmd/ris/risserver/update_queue.go:22-47 | in every interleaving the batches and the pending data are the queued updates in order, and pending data is always announced |
| UpdateQueues.BlockedMeansDelivered | cmd/ris/risserver/update_queue.go:38-47 | a consumer that would block has been given everything queued so far |
| UpdateQueues.EverythingCanBeDelivered | cmd/ris/risserver/update_queue.go:22-47 | every run can be carried on, without further calls of enqueue, to where everything submitted is delivered in order |
| UpdateQueues.EmptyQueueSignalledIff | cmd/ris/risserver/update_queue.go:22-47 | in every run a consumer that finds the queue empty is let through exactly if a signal was sent between its last receive and its lock |
| UpdateQueues.EmptyBatchesAreRare | cmd/ris/risserver/update_queue.go:38-47 | an empty batch is never the first and never follows another |
| UpdateQueues.EmptyBatchHappens | cmd/ris/risserver/update_queue.go:22-47 | a run that ends with an empty batch, for any two updates |
| MergedLocRIBs.RemoveSource | routingtable/mergedlocrib/routecontainer.go:20-46 | one announcement of the source is taken away by a swap with the last, the others stay |
| MergedLocRIBs.StepKeepsInv | routingtable/mergedlocrib/mergedlocrib.go:42-90 | every announcement of a prefix without host bits and every withdrawal keeps: for every prefix and path the Loc-RIB has as many paths that are the same as there are stored routes that yield one |
| MergedLocRIBs.HeldIffAnnounced | routingtable/mergedlocrib/mergedlocrib.go:32-90 | in every run over prefixes without host bits the Loc-RIB holds a path, up to sameness, exactly while some source announces it |
| MergedLocRIBs.AlwaysMirroredIff | routingtable/mergedlocrib/mergedlocrib.go:80-90 | in every run over prefixes without host bits the Loc-RIB has as many paths like p as stored routes yield, exactly if p is a BGP or a static path |
| MergedLocRIBs.NeverWithdrawn | route/route.go:288-309 | a path of any other type stays after its only announcement is withdrawn |
| MergedLocRIBs.TwinLeftBehind | routingtable/mergedlocrib/mergedlocrib.go:80-90 | for every BGP path a run in which withdrawing its twin takes the path and leaves the twin |
| MergedLocRIBs.AlwaysExactIff | routingtable/mergedlocrib/mergedlocrib.go:32-90 | for routes from a pool over prefixes without host bits, every run keeps each path in the Loc-RIB as often as stored routes yield that very path, exactly if all are BGP or static and no two of one prefix are the same without being equal |
| MergedLocRIBs.HostBitsLoseAnnounced | net/prefix.go:31-36 | for every prefix with host bits, announced after its base address, the trie has lost the path that is still announced |
| MergedLocRIBs.MergedLocRIB.AddRoute | routingtable/mergedlocrib/mergedlocrib.go:42-60 | one more announcement as a step of a run; it panics exactly for a new route without paths or when the selection does |
| MergedLocRIBs.MergedLocRIB.RemoveRoute | routingtable/mergedlocrib/mergedlocrib.go:63-78 | one announcement less, if there was one, as a step of a run; with the last one the first same path leaves the Loc-RIB |
| MergedLocRIBs.MergedLocRIB.DropAllBySrc | routingtable/mergedlocrib/mergedlocrib.go:32-39 | one announcement of every route less; none is left exactly if no route was held twice |

## Left out

- Dijkstra.Topology.ShortestPathTree: distances are unbounded integers, not 64-bit ones, and with negative distances the contract only says that the run ends.
- Dijkstra.Topology.Relax: says nothing about the tree with negative distances.
- RoutingTables.RoutingTable.AddPath: for a prefix with host bits only the trie is described, not a table; by `Trie.AddsRightIff` it does not always store the table with the path added. Lengths in the trie are at most 32, which a prefix of length zero with host bits breaks.
- RoutingTables.RoutingTable.ReplacePath: nothing is said about the table after replacing the paths of a prefix with host bits.
- Paths.SortedPermutationExists: says that an order exists, not that `sort.Slice` finds it.
- IPv6 in the trie and in the supernet computation: the same loops on two words.
- RoutingTables.TrieNode: the paths of a route are kept in its node, so aliasing through `Route` pointers is not captured.
- LocRIBs.LocRIB.Process: one method stands for the three operations, the table is a map from prefix to route, unregistering clients is not modelled, and nothing is said about the state a panic leaves. The map stands for the trie only for prefixes without host bits.
- LocRIBRuns.QuiescentViews: nothing is said about clients that registered again with options that may give them less, whose views may hold more than they are entitled to; a panic ends a run. The map from prefixes to routes stands for the trie only for prefixes without host bits.
- LocRIBRuns.ViewsNeverStray: nothing is said about such clients here either.
- LocRIBRuns.StepKeepsInv: a client does not register again while its own dump is under way.
- MergedLocRIBs.MergedLocRIB.AddRoute: requires a prefix without host bits, as only then the Loc-RIB stores the table; `MergedLocRIBs.HostBitsLoseAnnounced` says what happens otherwise. Route containers are values in a map, not objects behind pointers, nobody else changes the Loc-RIB behind them, and nothing is said about the state a panic leaves.
- Nlris.ListRoundTrip: the linked lists of NLRIs are sequences, so relinking through `eol.Next` is not captured; the same holds for path attributes.
- Packets.SerializeUpdate: the flags the serializer sets on multiprotocol attributes are not written back into the update; serializing again would give the same bytes.
- Packets.SerializePathAttribute: the attributes of a fixed size share one method.
- Packets.Decode: the bodies of OPEN and NOTIFICATION messages are not looked into.
- Updates.UpdateRoundTrip: the plain fields carry no labels, as those fields are IPv4 unicast in section 4.3 of RFC 4271.
- Packets.DecodeUpdateMsg: which error a failure carries is not modelled, here and in the other readers below the header.
- LinkStateDatabases.LinkStateDatabase.Install: stands for the caller that `newLSDBEntry` does not have yet; receiving LSPs is not part of the program.
- LinkStateDatabases.LinkStateDatabase.SendLSPDUs: which LSPs go out where, not in which order.
- Handshakes.StepKeepsInv: neighbor objects are values in the state of a system of interfaces; locks inside one interface are not modelled.
- PathIDs.PathIDManager.AddPath: a search that does not end is an outcome, recognised by the number of identifiers in use.
- The Adj-RIBs, the BGP finite state machine, route filters, BMP, the other IS-IS TLVs and the gRPC services: mostly fixed shapes or glue.
- `NewCSNPs` and `NewPSNPs`: the count of remaining entries is never reduced, so they do not partition in general.
- The update sender: its budget is an estimate, and the exact bound is the one of `SerializeUpdate`.
