# Open/R route computation, modelled in Dafny

This project models the route-computation core of Open/R's Decision module
(`openr/decision/Decision.cpp`) and the deterministic rules of the test
wrapper `openr/tests/OpenrWrapper.cpp`, and proves what that code promises.

- `Types.dfy`: prefixes, prefix entries and databases, MPLS labels, the
  64-bit metric bound, and the byte-wise string order `std::string::operator<`.
- `LinkGraph.dfy`: the link state as an abstract graph. It holds links with
  two endpoints, an up flag, a metric and an interface per direction, and the
  set of overloaded (drained) nodes. It also defines walks, their costs,
  reachability and shortest distances, which specify the SPF run.
- `DijkstraQueue.dfy`: the keyed priority queue `DijkstraQ` as a class. It
  has a name-to-entry map and a list of queued names, and is ordered by
  (distance, name).
- `Spf.dfy`: `runSpf` as Dijkstra's algorithm over the queue class. It is
  proved to record exactly the reachable nodes, each at its least walk
  cost. Every recorded next hop starts a shortest walk. Overloaded nodes
  carry no transit traffic.
- `SpfQueries.dfy`: the queries over SPF results. These are
  `getMinCostNodes`, `findMinDistToNeighbor`, `getNextHopsWithMetric` with
  its loop-free alternates (inequality 1 of section 1.1 of RFC 5286),
  `getMaxHopsToNode` and `getMyHopsToNode`.
- `Ksp2Paths.dfy`: `pathAInPathB`, the path partition of `selectKsp2Routes`
  and the edge-disjoint path tracing of `traceEdgeDisjointPaths`.
- `RouteSelection.dfy`: the per-prefix rules of `buildRouteDb`. These are
  the advertiser flags, the skip rules, the forwarding-algorithm choice and
  the node-label collision rule. The file also covers
  `getBestAnnouncingNodes`, `maybeFilterDrainedNodes` and
  `getMinNextHopThreshold`.
- `StaticRoutes.dfy`: the static MPLS route queue of the SPF solver and its
  squash ("the last operation on a label wins").
- `DecisionState.dfy`: the `Decision` object's bookkeeping. This covers the
  per-prefix and full-database prefix entries, the changed flags of
  `processPendingUpdates`, the static-route publication and `getMaxFib`.
- `Wrapper.dfy`: the `OpenrWrapper` test harness. It has the start, stop,
  close and join order of its modules as an event log, the cached allocated
  prefix, and the messages it pushes onto its queues.

The node-label collision code keeps the label of the node whose name is
lexicographically smaller. The comment above it speaks of the bigger
node ID. The model follows the code.

## Model

| member | source | states |
|---|---|---|
| DijkstraQueue.DijkstraQ.constructor | openr/decision/Decision.cpp:96-99 | a new queue is empty and satisfies the queue invariant |
| DijkstraQueue.DijkstraQ.InsertNode | openr/decision/Decision.cpp:114-119 | the queue gains the new name at the given distance with no next hops, and its invariant is kept |
| DijkstraQueue.DijkstraQ.Get | openr/decision/Decision.cpp:121-127 | returns the queued entry of a name, and nothing exactly when the name is not queued |
| DijkstraQueue.DijkstraQ.LeastIndex | openr/decision/Decision.cpp:101-111 | finds the queued name that precedes every other one in (distance, name) order |
| DijkstraQueue.DijkstraQ.ExtractMin | openr/decision/Decision.cpp:129-139 | returns nothing exactly when the queue is empty; otherwise returns the least entry by (distance, name) and removes it, so `get` no longer finds it |
| DijkstraQueue.DijkstraQ.DecreaseKey | openr/decision/Decision.cpp:141-155 | succeeds exactly when the name is queued and the new distance is not larger; it then lowers only that distance, and otherwise (where C++ throws) changes nothing |
| DijkstraQueue.DijkstraQ.SetNextHops | openr/decision/Decision.cpp:540-548 | replaces the next-hop set of one queued node and nothing else |
| Spf.OfferDistance | openr/decision/Decision.cpp:528-549 | relaxing a neighbour: a new or strictly cheaper distance replaces the next-hop set; an equal distance adds the relaxing node's next hops (union); an empty set becomes the neighbour itself |
| Spf.RelaxLink | openr/decision/Decision.cpp:520-549 | a down, ignored or already-settled link changes nothing; otherwise the queue is relaxed as above; all queued entries stay valid walks and no distance grows |
| Spf.RelaxNeighbours | openr/decision/Decision.cpp:515-550 | after relaxing every link of the settled node, every usable hop out of the settled set reaches a queued node no dearer than through that hop |
| Spf.SettleNext | openr/decision/Decision.cpp:494-514 | settling the least queued node keeps the Dijkstra invariant; an overloaded non-source node's links are not followed; each round settles a new node or ends with an empty queue |
| Spf.ResultIsShortest | openr/decision/Decision.cpp:494-551 | once the queue is empty, the settled nodes are exactly the reachable ones, at their least walk cost, and every recorded next hop starts a shortest walk |
| Spf.RunSpf | openr/decision/Decision.cpp:482-558 | the source is at distance 0 with no next hops; a node is recorded iff reachable over up, non-ignored links without transit through an overloaded node; each distance is the least total metric (1 per hop without link metrics); each next hop starts such a shortest walk; every other node has a next hop |
| SpfQueries.Add64 | openr/decision/Decision.cpp:1480 | `uint64_t` addition: below 2^64, and the exact sum when it fits |
| SpfQueries.Sub64 | openr/decision/Decision.cpp:1457 | `uint64_t` subtraction: below 2^64, and the exact difference when it does not underflow |
| SpfQueries.GetMinCostNodes | openr/decision/Decision.cpp:1400-1423 | returns the least distance over the destinations present in the SPF result, with exactly the destinations at it; (largest metric, empty set) when none is present |
| SpfQueries.MinDistToNeighbor | openr/decision/Decision.cpp:1579-1589 | the least metric of an up link from me to the neighbour, or the largest 64-bit metric when there is none |
| SpfQueries.FindMinDistToNeighbor | openr/decision/Decision.cpp:1579-1589 | the loop over my links computes that least metric |
| SpfQueries.AddShortestNextHops | openr/decision/Decision.cpp:1452-1459 | keys exactly (next hop, destination or "") of each nearest destination's next hops, valued shortest metric minus the metric to that neighbour |
| SpfQueries.KeepLeast | openr/decision/Decision.cpp:1483-1488 | adds a key or lowers its value to the smaller one, leaving other keys alone |
| SpfQueries.Alternates | openr/decision/Decision.cpp:1470-1490 | merging one neighbour's alternates never drops an existing key |
| SpfQueries.AlternatesKeys | openr/decision/Decision.cpp:1470-1490 | a key is present after one neighbour's merge iff it was before or that neighbour is a loop-free alternate for some destination |
| SpfQueries.AlternatesLeast | openr/decision/Decision.cpp:1470-1490 | merging never raises a value, and every alternate key holds at most the neighbour's distance to that destination |
| SpfQueries.AlternatesAttained | openr/decision/Decision.cpp:1470-1490 | every merged value is either the old value or the distance of a loop-free-alternate destination |
| SpfQueries.AddAlternates | openr/decision/Decision.cpp:1463-1491 | the loop over destinations for one neighbour computes that merge |
| SpfQueries.AllAlternates | openr/decision/Decision.cpp:1462-1492 | merging over all neighbours never drops an existing key |
| SpfQueries.AllAlternatesKeys | openr/decision/Decision.cpp:1462-1492 | a key is present after all neighbours iff it was before or some neighbour other than me is a loop-free alternate for a destination |
| SpfQueries.AllAlternatesLeast | openr/decision/Decision.cpp:1462-1492 | no value grows, and every alternate key holds at most the alternate's distance |
| SpfQueries.AllAlternatesAttained | openr/decision/Decision.cpp:1462-1492 | every value is an original one or an alternate's distance to a destination |
| SpfQueries.GetNextHopsWithMetric | openr/decision/Decision.cpp:1425-1495 | returns the least metric to the destinations; no next hop when none is reachable; otherwise the keys are exactly the shortest-path next hops plus, with LFA enabled, the neighbours meeting inequality 1 of RFC 5286; each value is a primary next hop's remaining metric or an alternate's least distance |
| SpfQueries.MaxDistance | openr/decision/Decision.cpp:433-440 | the largest distance in an SPF result, or 0 for none |
| SpfQueries.MaxOfSpfResult | openr/decision/Decision.cpp:433-440 | for a complete SPF result, that largest distance is the greatest shortest distance from the node |
| SpfQueries.GetMaxHopsToNode | openr/decision/Decision.cpp:433-440 | returns the largest hop count from the node to any node it reaches |
| SpfQueries.GetMyHopsToNode | openr/decision/Decision.cpp:421-431 | 0 to myself; the shortest hop count to a reachable node; otherwise the node's largest hop count to anything it reaches |
| Ksp2Paths.PathAInPathB | openr/decision/Decision.cpp:64-85 | for a non-empty `a`: true iff the link sequence of `a` occurs contiguously in `b`; false when `b` is shorter than `a` |
| Ksp2Paths.PathInSelf | openr/decision/Decision.cpp:64-85 | every non-empty path contains itself |
| Ksp2Paths.PathInTransitive | openr/decision/Decision.cpp:64-85 | containment of paths is transitive |
| Ksp2Paths.MinCost | openr/decision/Decision.cpp:1245-1249 | the least cost of a node's routes, starting from the largest 64-bit metric |
| Ksp2Paths.Filter | openr/decision/Decision.cpp:1251-1257 | keeps exactly the routes of the given cost, or exactly the others |
| Ksp2Paths.FilterSplits | openr/decision/Decision.cpp:1251-1257 | the two parts together are a permutation of the routes |
| Ksp2Paths.Partition | openr/decision/Decision.cpp:1240-1258 | over the best nodes, collects exactly each node's least-cost routes, or exactly its other routes |
| Ksp2Paths.Uncovered | openr/decision/Decision.cpp:1265-1282 | keeps exactly the second-shortest routes that contain no shortest path |
| Ksp2Paths.LeastCost | openr/decision/Decision.cpp:1245-1249 | the loop computes the least cost |
| Ksp2Paths.SplitRoutes | openr/decision/Decision.cpp:1251-1257 | the loop splits one node's routes by the least cost |
| Ksp2Paths.PartitionRoutes | openr/decision/Decision.cpp:1240-1258 | the loop over best nodes builds both partitions |
| Ksp2Paths.ContainsShortest | openr/decision/Decision.cpp:1266-1278 | true iff some shortest path lies inside the given path |
| Ksp2Paths.DropCovered | openr/decision/Decision.cpp:1265-1282 | the loop keeps exactly the uncovered second-shortest routes, in order |
| Ksp2Paths.SelectKsp2Paths | openr/decision/Decision.cpp:1233-1329 | the installed paths are every shortest route, then every uncovered second-shortest one; none when there is no path or the minimum next-hop count exceeds their number |
| Ksp2Paths.SelectedSecondRoutes | openr/decision/Decision.cpp:1240-1282 | every kept second-shortest route costs more than its node's least cost and contains none of the shortest paths |
| Ksp2Paths.TraceExtend | openr/decision/Decision.cpp:611-635 | extending a trace by a step keeps it a trace and adds exactly that step's link key |
| Ksp2Paths.PushTrace | openr/decision/Decision.cpp:617-635 | pushing a path extended over an unvisited link direction keeps the trace invariant |
| Ksp2Paths.PopTrace | openr/decision/Decision.cpp:584-593 | popping the work stack keeps the invariant and yields a trace whose keys are accounted for |
| Ksp2Paths.RecordTrace | openr/decision/Decision.cpp:597-600 | recording a trace that reached the source keeps the invariant |
| Ksp2Paths.ExtendSpur | openr/decision/Decision.cpp:603-641 | the inner loop keeps the invariant, only visits link keys of the graph, and pushes nothing iff it visits nothing |
| Ksp2Paths.TraceRound | openr/decision/Decision.cpp:584-642 | one round keeps the invariant and either visits a new link direction or shrinks the stack |
| Ksp2Paths.TraceEdgeDisjointPaths | openr/decision/Decision.cpp:560-645 | no path when the destination is not in the SPF result; each path is a chain of shortest-path steps over up, non-ignored links from the destination back to the source; no link direction is used twice |
| RouteSelection.MaybeFilterDrainedNodes | openr/decision/Decision.cpp:981-993 | the input minus overloaded nodes, or the input itself when that would be empty; always a subset |
| RouteSelection.FindNonMpls | openr/decision/Decision.cpp:917-930 | true iff some advertiser does not use SR-MPLS forwarding |
| RouteSelection.AllAdvertisers | openr/decision/Decision.cpp:933-941 | no result if I advertise the prefix, else success with all advertisers |
| RouteSelection.GetBestAnnouncingNodes | openr/decision/Decision.cpp:908-960 | KSP2 with a non-MPLS advertiser fails; without BGP the advertisers, unless I am one, drained-filtered; with BGP the best path's nodes, unless it failed or includes me, drained-filtered; a success never includes me |
| RouteSelection.GetMinNextHopThreshold | openr/decision/Decision.cpp:962-979 | none iff no best node sets a minimum next-hop count, else the largest one set |
| RouteSelection.FlagsOfAdd | openr/decision/Decision.cpp:705-721 | the flags of one more advertiser are OR-ed into the flags of the others |
| RouteSelection.ScanAdvertisers | openr/decision/Decision.cpp:705-721 | the loop computes the OR of every advertiser's flags |
| RouteSelection.ClassifyPrefix | openr/decision/Decision.cpp:723-776 | the loop and skip rules compute the route kind of a prefix |
| RouteSelection.RoutedIff | openr/decision/Decision.cpp:723-754 | a prefix is routed iff its advertisers are all BGP with metric vectors or all non-BGP, I advertise it only via BGP, and it is not IPv4 with IPv4 disabled |
| RouteSelection.AlgorithmChoice | openr/decision/Decision.cpp:756-776 | a routed prefix takes KSP2_ED_ECMP iff some advertiser asks for it and none asks for SP_ECMP, and the BGP path iff some advertiser is BGP |
| RouteSelection.OwnersStep | openr/decision/Decision.cpp:798-866 | one more node keeps the label-ownership invariant: an eligible node takes its label unless a lexicographically smaller owner holds it |
| RouteSelection.NodeLabelOwners | openr/decision/Decision.cpp:796-866 | the loop over adjacency databases yields the owner map of all nodes |
| RouteSelection.OwnerUnique | openr/decision/Decision.cpp:813-827 | a label is owned by its lexicographically smallest eligible node (label set, valid, and either me or routable), whatever the order of the loop |
| StaticRoutes.LastOp | openr/decision/Decision.cpp:1186-1200 | the last queued operation on a label is one of the operations on it, and none exists iff no operation names it |
| StaticRoutes.SquashIsLastOp | openr/decision/Decision.cpp:1186-1200 | a label is to be installed iff its last operation is an update, with that route; to be deleted iff its last is a delete; so never both |
| StaticRoutes.SquashKeys | openr/decision/Decision.cpp:1190 | every installed route is keyed by its own top label |
| StaticRoutes.SquashPuts | openr/decision/Decision.cpp:1187-1192 | the update loop of one delta squashes those updates in order |
| StaticRoutes.SquashErases | openr/decision/Decision.cpp:1194-1199 | the delete loop of one delta squashes those deletes in order |
| StaticRoutes.InstallRoutes | openr/decision/Decision.cpp:1208-1212 | every squashed route's next hops are written into the table; other labels are kept |
| StaticRoutes.DeleteLabels | openr/decision/Decision.cpp:1214-1217 | exactly the deleted labels leave the table |
| StaticRoutes.StaticRouteState.constructor | openr/decision/Decision.cpp:360-362 | a new solver has no static MPLS routes and no queued deltas |
| StaticRoutes.StaticRouteState.StaticRoutesUpdated | openr/decision/Decision.cpp:405-408 | true iff deltas are queued |
| StaticRoutes.StaticRouteState.PushRoutesDeltaUpdates | openr/decision/Decision.cpp:410-414 | appends the delta to the queue and leaves the table alone |
| StaticRoutes.StaticRouteState.SquashUpdates | openr/decision/Decision.cpp:1186-1200 | squashes all queued deltas in arrival order, each delta's updates before its deletes |
| StaticRoutes.StaticRouteState.ApplySquashed | openr/decision/Decision.cpp:1207-1219 | the table gains the installed labels' next hops and loses the deleted labels |
| StaticRoutes.StaticRouteState.ProcessStaticRouteUpdates | openr/decision/Decision.cpp:1180-1220 | empties the queue; returns none, leaving the table, when nothing remains after squashing; otherwise returns the squash and applies it to the table |
| StaticRoutes.TableFollowsLastOp | openr/decision/Decision.cpp:1180-1220 | after processing, a label's entry follows its last queued operation, and labels no delta touched keep their entry |
| DecisionState.KeyByPrefix | openr/decision/Decision.cpp:1921-1924 | keys a full database by prefix |
| DecisionState.FromEntriesKeys | openr/decision/Decision.cpp:1921-1924 | a full database keys exactly the prefixes of its entries |
| DecisionState.FromEntriesLast | openr/decision/Decision.cpp:1921-1924 | each prefix maps to its last entry |
| DecisionState.ListValuesExcept | openr/decision/Decision.cpp:1931-1938 | lists once each the entries of the prefixes not skipped |
| DecisionState.MergedEntries | openr/decision/Decision.cpp:1927-1938 | lists each entry of the merged map once and nothing else, in two blocks: first every per-prefix entry, then every full-database entry whose prefix has no per-prefix entry |
| DecisionState.ConcatListsMerge | openr/decision/Decision.cpp:1927-1938 | a listing of the per-prefix entries followed by a listing of the full-database entries they do not override is a listing of the merge |
| DecisionState.MergePrecedence | openr/decision/Decision.cpp:1931-1938 | a prefix is merged iff it has either entry; the per-prefix entry takes precedence |
| DecisionState.Decision.UpdateNodePrefixDatabase | openr/decision/Decision.cpp:1900-1940 | a full-database key replaces all full entries of the node; a per-prefix delete removes only that prefix; a per-prefix add stores the first entry and an empty one changes nothing; the returned database lists the merge, per-prefix entries first; nothing else changes |
| DecisionState.Decision.constructor | openr/decision/Decision.cpp:1728-1760 | a new `Decision` holds no prefix entries, no pending changes, no FIB times and no published updates, over the given solver |
| DecisionState.Decision.RecordPublication | openr/decision/Decision.cpp:1808-1809 | a publication's changed flags are OR-ed into the pending ones |
| DecisionState.Decision.ProcessStaticRouteUpdates | openr/decision/Decision.cpp:2053-2075 | during cold start nothing happens; otherwise the solver's queue is squashed and emptied, and a non-empty squash is applied and published |
| DecisionState.Decision.ProcessPendingUpdates | openr/decision/Decision.cpp:2083-2110 | an adjacency change wins over a prefix or static-route change in choosing the recomputation; both flags end cleared; during cold start the static queue, the static table and the published updates are unchanged; otherwise the queue is emptied, and a non-empty squash of it is applied to the table and published, while an empty one changes neither |
| DecisionState.Decision.RecordFibTime | openr/decision/Decision.cpp:2010 | records one node's FIB time and changes nothing else |
| DecisionState.Decision.GetMaxFib | openr/decision/Decision.cpp:2231-2237 | returns the largest recorded FIB time, and at least 1 |
| DecisionState.MaxFibUnique | openr/decision/Decision.cpp:2231-2237 | that largest time is unique |
| Wrapper.ReverseAt | openr/tests/OpenrWrapper.cpp:402-423 | reversal maps position k to position n-1-k |
| Wrapper.ModulesInAppend | openr/tests/OpenrWrapper.cpp:389-431 | the modules of a log are those of its parts in order |
| Wrapper.ModulesInEvents | openr/tests/OpenrWrapper.cpp:389-431 | a run of one kind of module event lists exactly its modules for that kind |
| Wrapper.StopOrderReversesStartOrder | openr/tests/OpenrWrapper.cpp:402-423 | the stop order is the exact reverse of the start order of the constructor and `run` |
| Wrapper.WrapperLogIsLifecycleLog | openr/tests/OpenrWrapper.cpp:61-431 | the events logged by construction, `run` and `stop`, concatenated in that order, are the lifecycle log |
| Wrapper.Lifecycle | openr/tests/OpenrWrapper.cpp:61-431 | a wrapper constructed, run and stopped has logged exactly the lifecycle log, has closed every queue, has stopped its modules in the reverse of their start order, and has joined every thread in start order |
| Wrapper.LifecycleOrder | openr/tests/OpenrWrapper.cpp:389-431 | stops are the reverse of starts; every started thread is joined, in start order; every queue is closed, and every close precedes every stop |
| Wrapper.InterfacesFirstWins | openr/tests/OpenrWrapper.cpp:479-490 | the interface database names exactly the entries' interfaces, each with the first entry of its name (up, its index, its two networks) |
| Wrapper.AllocatedPrefix | openr/tests/OpenrWrapper.cpp:112-121 | the prefix of the first PREFIX_ALLOCATOR entry, or none iff there is none |
| Wrapper.DumpedPrefixNone | openr/tests/OpenrWrapper.cpp:445-459 | the dump yields nothing iff no database both is not being deleted and holds an allocated prefix |
| Wrapper.DumpedPrefixLast | openr/tests/OpenrWrapper.cpp:445-459 | otherwise the last such database in enumeration order wins, with its first allocated prefix |
| Wrapper.FindAllocatedPrefix | openr/tests/OpenrWrapper.cpp:112-118 | the loop finds the first allocated prefix |
| Wrapper.AllocatedPrefixSkips | openr/tests/OpenrWrapper.cpp:112-118 | entries that are not PREFIX_ALLOCATOR can be skipped |
| Wrapper.CheckPrefixExists | openr/tests/OpenrWrapper.cpp:525-535 | true iff some unicast route's destination is the prefix, so false with no routes |
| Wrapper.OpenrWrapper.constructor | openr/tests/OpenrWrapper.cpp:61-91 | starts config store and KvStore, with nothing cached, closed or queued |
| Wrapper.OpenrWrapper.Start | openr/tests/OpenrWrapper.cpp:67-73 | logs a start and records the thread |
| Wrapper.OpenrWrapper.Halt | openr/tests/OpenrWrapper.cpp:402-423 | logs a stop |
| Wrapper.OpenrWrapper.Close | openr/tests/OpenrWrapper.cpp:393-399 | logs and records a queue close |
| Wrapper.OpenrWrapper.Run | openr/tests/OpenrWrapper.cpp:308-386 | starts the remaining modules in order |
| Wrapper.OpenrWrapper.CloseQueues | openr/tests/OpenrWrapper.cpp:393-399 | closes every queue in order |
| Wrapper.OpenrWrapper.StopModules | openr/tests/OpenrWrapper.cpp:402-423 | stops the modules in the listed order |
| Wrapper.OpenrWrapper.JoinThreads | openr/tests/OpenrWrapper.cpp:426-428 | joins every thread in order |
| Wrapper.OpenrWrapper.Stop | openr/tests/OpenrWrapper.cpp:389-431 | closes all queues, then stops the modules, then joins every thread |
| Wrapper.OpenrWrapper.OnPrefixDbUpdate | openr/tests/OpenrWrapper.cpp:100-122 | an absent value leaves the cache; otherwise it becomes the first allocated prefix, or none |
| Wrapper.OpenrWrapper.GetIpPrefix | openr/tests/OpenrWrapper.cpp:433-462 | a cached prefix is returned unchanged, so repeated calls agree; otherwise the dump's last qualifying database decides the cache, which stays none if none qualifies |
| Wrapper.OpenrWrapper.SparkUpdateInterfaceDb | openr/tests/OpenrWrapper.cpp:471-494 | pushes exactly one interface database for this node, built as above, and returns true |
| Wrapper.OpenrWrapper.AddPrefixEntries | openr/tests/OpenrWrapper.cpp:503-512 | pushes exactly one ADD_PREFIXES request with the given prefixes, and returns true |
| Wrapper.OpenrWrapper.WithdrawPrefixEntries | openr/tests/OpenrWrapper.cpp:514-523 | pushes exactly one WITHDRAW_PREFIXES request with the given prefixes, and returns true |

## Left out

- Spf.RunSpf: distances are unbounded naturals. The `uint64_t` sums of `runSpf` and of the path tracing could wrap for metrics near 2^64; this is not modelled.
- Spf.RunSpf: next-hop sets are proved sound (every next hop starts a shortest walk) but not complete. With zero-metric links a node can be settled before an equal-cost neighbour relaxes it, so completeness does not hold in general.
- DijkstraQueue.DijkstraQ: the binary-heap layout (`push_heap`, `pop_heap`, `make_heap`) is replaced by a scan for the least (distance, name) entry. The order is strict and total, so the extracted node is the same.
- DijkstraQueue.DijkstraQ.InsertNode: requires the name not to be queued. `runSpf` only inserts absent names; a second insert in C++ would leave a stale heap node.
- DijkstraQueue.DijkstraQ.DecreaseKey: the exception is modelled as a `false` result with no change.
- SpfQueries.GetNextHopsWithMetric: the C++ `.at` lookups become preconditions (my own SPF result exists, and with LFA enabled every neighbour's result holds me). Destinations and `spfResults_` are visited in a given order.
- Ksp2Paths: links are compared by value rather than by shared pointer.
- Ksp2Paths.SelectKsp2Paths: building the MPLS label stacks and next hops of each path (Decision.cpp:1288-1318) is left out. The count of next hops is the count of paths. So is the BGP best-data attachment (1331-1343), because `getLoopbackVias` is not part of this model.
- `createOpenRKsp2EdRouteForNodes` (Decision.cpp:1348-1398) is not modelled separately. It composes `runSpf`, `traceEdgeDisjointPaths` and link ignoring, which are modelled.
- RouteSelection.GetBestAnnouncingNodes: the BGP best-path result (`findDstNodesForBgpRoute`, metric-vector comparison) is a parameter.
- RouteSelection.NodeLabelOwners: `isMplsLabelValid` is a parameter. Whether `getNextHopsWithMetric` finds a route to a node is a given set of routable nodes. The MPLS route contents (POP_AND_LOOKUP, next-hop actions) are not built.
- The adjacency-label MPLS routes of `buildRouteDb` (Decision.cpp:877-898), `createOpenRRoute` and `createBGPRoute` are not modelled.
- DecisionState.Decision.UpdateNodePrefixDatabase: `PrefixKey::fromStr` is not part of this model; the parsed per-prefix key is a parameter. The copied perf events are left out.
- DecisionState.Decision.RecordFibTime: FIB times are naturals. The source parses them with `stoll` into signed milliseconds (Decision.cpp:2008-2009), so a negative time could be stored; negative times are not modelled. `getMaxFib` starts from 1, so its result is unaffected.
- DecisionState.Decision.ProcessPendingUpdates: the cold-start timer is a parameter. `processPendingAdjUpdates` and `processPendingPrefixUpdates` are left out; the model states only which of them runs.
- StaticRoutes.StaticRouteState.ProcessStaticRouteUpdates: the returned delta is a map and a set. The C++ code emits them from hash containers in unspecified order.
- `processPublication` parsing, perf events, fb303 counters, logging, timing, threads, locks, sockets and the event base are left out. The publication's effect is modelled by DecisionState.Decision.RecordPublication and RecordFibTime.
- `checkKeyExists` and `fibDumpRouteDatabase` (OpenrWrapper.cpp:464-501) only query the KvStore or FIB over sockets.
- Wrapper.OpenrWrapper.GetIpPrefix: the store dump is a given sequence of decoded databases; a failed dump (`keys.value()` throwing) is not modelled.
- Wrapper.OpenrWrapper: a push on a closed queue is dropped. `ReplicateQueue` is not part of this model.
- Wrapper.OpenrWrapper: only the prefix-update and interface-update queues keep their contents; the other queues are only closed.
- Wrapper.OpenrWrapper.Start: `waitUntilRunning` is not modelled; the event base has none.
