/** The paths of the KSP2_ED_ECMP forwarding algorithm: the sub-path test
    `pathAInPathB`, the choice among traced paths that `selectKsp2Routes`
    makes (every shortest path per announcing node, then every
    second-shortest path that contains no shortest one), and the
    edge-disjoint tracing of `traceEdgeDisjointPaths`. */
module Ksp2Paths {
  import opened Types
  import opened LinkGraph

  /** A traced path: (node, link) pairs from the destination back towards
      the source; each pair names the link and the node it was entered
      from. The C++ code holds the links as shared pointers and compares
      them by address; the model compares link values. */
  type Path = seq<(string, Link)>

  /** A path together with its cost. */
  type Route = (Path, nat)

  // ---------------------------------------------------------------------
  // pathAInPathB
  // ---------------------------------------------------------------------

  /** The links of `a` occur in `b`, in order and contiguously, from
      position `i`. */
  predicate OccursAt(a: Path, b: Path, i: nat)
  {
    i + |a| <= |b| && forall j :: 0 <= j < |a| ==> a[j].1 == b[i + j].1
  }

  ghost predicate PathIn(a: Path, b: Path)
  {
    exists i: nat :: OccursAt(a, b, i)
  }

  /** Whether path `a` is part of path `b`. The C++ code reads `a[0]`, so
      `a` must not be empty. */
  method PathAInPathB(a: Path, b: Path) returns (r: bool)
    requires |a| > 0
    ensures r <==> PathIn(a, b)
    ensures |b| < |a| ==> !r
  {
    for i := 0 to |b|
      invariant forall k: nat :: k < i ==> !OccursAt(a, b, k)
    {
      if b[i].1 == a[0].1 {
        if |a| > |b| - i {
          continue;
        }
        var equal := true;
        for j := 0 to |a|
          invariant equal <==> forall m :: 0 <= m < j ==> a[m].1 == b[i + m].1
        {
          if a[j].1 != b[i + j].1 {
            equal := false;
            break;
          }
        }
        if equal {
          assert OccursAt(a, b, i);
          return true;
        }
      }
    }
    return false;
  }

  lemma PathInSelf(a: Path)
    ensures PathIn(a, a)
  {
    assert OccursAt(a, a, 0);
  }

  /** Containment of paths is transitive. */
  lemma PathInTransitive(a: Path, b: Path, c: Path)
    requires PathIn(a, b) && PathIn(b, c)
    ensures PathIn(a, c)
  {
    var i: nat :| OccursAt(a, b, i);
    var k: nat :| OccursAt(b, c, k);
    assert forall j :: 0 <= j < |a| ==> a[j].1 == b[i + j].1 == c[k + i + j].1;
    assert OccursAt(a, c, k + i);
  }

  // ---------------------------------------------------------------------
  // selectKsp2Routes: shortest and second-shortest paths
  // ---------------------------------------------------------------------

  /** The least cost among `routes`, starting from the largest 64-bit
      metric as the C++ loop does. */
  function MinCost(routes: seq<Route>): (c: nat)
    ensures c <= MAX_METRIC
    ensures forall k :: 0 <= k < |routes| && routes[k].1 <= MAX_METRIC ==> c <= routes[k].1
    ensures c == MAX_METRIC || exists k :: 0 <= k < |routes| && routes[k].1 == c
  {
    if |routes| == 0 then MAX_METRIC
    else
      var m := MinCost(routes[..|routes| - 1]);
      var x := routes[|routes| - 1].1;
      if x < m then x else m
  }

  /** The routes of cost `c` (`same`) or of another cost (`!same`), in order. */
  function Filter(routes: seq<Route>, c: nat, same: bool): (r: seq<Route>)
    ensures forall x :: x in r <==> x in routes && (x.1 == c <==> same)
    ensures |r| <= |routes|
  {
    if |routes| == 0 then []
    else
      var rest := Filter(routes[..|routes| - 1], c, same);
      var x := routes[|routes| - 1];
      assert forall y :: y in routes <==> y in routes[..|routes| - 1] || y == x by {
        assert routes == routes[..|routes| - 1] + [x];
      }
      if (x.1 == c) == same then rest + [x] else rest
  }

  /** Splitting by cost loses and duplicates nothing. */
  lemma {:induction false} FilterSplits(routes: seq<Route>, c: nat)
    ensures multiset(Filter(routes, c, true)) + multiset(Filter(routes, c, false)) == multiset(routes)
  {
    if |routes| > 0 {
      var init := routes[..|routes| - 1];
      FilterSplits(init, c);
      assert routes == init + [routes[|routes| - 1]];
    }
  }

  /** The routes to `n` of its least cost (`same`) or of another cost. */
  function RoutesOf(routeToNodes: map<string, seq<Route>>, n: string, same: bool): seq<Route>
  {
    if n in routeToNodes then Filter(routeToNodes[n], MinCost(routeToNodes[n]), same) else []
  }

  /** Over the nodes in `nodes`, in order: each node's shortest routes
      (`same`) or its other routes (`!same`). */
  function Partition(nodes: seq<string>, routeToNodes: map<string, seq<Route>>, same: bool): (r: seq<Route>)
    ensures forall x :: x in r <==>
              exists n :: n in nodes && n in routeToNodes && x in routeToNodes[n] &&
                          (x.1 == MinCost(routeToNodes[n]) <==> same)
  {
    if |nodes| == 0 then []
    else
      var init := nodes[..|nodes| - 1];
      var n := nodes[|nodes| - 1];
      assert forall m :: m in nodes <==> m in init || m == n by {
        assert nodes == init + [n];
      }
      Partition(init, routeToNodes, same) + RoutesOf(routeToNodes, n, same)
  }

  /** The second-shortest routes that contain no shortest path, in order. */
  ghost function Uncovered(second: seq<Route>, shortest: seq<Route>): (r: seq<Route>)
    ensures forall x :: x in r <==> x in second && forall s :: s in shortest ==> !PathIn(s.0, x.0)
  {
    if |second| == 0 then []
    else
      var init := second[..|second| - 1];
      var x := second[|second| - 1];
      assert forall y :: y in second <==> y in init || y == x by {
        assert second == init + [x];
      }
      var rest := Uncovered(init, shortest);
      if forall s :: s in shortest ==> !PathIn(s.0, x.0) then rest + [x] else rest
  }

  /** The least cost among the routes to one node. */
  method LeastCost(routes: seq<Route>) returns (minCost: nat)
    ensures minCost == MinCost(routes)
  {
    minCost := MAX_METRIC;
    for i := 0 to |routes|
      invariant minCost == MinCost(routes[..i])
    {
      assert routes[..i + 1][..i] == routes[..i];
      minCost := if routes[i].1 < minCost then routes[i].1 else minCost;
    }
    assert routes[..|routes|] == routes;
  }

  /** The routes to one node split into those of least cost and the rest. */
  method SplitRoutes(routes: seq<Route>) returns (shortest: seq<Route>, second: seq<Route>)
    ensures shortest == Filter(routes, MinCost(routes), true)
    ensures second == Filter(routes, MinCost(routes), false)
  {
    var minCost := LeastCost(routes);
    shortest, second := [], [];
    for i := 0 to |routes|
      invariant shortest == Filter(routes[..i], minCost, true)
      invariant second == Filter(routes[..i], minCost, false)
    {
      assert routes[..i + 1][..i] == routes[..i];
      if routes[i].1 == minCost {
        shortest := shortest + [routes[i]];
      } else {
        second := second + [routes[i]];
      }
    }
    assert routes[..|routes|] == routes;
  }

  /** The first loop of `selectKsp2Routes`: over the best announcing
      nodes, each node's least-cost routes and its other routes. */
  method PartitionRoutes(nodes: seq<string>, routeToNodes: map<string, seq<Route>>)
    returns (shortest: seq<Route>, second: seq<Route>)
    ensures shortest == Partition(nodes, routeToNodes, true)
    ensures second == Partition(nodes, routeToNodes, false)
  {
    shortest, second := [], [];
    for i := 0 to |nodes|
      invariant shortest == Partition(nodes[..i], routeToNodes, true)
      invariant second == Partition(nodes[..i], routeToNodes, false)
    {
      assert nodes[..i + 1][..i] == nodes[..i];
      if nodes[i] in routeToNodes {
        var s, o := SplitRoutes(routeToNodes[nodes[i]]);
        shortest := shortest + s;
        second := second + o;
      }
    }
    assert nodes[..|nodes|] == nodes;
  }

  /** Whether some path of `shortest` is part of path `b`. */
  method ContainsShortest(shortest: seq<Route>, b: Path) returns (found: bool)
    requires forall s :: s in shortest ==> |s.0| > 0
    ensures found <==> exists s :: s in shortest && PathIn(s.0, b)
  {
    found := false;
    for k := 0 to |shortest|
      invariant forall m :: 0 <= m < k ==> !PathIn(shortest[m].0, b)
    {
      found := PathAInPathB(shortest[k].0, b);
      if found {
        return;
      }
    }
  }

  /** The second loop of `selectKsp2Routes`: keeps, in order, the
      second-shortest routes that contain no shortest path. */
  method DropCovered(second: seq<Route>, shortest: seq<Route>) returns (kept: seq<Route>)
    requires forall s :: s in shortest ==> |s.0| > 0
    ensures kept == Uncovered(second, shortest)
  {
    kept := [];
    for i := 0 to |second|
      invariant kept == Uncovered(second[..i], shortest)
    {
      assert second[..i + 1][..i] == second[..i];
      var covered := ContainsShortest(shortest, second[i].0);
      if !covered {
        kept := kept + [second[i]];
      }
    }
    assert second[..|second|] == second;
  }

  /** The paths `selectKsp2Routes` installs, one next hop each: every
      shortest route, then every second-shortest route that contains no
      shortest path. No route is returned when there is none, or when the
      prefix's minimum next-hop count `minNextHop` exceeds their number. */
  method SelectKsp2Paths(nodes: seq<string>, routeToNodes: map<string, seq<Route>>, minNextHop: Option<int>)
    returns (r: Option<seq<Route>>)
    requires forall n, x :: n in routeToNodes && x in routeToNodes[n] ==> |x.0| > 0
    ensures var paths := Partition(nodes, routeToNodes, true) +
                         Uncovered(Partition(nodes, routeToNodes, false), Partition(nodes, routeToNodes, true));
            && (r.None? <==> |paths| == 0 || (minNextHop.Some? && minNextHop.value > |paths|))
            && (r.Some? ==> r.value == paths)
  {
    var shortest, second := PartitionRoutes(nodes, routeToNodes);
    var kept := DropCovered(second, shortest);
    var paths := shortest + kept;
    if |paths| == 0 {
      return None;
    }
    if minNextHop.Some? && minNextHop.value > |paths| {
      return None;
    }
    return Some(paths);
  }

  /** Every second-shortest route that `selectKsp2Routes` keeps is a route
      to a best announcing node that costs more than that node's least cost
      and contains none of the shortest paths. */
  lemma SelectedSecondRoutes(nodes: seq<string>, routeToNodes: map<string, seq<Route>>, x: Route)
    requires x in Uncovered(Partition(nodes, routeToNodes, false), Partition(nodes, routeToNodes, true))
    ensures exists n :: n in nodes && n in routeToNodes && x in routeToNodes[n] && x.1 > MinCost(routeToNodes[n])
    ensures forall n, s :: n in nodes && n in routeToNodes && s in routeToNodes[n] && s.1 == MinCost(routeToNodes[n]) ==>
              !PathIn(s.0, x.0)
  {
    var n :| n in nodes && n in routeToNodes && x in routeToNodes[n] && x.1 != MinCost(routeToNodes[n]);
    var k :| 0 <= k < |routeToNodes[n]| && routeToNodes[n][k] == x;
    forall m, s | m in nodes && m in routeToNodes && s in routeToNodes[m] && s.1 == MinCost(routeToNodes[m])
      ensures !PathIn(s.0, x.0)
    {
      assert s in Partition(nodes, routeToNodes, true);
    }
  }

  // ---------------------------------------------------------------------
  // traceEdgeDisjointPaths
  // ---------------------------------------------------------------------

  /** A step of a trace from `spur`: over the up, non-ignored link of
      `x` to the neighbour named in `x`, which the SPF result records, which
      is not overloaded, and whose distance plus the link metric seen from
      it is the distance of `spur`. */
  predicate TraceStep(ls: LinkState, spf: SpfResult, ignore: set<Link>, spur: string, x: (string, Link))
  {
    && x.1 in ls.links && Touches(x.1, spur) && x.0 == OtherNode(x.1, spur)
    && x.1.up && x.1 !in ignore
    && spur in spf && x.0 in spf && !IsOverloaded(ls, x.0)
    && spf[x.0].metric + MetricFrom(x.1, x.0) == spf[spur].metric
  }

  /** The node a trace from `dst` has reached. */
  function TraceEnd(dst: string, path: Path): string
  {
    if |path| == 0 then dst else path[|path| - 1].0
  }

  /** Every step of `path`, from `dst` onwards, is a trace step. */
  predicate IsTrace(ls: LinkState, spf: SpfResult, ignore: set<Link>, dst: string, path: Path)
  {
    forall k :: 0 <= k < |path| ==> TraceStep(ls, spf, ignore, TraceEnd(dst, path[..k]), path[k])
  }

  /** The (node, interface) pair by which a trace step enters its link:
      the key of the C++ `visitedLinks` set. */
  function StepKey(x: (string, Link)): (string, string)
  {
    (x.0, IfaceFrom(x.1, x.0))
  }

  /** Every (node, interface) pair of the links of `links`. */
  function LinkKeys(links: seq<Link>): set<(string, string)>
  {
    (set l | l in links :: (l.node1, l.iface1)) + (set l | l in links :: (l.node2, l.iface2))
  }

  /** The keys of the steps of `path`, with multiplicity. */
  function PathKeys(path: Path): multiset<(string, string)>
  {
    if |path| == 0 then multiset{} else PathKeys(path[..|path| - 1]) + multiset{StepKey(path[|path| - 1])}
  }

  /** The keys of all steps of all paths in `paths`, with multiplicity. */
  function AllKeys(paths: seq<Path>): multiset<(string, string)>
  {
    if |paths| == 0 then multiset{} else AllKeys(paths[..|paths| - 1]) + PathKeys(paths[|paths| - 1])
  }

  /** The keys of the partial paths on the work stack. */
  function StackKeys(stack: seq<(string, Path)>): multiset<(string, string)>
  {
    if |stack| == 0 then multiset{} else StackKeys(stack[..|stack| - 1]) + PathKeys(stack[|stack| - 1].1)
  }

  /** No (node, interface) pair is the entry of two steps of `paths`:
      the paths share no link direction. */
  ghost predicate EdgeDisjoint(paths: seq<Path>)
  {
    forall k :: AllKeys(paths)[k] <= 1
  }

  lemma TraceExtend(ls: LinkState, spf: SpfResult, ignore: set<Link>, dst: string, path: Path, x: (string, Link))
    requires IsTrace(ls, spf, ignore, dst, path)
    requires TraceStep(ls, spf, ignore, TraceEnd(dst, path), x)
    ensures IsTrace(ls, spf, ignore, dst, path + [x])
    ensures TraceEnd(dst, path + [x]) == x.0
    ensures PathKeys(path + [x]) == PathKeys(path) + multiset{StepKey(x)}
  {
    assert (path + [x])[..|path|] == path;
    forall k | 0 <= k < |path| + 1
      ensures TraceStep(ls, spf, ignore, TraceEnd(dst, (path + [x])[..k]), (path + [x])[k])
    {
      if k < |path| {
        assert (path + [x])[..k] == path[..k];
      }
    }
  }

  lemma StepKeyOfLink(l: Link, spur: string)
    requires Touches(l, spur)
    ensures StepKey((OtherNode(l, spur), l)) in LinkKeys([l])
  {
  }

  lemma LinkKeysIn(links: seq<Link>, l: Link, k: (string, string))
    requires l in links && k in LinkKeys([l])
    ensures k in LinkKeys(links)
  {
  }

  /** All that the trace loop keeps: the paths found so far and the partial
      paths on the stack are traces ending where their entries say, the
      found ones at the source; every key in them is visited and appears
      once. */
  ghost predicate TraceInv(
    ls: LinkState, spf: SpfResult, ignore: set<Link>, src: string, dst: string,
    paths: seq<Path>, stack: seq<(string, Path)>, visited: set<(string, string)>)
  {
    && (forall k :: 0 <= k < |paths| ==> IsTrace(ls, spf, ignore, dst, paths[k]) && TraceEnd(dst, paths[k]) == src)
    && (forall k :: 0 <= k < |stack| ==>
          stack[k].0 in spf && IsTrace(ls, spf, ignore, dst, stack[k].1) && TraceEnd(dst, stack[k].1) == stack[k].0)
    && AllKeys(paths) + StackKeys(stack) <= multiset(visited)
  }

  /** Pushing `path` extended by a trace step whose key is not yet
      visited, and marking that key visited, keeps the invariant. */
  lemma PushTrace(
    ls: LinkState, spf: SpfResult, ignore: set<Link>, src: string, dst: string,
    paths: seq<Path>, stack: seq<(string, Path)>, visited: set<(string, string)>,
    path: Path, x: (string, Link))
    requires TraceInv(ls, spf, ignore, src, dst, paths, stack, visited)
    requires IsTrace(ls, spf, ignore, dst, path)
    requires TraceStep(ls, spf, ignore, TraceEnd(dst, path), x)
    requires StepKey(x) !in visited
    requires AllKeys(paths) + StackKeys(stack) + PathKeys(path) <= multiset(visited)
    ensures TraceInv(ls, spf, ignore, src, dst, paths, stack + [(x.0, path + [x])], visited + {StepKey(x)})
  {
    TraceExtend(ls, spf, ignore, dst, path, x);
    var stack' := stack + [(x.0, path + [x])];
    assert stack'[..|stack|] == stack;
    assert StackKeys(stack') == StackKeys(stack) + PathKeys(path) + multiset{StepKey(x)};
    assert multiset(visited + {StepKey(x)}) == multiset(visited) + multiset{StepKey(x)};
  }

  /** The inner loop of `traceEdgeDisjointPaths`: extends the partial
      path `path`, which ends at `spur`, over the links of `spur`. From the
      destination it pushes one path per suitable link; from any other node
      it pushes at most one and stops. */
  method ExtendSpur(
    ls: LinkState, spf: SpfResult, ignore: set<Link>, src: string, dst: string,
    paths: seq<Path>, stack: seq<(string, Path)>, visited: set<(string, string)>,
    spur: string, path: Path)
    returns (stack': seq<(string, Path)>, visited': set<(string, string)>)
    requires spur in spf && IsTrace(ls, spf, ignore, dst, path) && TraceEnd(dst, path) == spur
    requires spur == dst ==> path == []
    requires TraceInv(ls, spf, ignore, src, dst, paths, stack, visited)
    requires AllKeys(paths) + StackKeys(stack) + PathKeys(path) <= multiset(visited)
    ensures TraceInv(ls, spf, ignore, src, dst, paths, stack', visited')
    ensures visited <= visited' <= visited + LinkKeys(ls.links)
    ensures visited' == visited ==> stack' == stack
  {
    stack', visited' := stack, visited;
    var links := LinksFromNode(ls.links, spur);
    for i := 0 to |links|
      invariant TraceInv(ls, spf, ignore, src, dst, paths, stack', visited')
      invariant visited <= visited' <= visited + LinkKeys(ls.links)
      invariant visited' == visited ==> stack' == stack
      invariant visited' == visited ==> AllKeys(paths) + StackKeys(stack') + PathKeys(path) <= multiset(visited')
      invariant spur != dst ==> visited' == visited
    {
      var link := links[i];
      var nbrName := OtherNode(link, spur);
      if !link.up || link in ignore || nbrName !in spf || IsOverloaded(ls, nbrName) {
        continue;
      }
      var nbrIface := IfaceFrom(link, nbrName);
      var nbrMetric := spf[nbrName].metric;
      var spurMetric := spf[spur].metric;
      if (nbrName, nbrIface) in visited' {
        continue;
      }
      if nbrMetric + MetricFrom(link, nbrName) != spurMetric {
        continue;
      }
      var x := (nbrName, link);
      StepKeyOfLink(link, spur);
      LinkKeysIn(ls.links, link, StepKey(x));
      PushTrace(ls, spf, ignore, src, dst, paths, stack', visited', path, x);
      stack' := stack' + [(nbrName, path + [x])];
      visited' := visited' + {(nbrName, nbrIface)};
      if spur != dst {
        break;
      }
    }
  }

  /** Removing `e` from the top of the stack takes its keys with it. */
  lemma PopKeys(stack: seq<(string, Path)>)
    requires |stack| > 0
    ensures StackKeys(stack) == StackKeys(stack[..|stack| - 1]) + PathKeys(stack[|stack| - 1].1)
  {
  }

  lemma AddPathKeys(paths: seq<Path>, p: Path)
    ensures AllKeys(paths + [p]) == AllKeys(paths) + PathKeys(p)
  {
    assert (paths + [p])[..|paths|] == paths;
  }

  /** Visiting more keys of a finite set leaves fewer unvisited. */
  lemma FewerUnvisited(universe: set<(string, string)>, visited: set<(string, string)>, visited': set<(string, string)>)
    requires visited <= visited' <= universe && visited' != visited
    ensures |universe - visited'| < |universe - visited|
  {
    assert !(visited' <= visited);
    var k :| k in visited' && k !in visited;
    assert universe - visited' <= (universe - visited) - {k};
    assert |(universe - visited) - {k}| == |universe - visited| - 1;
    SubsetCard(universe - visited', (universe - visited) - {k});
  }

  lemma {:induction false} SubsetCard<T>(a: set<T>, b: set<T>)
    requires a <= b
    ensures |a| <= |b|
  {
    if a != {} {
      var x :| x in a;
      SubsetCard(a - {x}, b - {x});
    }
  }

  /** Popping the top partial path keeps the invariant for the rest of
      the stack and leaves the popped path's keys accounted for. */
  lemma PopTrace(
    ls: LinkState, spf: SpfResult, ignore: set<Link>, src: string, dst: string,
    paths: seq<Path>, stack: seq<(string, Path)>, visited: set<(string, string)>)
    requires |stack| > 0
    requires TraceInv(ls, spf, ignore, src, dst, paths, stack, visited)
    ensures var top := stack[|stack| - 1];
            && TraceInv(ls, spf, ignore, src, dst, paths, stack[..|stack| - 1], visited)
            && top.0 in spf && IsTrace(ls, spf, ignore, dst, top.1) && TraceEnd(dst, top.1) == top.0
            && AllKeys(paths) + StackKeys(stack[..|stack| - 1]) + PathKeys(top.1) <= multiset(visited)
  {
    PopKeys(stack);
  }

  /** Recording a trace that has reached the source keeps the invariant. */
  lemma RecordTrace(
    ls: LinkState, spf: SpfResult, ignore: set<Link>, src: string, dst: string,
    paths: seq<Path>, stack: seq<(string, Path)>, visited: set<(string, string)>, p: Path)
    requires TraceInv(ls, spf, ignore, src, dst, paths, stack, visited)
    requires IsTrace(ls, spf, ignore, dst, p) && TraceEnd(dst, p) == src
    requires AllKeys(paths) + StackKeys(stack) + PathKeys(p) <= multiset(visited)
    ensures TraceInv(ls, spf, ignore, src, dst, paths + [p], stack, visited)
  {
    AddPathKeys(paths, p);
  }

  /** One round of the trace loop: pops the top partial path; records it
      when it has reached the source, extends it otherwise. */
  method TraceRound(
    ls: LinkState, src: string, dst: string, spf: SpfResult, ignore: set<Link>,
    paths: seq<Path>, stack: seq<(string, Path)>, visited: set<(string, string)>)
    returns (paths': seq<Path>, stack': seq<(string, Path)>, visited': set<(string, string)>)
    requires |stack| > 0
    requires TraceInv(ls, spf, ignore, src, dst, paths, stack, visited)
    ensures TraceInv(ls, spf, ignore, src, dst, paths', stack', visited')
    ensures visited <= visited' <= visited + LinkKeys(ls.links)
    ensures visited' == visited ==> |stack'| < |stack|
  {
    PopTrace(ls, spf, ignore, src, dst, paths, stack, visited);
    var top := stack[|stack| - 1];
    stack' := stack[..|stack| - 1];
    var spurNode := top.0;
    var spurPath := top.1;
    if spurNode == dst {
      spurPath := [];
    }
    visited' := visited;
    if spurNode == src {
      RecordTrace(ls, spf, ignore, src, dst, paths, stack', visited, spurPath);
      paths' := paths + [spurPath];
      return;
    }
    paths' := paths;
    stack', visited' := ExtendSpur(ls, spf, ignore, src, dst, paths, stack', visited, spurNode, spurPath);
  }

  /** Keys counted among the visited ones occur at most once. */
  lemma VisitedOnce(found: multiset<(string, string)>, pending: multiset<(string, string)>, visited: set<(string, string)>)
    requires found + pending <= multiset(visited)
    ensures forall k :: found[k] <= 1
  {
    forall k
      ensures found[k] <= 1
    {
      assert found[k] <= (found + pending)[k] <= multiset(visited)[k];
    }
  }

  /** Traces the shortest paths from `dstNodeName` back to `srcNodeName`
      through `spfResult`, an SPF result computed from `srcNodeName`. A
      link direction, named by the (node, interface) pair it is entered
      by, is used by at most one path; the destination fans out over all
      its suitable links, every other node continues one path over the
      first suitable link. */
  method TraceEdgeDisjointPaths(
    ls: LinkState, srcNodeName: string, dstNodeName: string,
    spfResult: SpfResult, linksToIgnore: set<Link>)
    returns (paths: seq<Path>)
    ensures dstNodeName !in spfResult ==> paths == []
    ensures forall k :: 0 <= k < |paths| ==>
              && IsTrace(ls, spfResult, linksToIgnore, dstNodeName, paths[k])
              && TraceEnd(dstNodeName, paths[k]) == srcNodeName
    ensures EdgeDisjoint(paths)
  {
    paths := [];
    if dstNodeName !in spfResult {
      return;
    }
    var visited: set<(string, string)> := {};
    var stack: seq<(string, Path)> := [(dstNodeName, [])];
    ghost var universe := LinkKeys(ls.links);
    while |stack| > 0
      invariant TraceInv(ls, spfResult, linksToIgnore, srcNodeName, dstNodeName, paths, stack, visited)
      invariant visited <= universe
      decreases |universe - visited|, |stack|
    {
      ghost var visited0 := visited;
      paths, stack, visited := TraceRound(
        ls, srcNodeName, dstNodeName, spfResult, linksToIgnore, paths, stack, visited);
      if visited != visited0 {
        FewerUnvisited(universe, visited0, visited);
      }
    }
    VisitedOnce(AllKeys(paths), StackKeys(stack), visited);
  }
}
