/** Queries answered from SPF results: the nearest destinations, the next
    hops towards them (with loop-free alternates, inequality 1 of section
    1.1 of RFC 5286), the cheapest direct link to a neighbour and hop
    counts between nodes. */
module SpfQueries {
  import opened Types
  import opened LinkGraph
  import opened Spf

  const TWO_TO_64: int := 0x1_0000_0000_0000_0000

  /** Unsigned 64-bit addition and subtraction, wrapping around. */
  function Add64(a: nat, b: nat): (r: nat)
    ensures r < TWO_TO_64
    ensures a + b < TWO_TO_64 ==> r == a + b
  {
    (a + b) % TWO_TO_64
  }

  function Sub64(a: nat, b: nat): (r: nat)
    ensures r < TWO_TO_64
    ensures b <= a < TWO_TO_64 ==> r == a - b
  {
    (a - b) % TWO_TO_64
  }

  /** Every distance of an SPF result fits the 64-bit metric. */
  predicate MetricsFit(spf: SpfResult)
  {
    forall v :: v in spf ==> spf[v].metric <= MAX_METRIC
  }

  // ---------------------------------------------------------------------
  // getMinCostNodes
  // ---------------------------------------------------------------------

  /** `shortest` is the least distance of a destination present in `spf`
      (the largest metric when none is) and `nodes` are exactly the present
      destinations at that distance. */
  ghost predicate IsMinCost(spf: SpfResult, dsts: seq<string>, shortest: nat, nodes: set<string>)
  {
    && (forall d :: d in dsts && d in spf ==> shortest <= spf[d].metric)
    && ((exists d :: d in dsts && d in spf) ==>
          exists d :: d in dsts && d in spf && spf[d].metric == shortest)
    && ((forall d :: d in dsts ==> d !in spf) ==> shortest == MAX_METRIC)
    && (forall d :: d in nodes <==> d in dsts && d in spf && spf[d].metric == shortest)
  }

  method GetMinCostNodes(spf: SpfResult, dstNodeNames: seq<string>)
    returns (shortestMetric: nat, minCostNodes: set<string>)
    requires MetricsFit(spf)
    ensures IsMinCost(spf, dstNodeNames, shortestMetric, minCostNodes)
  {
    shortestMetric := MAX_METRIC;
    minCostNodes := {};
    for i := 0 to |dstNodeNames|
      invariant forall d :: d in dstNodeNames[..i] && d in spf ==> shortestMetric <= spf[d].metric
      invariant (exists d :: d in dstNodeNames[..i] && d in spf) ==>
                  exists d :: d in dstNodeNames[..i] && d in spf && spf[d].metric == shortestMetric
      invariant (forall d :: d in dstNodeNames[..i] ==> d !in spf) ==> shortestMetric == MAX_METRIC
      invariant forall d :: d in minCostNodes <==>
                  d in dstNodeNames[..i] && d in spf && spf[d].metric == shortestMetric
    {
      var dstNode := dstNodeNames[i];
      assert dstNodeNames[..i + 1] == dstNodeNames[..i] + [dstNode];
      if dstNode !in spf {
        continue;
      }
      var nodeDistance := spf[dstNode].metric;
      if shortestMetric >= nodeDistance {
        if shortestMetric > nodeDistance {
          shortestMetric := nodeDistance;
          minCostNodes := {};
        }
        minCostNodes := minCostNodes + {dstNode};
      }
    }
    assert dstNodeNames[..|dstNodeNames|] == dstNodeNames;
  }

  // ---------------------------------------------------------------------
  // findMinDistToNeighbor
  // ---------------------------------------------------------------------

  /** `l` is an up link from `me` to `neighbor`. */
  predicate ToNeighbor(l: Link, me: string, neighbor: string)
  {
    Touches(l, me) && l.up && OtherNode(l, me) == neighbor
  }

  /** The least metric, seen from `me`, of an up link of `links` from `me`
      to `neighbor`; the largest metric when there is none. */
  function MinDistToNeighbor(links: seq<Link>, me: string, neighbor: string): (m: nat)
    ensures m <= MAX_METRIC
    ensures forall l :: l in links && ToNeighbor(l, me, neighbor) ==> m <= MetricFrom(l, me)
    ensures m == MAX_METRIC ||
            exists l :: l in links && ToNeighbor(l, me, neighbor) && MetricFrom(l, me) == m
  {
    if |links| == 0 then MAX_METRIC
    else
      var init := links[..|links| - 1];
      var l := links[|links| - 1];
      var rest := MinDistToNeighbor(init, me, neighbor);
      assert forall x :: x in links <==> x in init || x == l by {
        assert links == init + [l];
      }
      if ToNeighbor(l, me, neighbor) && MetricFrom(l, me) < rest then MetricFrom(l, me) else rest
  }

  method FindMinDistToNeighbor(ls: LinkState, myNodeName: string, neighborName: string)
    returns (min: nat)
    ensures min == MinDistToNeighbor(LinksFromNode(ls.links, myNodeName), myNodeName, neighborName)
  {
    var links := LinksFromNode(ls.links, myNodeName);
    min := MAX_METRIC;
    for i := 0 to |links|
      invariant min == MinDistToNeighbor(links[..i], myNodeName, neighborName)
    {
      assert links[..i + 1][..i] == links[..i];
      var link := links[i];
      if link.up && OtherNode(link, myNodeName) == neighborName {
        var m := MetricFrom(link, myNodeName);
        min := if m < min then m else min;
      }
    }
    assert links[..|links|] == links;
  }

  // ---------------------------------------------------------------------
  // getNextHopsWithMetric
  // ---------------------------------------------------------------------

  /** The destination half of a next-hop key: the destination itself per
      destination, the empty name otherwise. */
  function DstRef(perDestination: bool, d: string): string
  {
    if perDestination then d else ""
  }

  /** Neighbour `n`'s own SPF result reaches destination `d` more cheaply
      than going back through `me` and then along `me`'s shortest path:
      the loop-free condition of inequality 1 of section 1.1 of RFC 5286,
      in 64-bit arithmetic. */
  predicate IsLfa(spfResults: map<string, SpfResult>, me: string, shortest: nat, n: string, d: string)
  {
    && n != me && n in spfResults
    && me in spfResults[n] && d in spfResults[n]
    && spfResults[n][d].metric < Add64(shortest, spfResults[n][me].metric)
  }

  /** The next hops of the shortest paths to the nearest destinations. */
  ghost predicate IsPrimary(
    mine: SpfResult, minCostNodes: set<string>, perDestination: bool, k: (string, string))
  {
    exists d :: d in minCostNodes && d in mine && k.0 in mine[d].nextHops && k.1 == DstRef(perDestination, d)
  }

  /** The value a primary next hop gets: the shortest metric less the
      cheapest link to that neighbour. */
  function PrimaryValue(ls: LinkState, me: string, shortest: nat, nh: string): nat
  {
    Sub64(shortest, MinDistToNeighbor(LinksFromNode(ls.links, me), me, nh))
  }

  /** Builds the primary next hops for the destinations `dsts`. */
  method AddShortestNextHops(
    ls: LinkState, mine: SpfResult, myNodeName: string, dsts: set<string>, shortest: nat,
    perDestination: bool)
    returns (nextHopNodes: map<(string, string), nat>)
    requires forall d :: d in dsts ==> d in mine
    ensures forall k :: k in nextHopNodes <==> IsPrimary(mine, dsts, perDestination, k)
    ensures forall k :: k in nextHopNodes ==> nextHopNodes[k] == PrimaryValue(ls, myNodeName, shortest, k.0)
  {
    nextHopNodes := map[];
    var pending := dsts;
    while pending != {}
      invariant pending <= dsts
      invariant forall k :: k in nextHopNodes <==> IsPrimary(mine, dsts - pending, perDestination, k)
      invariant forall k :: k in nextHopNodes ==>
                  nextHopNodes[k] == PrimaryValue(ls, myNodeName, shortest, k.0)
      decreases pending
    {
      var dstNode :| dstNode in pending;
      var dstNodeRef := DstRef(perDestination, dstNode);
      var hops := mine[dstNode].nextHops;
      ghost var before := nextHopNodes;
      while hops != {}
        invariant hops <= mine[dstNode].nextHops
        invariant forall k :: k in nextHopNodes <==>
                    k in before || (k.0 in mine[dstNode].nextHops - hops && k.1 == dstNodeRef)
        invariant forall k :: k in nextHopNodes ==>
                    nextHopNodes[k] == PrimaryValue(ls, myNodeName, shortest, k.0)
        decreases hops
      {
        var nhName :| nhName in hops;
        var dist := FindMinDistToNeighbor(ls, myNodeName, nhName);
        nextHopNodes := nextHopNodes[(nhName, dstNodeRef) := Sub64(shortest, dist)];
        hops := hops - {nhName};
      }
      pending := pending - {dstNode};
      forall k ensures k in nextHopNodes <==> IsPrimary(mine, dsts - pending, perDestination, k) {
        if k in nextHopNodes && k !in before {
          assert dstNode in dsts - pending;
        }
      }
    }
  }

  /** Stores `v` under `k` unless a value no greater is already there. */
  function KeepLeast(m: map<(string, string), nat>, k: (string, string), v: nat): (r: map<(string, string), nat>)
    ensures r.Keys == m.Keys + {k}
    ensures r[k] <= v && (r[k] == v || (k in m && r[k] == m[k]))
    ensures k in m ==> r[k] <= m[k]
    ensures forall k' :: k' in m && k' != k ==> r[k'] == m[k']
  {
    if k !in m || m[k] > v then m[k := v] else m
  }

  /** Some destination of `dsts` has a loop-free alternate through
      neighbour `k.0 == n` under key `k`. */
  ghost predicate AlternateKey(
    spfResults: map<string, SpfResult>, me: string, shortest: nat, n: string, dsts: seq<string>,
    perDestination: bool, k: (string, string))
  {
    k.0 == n && exists d :: d in dsts && IsLfa(spfResults, me, shortest, n, d) && k.1 == DstRef(perDestination, d)
  }

  /** `nextHopNodes` with the loop-free alternates through neighbour `n`
      to the destinations `dsts` merged in, keeping the least value per
      key. */
  function Alternates(
    spfResults: map<string, SpfResult>, me: string, shortest: nat, n: string, dsts: seq<string>,
    perDestination: bool, nextHopNodes: map<(string, string), nat>): (merged: map<(string, string), nat>)
    ensures nextHopNodes.Keys <= merged.Keys
  {
    if |dsts| == 0 then nextHopNodes
    else
      var d := dsts[|dsts| - 1];
      var prev := Alternates(spfResults, me, shortest, n, dsts[..|dsts| - 1], perDestination, nextHopNodes);
      if IsLfa(spfResults, me, shortest, n, d)
      then KeepLeast(prev, (n, DstRef(perDestination, d)), spfResults[n][d].metric)
      else prev
  }

  lemma LastSplit(dsts: seq<string>)
    requires |dsts| > 0
    ensures forall x :: x in dsts <==> x in dsts[..|dsts| - 1] || x == dsts[|dsts| - 1]
  {
    assert dsts == dsts[..|dsts| - 1] + [dsts[|dsts| - 1]];
  }

  /** The merged keys are the old ones and those of the alternates. */
  lemma {:induction false} AlternatesKeys(
    spfResults: map<string, SpfResult>, me: string, shortest: nat, n: string, dsts: seq<string>,
    perDestination: bool, nextHopNodes: map<(string, string), nat>)
    ensures forall k :: k in Alternates(spfResults, me, shortest, n, dsts, perDestination, nextHopNodes) <==>
              k in nextHopNodes || AlternateKey(spfResults, me, shortest, n, dsts, perDestination, k)
  {
    if |dsts| > 0 {
      LastSplit(dsts);
      AlternatesKeys(spfResults, me, shortest, n, dsts[..|dsts| - 1], perDestination, nextHopNodes);
    }
  }

  /** No merged value exceeds the old value under its key, nor the
      distance of any alternate under its key. */
  lemma {:induction false} AlternatesLeast(
    spfResults: map<string, SpfResult>, me: string, shortest: nat, n: string, dsts: seq<string>,
    perDestination: bool, nextHopNodes: map<(string, string), nat>)
    ensures forall k :: k in nextHopNodes ==>
              Alternates(spfResults, me, shortest, n, dsts, perDestination, nextHopNodes)[k] <= nextHopNodes[k]
    ensures forall d :: d in dsts && IsLfa(spfResults, me, shortest, n, d) ==>
              var merged := Alternates(spfResults, me, shortest, n, dsts, perDestination, nextHopNodes);
              (n, DstRef(perDestination, d)) in merged &&
              merged[(n, DstRef(perDestination, d))] <= spfResults[n][d].metric
  {
    if |dsts| > 0 {
      LastSplit(dsts);
      AlternatesLeast(spfResults, me, shortest, n, dsts[..|dsts| - 1], perDestination, nextHopNodes);
    }
  }

  /** Every merged value is the old value under its key or the distance of
      an alternate under its key. */
  lemma {:induction false} AlternatesAttained(
    spfResults: map<string, SpfResult>, me: string, shortest: nat, n: string, dsts: seq<string>,
    perDestination: bool, nextHopNodes: map<(string, string), nat>)
    ensures var merged := Alternates(spfResults, me, shortest, n, dsts, perDestination, nextHopNodes);
            forall k :: k in merged ==>
              (k in nextHopNodes && merged[k] == nextHopNodes[k]) ||
              (k.0 == n && exists d :: d in dsts && IsLfa(spfResults, me, shortest, n, d)
                                      && k.1 == DstRef(perDestination, d)
                                      && merged[k] == spfResults[n][d].metric)
  {
    if |dsts| > 0 {
      LastSplit(dsts);
      AlternatesAttained(spfResults, me, shortest, n, dsts[..|dsts| - 1], perDestination, nextHopNodes);
    }
  }

  /** The inner loop over destinations for neighbour `n`: merges its
      loop-free alternates into `nextHopNodes`. */
  method AddAlternates(
    spfResults: map<string, SpfResult>, myNodeName: string, n: string, dsts: seq<string>,
    shortest: nat, perDestination: bool, nextHopNodes: map<(string, string), nat>)
    returns (merged: map<(string, string), nat>)
    requires n != myNodeName && n in spfResults && myNodeName in spfResults[n]
    ensures merged == Alternates(spfResults, myNodeName, shortest, n, dsts, perDestination, nextHopNodes)
  {
    merged := nextHopNodes;
    var shortestPathsFromNeighbor := spfResults[n];
    var neighborToHere := shortestPathsFromNeighbor[myNodeName].metric;
    for j := 0 to |dsts|
      invariant merged == Alternates(spfResults, myNodeName, shortest, n, dsts[..j], perDestination, nextHopNodes)
    {
      var dstNode := dsts[j];
      assert dsts[..j + 1][..j] == dsts[..j];
      if dstNode !in shortestPathsFromNeighbor {
        continue;
      }
      var distanceFromNeighbor := shortestPathsFromNeighbor[dstNode].metric;
      if distanceFromNeighbor < Add64(shortest, neighborToHere) {
        var nextHopKey := (n, DstRef(perDestination, dstNode));
        merged := KeepLeast(merged, nextHopKey, distanceFromNeighbor);
      }
    }
    assert dsts[..|dsts|] == dsts;
  }

  /** `m` with the loop-free alternates of every neighbour in `order`
      merged in, neighbour after neighbour: the outer loop over the SPF
      results. */
  function AllAlternates(
    spfResults: map<string, SpfResult>, me: string, shortest: nat, order: seq<string>, dsts: seq<string>,
    perDestination: bool, m: map<(string, string), nat>): (r: map<(string, string), nat>)
    ensures m.Keys <= r.Keys
  {
    if |order| == 0 then m
    else
      var n := order[|order| - 1];
      var prev := AllAlternates(spfResults, me, shortest, order[..|order| - 1], dsts, perDestination, m);
      if n == me then prev
      else Alternates(spfResults, me, shortest, n, dsts, perDestination, prev)
  }

  /** Some neighbour in `order` has a loop-free alternate under key `k`. */
  ghost predicate AnyAlternateKey(
    spfResults: map<string, SpfResult>, me: string, shortest: nat, order: seq<string>, dsts: seq<string>,
    perDestination: bool, k: (string, string))
  {
    k.0 in order && AlternateKey(spfResults, me, shortest, k.0, dsts, perDestination, k)
  }

  lemma {:induction false} AllAlternatesKeys(
    spfResults: map<string, SpfResult>, me: string, shortest: nat, order: seq<string>, dsts: seq<string>,
    perDestination: bool, m: map<(string, string), nat>)
    ensures forall k :: k in AllAlternates(spfResults, me, shortest, order, dsts, perDestination, m) <==>
              k in m || AnyAlternateKey(spfResults, me, shortest, order, dsts, perDestination, k)
  {
    if |order| > 0 {
      var n, init := order[|order| - 1], order[..|order| - 1];
      LastSplit(order);
      AllAlternatesKeys(spfResults, me, shortest, init, dsts, perDestination, m);
      var prev := AllAlternates(spfResults, me, shortest, init, dsts, perDestination, m);
      if n != me {
        AlternatesKeys(spfResults, me, shortest, n, dsts, perDestination, prev);
      }
    }
  }

  lemma {:induction false} AllAlternatesLeast(
    spfResults: map<string, SpfResult>, me: string, shortest: nat, order: seq<string>, dsts: seq<string>,
    perDestination: bool, m: map<(string, string), nat>)
    ensures forall k :: k in m ==>
              AllAlternates(spfResults, me, shortest, order, dsts, perDestination, m)[k] <= m[k]
    ensures forall n, d :: n in order && d in dsts && IsLfa(spfResults, me, shortest, n, d) ==>
              var r := AllAlternates(spfResults, me, shortest, order, dsts, perDestination, m);
              (n, DstRef(perDestination, d)) in r && r[(n, DstRef(perDestination, d))] <= spfResults[n][d].metric
  {
    if |order| > 0 {
      var n, init := order[|order| - 1], order[..|order| - 1];
      LastSplit(order);
      AllAlternatesLeast(spfResults, me, shortest, init, dsts, perDestination, m);
      var prev := AllAlternates(spfResults, me, shortest, init, dsts, perDestination, m);
      if n != me {
        AlternatesLeast(spfResults, me, shortest, n, dsts, perDestination, prev);
      }
    }
  }

  lemma {:induction false} AllAlternatesAttained(
    spfResults: map<string, SpfResult>, me: string, shortest: nat, order: seq<string>, dsts: seq<string>,
    perDestination: bool, m: map<(string, string), nat>)
    ensures var r := AllAlternates(spfResults, me, shortest, order, dsts, perDestination, m);
            forall k :: k in r ==>
              (k in m && r[k] == m[k]) ||
              (k.0 in order && exists d :: d in dsts && IsLfa(spfResults, me, shortest, k.0, d)
                                           && k.1 == DstRef(perDestination, d)
                                           && r[k] == spfResults[k.0][d].metric)
  {
    if |order| > 0 {
      var n, init := order[|order| - 1], order[..|order| - 1];
      LastSplit(order);
      AllAlternatesAttained(spfResults, me, shortest, init, dsts, perDestination, m);
      var prev := AllAlternates(spfResults, me, shortest, init, dsts, perDestination, m);
      if n != me {
        AlternatesAttained(spfResults, me, shortest, n, dsts, perDestination, prev);
      }
    }
  }

  /** The destinations at the least distance. */
  ghost function MinCostSet(mine: SpfResult, dsts: seq<string>, shortest: nat): set<string>
  {
    set d | d in dsts && d in mine && mine[d].metric == shortest
  }

  /** getNextHopsWithMetric: the least distance from `myNodeName` to the
      destinations, and the next hops towards the nearest ones, each with
      the distance that remains from it; with `computeLfaPaths`, also every
      neighbour that is a loop-free alternate, with its own distance, the
      least value kept per key. `order` is the enumeration order of
      `spfResults`. */
  method GetNextHopsWithMetric(
    ls: LinkState, spfResults: map<string, SpfResult>, order: seq<string>, myNodeName: string,
    dstNodeNames: seq<string>, perDestination: bool, computeLfaPaths: bool)
    returns (shortestMetric: nat, nextHopNodes: map<(string, string), nat>)
    requires myNodeName in spfResults && MetricsFit(spfResults[myNodeName])
    requires forall n :: n in order <==> n in spfResults
    requires computeLfaPaths ==> forall n :: n in spfResults ==> myNodeName in spfResults[n]
    ensures IsMinCost(spfResults[myNodeName], dstNodeNames, shortestMetric,
                      MinCostSet(spfResults[myNodeName], dstNodeNames, shortestMetric))
    ensures MinCostSet(spfResults[myNodeName], dstNodeNames, shortestMetric) == {} ==> nextHopNodes == map[]
    ensures MinCostSet(spfResults[myNodeName], dstNodeNames, shortestMetric) != {} ==>
              forall k :: k in nextHopNodes <==>
                IsPrimary(spfResults[myNodeName], MinCostSet(spfResults[myNodeName], dstNodeNames, shortestMetric),
                          perDestination, k)
                || (computeLfaPaths &&
                    AlternateKey(spfResults, myNodeName, shortestMetric, k.0, dstNodeNames, perDestination, k))
    ensures forall k ::
              (k in nextHopNodes &&
               IsPrimary(spfResults[myNodeName], MinCostSet(spfResults[myNodeName], dstNodeNames, shortestMetric),
                         perDestination, k)) ==>
              nextHopNodes[k] <= PrimaryValue(ls, myNodeName, shortestMetric, k.0)
    ensures computeLfaPaths && MinCostSet(spfResults[myNodeName], dstNodeNames, shortestMetric) != {} ==>
              forall n, d :: d in dstNodeNames && IsLfa(spfResults, myNodeName, shortestMetric, n, d) ==>
                (n, DstRef(perDestination, d)) in nextHopNodes &&
                nextHopNodes[(n, DstRef(perDestination, d))] <= spfResults[n][d].metric
    ensures forall k :: k in nextHopNodes ==>
              (IsPrimary(spfResults[myNodeName], MinCostSet(spfResults[myNodeName], dstNodeNames, shortestMetric),
                         perDestination, k)
               && nextHopNodes[k] == PrimaryValue(ls, myNodeName, shortestMetric, k.0))
              || (computeLfaPaths &&
                  exists d :: d in dstNodeNames && IsLfa(spfResults, myNodeName, shortestMetric, k.0, d)
                              && k.1 == DstRef(perDestination, d)
                              && nextHopNodes[k] == spfResults[k.0][d].metric)
  {
    var shortestPathsFromHere := spfResults[myNodeName];
    var minCostNodes;
    shortestMetric, minCostNodes := GetMinCostNodes(shortestPathsFromHere, dstNodeNames);
    assert minCostNodes == MinCostSet(shortestPathsFromHere, dstNodeNames, shortestMetric);
    if minCostNodes == {} {
      return shortestMetric, map[];
    }
    var primary := AddShortestNextHops(
      ls, shortestPathsFromHere, myNodeName, minCostNodes, shortestMetric, perDestination);
    nextHopNodes := primary;
    if computeLfaPaths {
      for i := 0 to |order|
        invariant nextHopNodes ==
                    AllAlternates(spfResults, myNodeName, shortestMetric, order[..i], dstNodeNames,
                                  perDestination, primary)
      {
        assert order[..i + 1][..i] == order[..i];
        var neighborName := order[i];
        if neighborName == myNodeName {
          continue;
        }
        nextHopNodes := AddAlternates(
          spfResults, myNodeName, neighborName, dstNodeNames, shortestMetric, perDestination, nextHopNodes);
      }
      assert order[..|order|] == order;
      AllAlternatesKeys(spfResults, myNodeName, shortestMetric, order, dstNodeNames, perDestination, primary);
      AllAlternatesLeast(spfResults, myNodeName, shortestMetric, order, dstNodeNames, perDestination, primary);
      AllAlternatesAttained(spfResults, myNodeName, shortestMetric, order, dstNodeNames, perDestination, primary);
    }
  }

  // ---------------------------------------------------------------------
  // getMaxHopsToNode, getMyHopsToNode
  // ---------------------------------------------------------------------

  /** An SPF run from `n` that counts hops over every link. */
  function HopParams(ls: LinkState, n: string): SpfParams
  {
    SpfParams(ls, n, false, {})
  }

  /** `max` is the largest hop count from `n` to a node it reaches. */
  ghost predicate IsMaxHops(ls: LinkState, n: string, max: nat)
  {
    && (forall v, d: nat :: IsShortest(HopParams(ls, n), v, d) ==> d <= max)
    && exists v :: IsShortest(HopParams(ls, n), v, max)
  }

  /** The largest distance recorded in an SPF result; 0 for none. */
  method MaxDistance(spf: SpfResult) returns (max: nat)
    ensures forall v :: v in spf ==> spf[v].metric <= max
    ensures max == 0 || exists v :: v in spf && spf[v].metric == max
  {
    max := 0;
    var pending := spf.Keys;
    while pending != {}
      invariant pending <= spf.Keys
      invariant forall v :: v in spf.Keys - pending ==> spf[v].metric <= max
      invariant max == 0 || exists v :: v in spf && spf[v].metric == max
      decreases pending
    {
      var v :| v in pending;
      max := if spf[v].metric > max then spf[v].metric else max;
      pending := pending - {v};
    }
  }

  /** The largest distance of a complete SPF result is the largest
      shortest distance. */
  lemma MaxOfSpfResult(p: SpfParams, spf: SpfResult, max: nat)
    requires p.src in spf && spf[p.src].metric == 0
    requires forall v :: v in spf <==> Reachable(p, v)
    requires forall v :: v in spf ==> IsShortest(p, v, spf[v].metric)
    requires forall v :: v in spf ==> spf[v].metric <= max
    requires max == 0 || exists v :: v in spf && spf[v].metric == max
    ensures forall v, d: nat :: IsShortest(p, v, d) ==> d <= max
    ensures exists v :: IsShortest(p, v, max)
  {
    forall v, d: nat | IsShortest(p, v, d) ensures d <= max {
      assert Reachable(p, v);
      ShortestUnique(p, v, d, spf[v].metric);
    }
    if max == 0 {
      assert IsShortest(p, p.src, 0);
    } else {
      var v :| v in spf && spf[v].metric == max;
      assert IsShortest(p, v, max);
    }
  }

  method GetMaxHopsToNode(ls: LinkState, nodeName: string) returns (max: nat)
    ensures IsMaxHops(ls, nodeName, max)
  {
    var spf := RunSpf(ls, nodeName, false, {});
    max := MaxDistance(spf);
    MaxOfSpfResult(HopParams(ls, nodeName), spf, max);
  }

  method GetMyHopsToNode(ls: LinkState, myNodeName: string, nodeName: string) returns (hops: nat)
    ensures myNodeName == nodeName ==> hops == 0
    ensures myNodeName != nodeName && Reachable(HopParams(ls, myNodeName), nodeName) ==>
              IsShortest(HopParams(ls, myNodeName), nodeName, hops)
    ensures myNodeName != nodeName && !Reachable(HopParams(ls, myNodeName), nodeName) ==>
              IsMaxHops(ls, nodeName, hops)
  {
    if myNodeName == nodeName {
      return 0;
    }
    var spfResult := RunSpf(ls, myNodeName, false, {});
    if nodeName in spfResult {
      return spfResult[nodeName].metric;
    }
    hops := GetMaxHopsToNode(ls, nodeName);
  }
}
