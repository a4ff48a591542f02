/** `SpfSolverImpl::runSpf`: Dijkstra's algorithm over the link state from
    one node, recording for every node reached its distance and its set of
    equal-cost next hops. Overloaded nodes other than the source are reached
    but carry no transit traffic; down links and ignored links are skipped;
    without link metrics every hop costs 1. */
module Spf {
  import opened Types
  import opened LinkGraph
  import opened DijkstraQueue

  /** Some walk from the source reaches `v` at cost `d`. */
  ghost predicate HasWalk(p: SpfParams, v: string, d: nat)
  {
    exists w :: IsWalk(p, w, v) && Cost(p, w) == d
  }

  /** `n` is the first hop of a walk of cost `d` from the source to `v`. */
  ghost predicate ReachedVia(p: SpfParams, v: string, n: string, d: nat)
  {
    exists w :: IsWalk(p, w, v) && Cost(p, w) == d && |w| > 0 && HopTo(w[0]) == n
  }

  // ---------------------------------------------------------------------
  // Invariants of the run.
  // ---------------------------------------------------------------------

  /** The distance of entry `e` for `v` is the cost of some walk, and every
      next hop begins a walk of that cost; only the source has none. */
  ghost predicate EntryOk(p: SpfParams, v: string, e: SpfEntry)
  {
    && HasWalk(p, v, e.metric)
    && (v == p.src ==> e.metric == 0)
    && (v != p.src ==> e.nextHops != {})
    && forall n :: n in e.nextHops ==> ReachedVia(p, v, n, e.metric)
  }

  ghost predicate EntriesOk(p: SpfParams, m: SpfResult)
  {
    forall v :: v in m ==> EntryOk(p, v, m[v])
  }

  /** No walk reaches a recorded node more cheaply than its distance. */
  ghost predicate LowerBound(p: SpfParams, r: SpfResult)
  {
    forall v, w :: v in r && IsWalk(p, w, v) ==> Cost(p, w) >= r[v].metric
  }

  /** Every usable hop from a recorded node (other than `skip`) to an
      unrecorded node ends at a queued node no farther than going through
      the hop. */
  ghost predicate FrontierExcept(p: SpfParams, r: SpfResult, q: SpfResult, skip: Option<string>)
  {
    forall h :: Usable(p, h) && h.from in r && Some(h.from) != skip && HopTo(h) !in r ==>
      HopTo(h) in q && q[HopTo(h)].metric <= r[h.from].metric + HopCost(p, h)
  }

  /** The same for the hops from `u` over the links in `done`. */
  ghost predicate FrontierOf(p: SpfParams, r: SpfResult, q: SpfResult, u: string, done: seq<Link>)
    requires u in r
  {
    forall h :: Usable(p, h) && h.from == u && h.link in done && HopTo(h) !in r ==>
      HopTo(h) in q && q[HopTo(h)].metric <= r[u].metric + HopCost(p, h)
  }

  /** Queued distances only go down and queued nodes stay queued. */
  ghost predicate NoWorse(q0: SpfResult, q1: SpfResult)
  {
    forall v :: v in q0 ==> v in q1 && q1[v].metric <= q0[v].metric
  }

  /** A walk that ends outside the recorded nodes costs at least as much
      as the least queued distance: its last hop out of the recorded nodes
      ends at a queued node. */
  lemma {:induction false} LeavingWalkCost(p: SpfParams, r: SpfResult, q: SpfResult, m: string, w: seq<Hop>, t: string)
    requires LowerBound(p, r) && FrontierExcept(p, r, q, None)
    requires p.src in r && m in q && t !in r
    requires forall k :: k in q ==> q[m].metric <= q[k].metric
    requires IsWalk(p, w, t)
    ensures Cost(p, w) >= q[m].metric
  {
    var k := |w| - 1;
    var h := w[k];
    if h.from !in r {
      LeavingWalkCost(p, r, q, m, w[..k], h.from);
    }
  }

  /** Extending a walk to `h.from` of cost `eu.metric` by `h`. */
  lemma HasWalkThrough(p: SpfParams, h: Hop, eu: SpfEntry)
    requires Usable(p, h) && HasWalk(p, h.from, eu.metric)
    ensures HasWalk(p, HopTo(h), eu.metric + HopCost(p, h))
  {
    var w :| IsWalk(p, w, h.from) && Cost(p, w) == eu.metric;
    WalkAppend(p, w, h.from, h);
  }

  /** Extending a walk through next hop `n` by `h` keeps `n` first. */
  lemma ReachedViaThrough(p: SpfParams, h: Hop, n: string, d: nat)
    requires Usable(p, h) && ReachedVia(p, h.from, n, d)
    ensures ReachedVia(p, HopTo(h), n, d + HopCost(p, h))
  {
    var wn :| IsWalk(p, wn, h.from) && Cost(p, wn) == d && |wn| > 0 && HopTo(wn[0]) == n;
    WalkAppend(p, wn, h.from, h);
  }

  /** A neighbour of the source is reached through itself. */
  lemma ReachedViaNeighbour(p: SpfParams, h: Hop)
    requires Usable(p, h) && h.from == p.src
    ensures ReachedVia(p, HopTo(h), HopTo(h), HopCost(p, h))
  {
    WalkAppend(p, [], h.from, h);
    assert IsWalk(p, [h], HopTo(h)) && Cost(p, [h]) == HopCost(p, h);
  }

  /** The entry a relaxation over hop `h` writes: distance `d` through `h`,
      the next hops `keep` already reaching the neighbour at that distance
      plus those of `h.from`, or the neighbour itself when `h.from` is the
      source. */
  lemma RelaxedEntryOk(
    p: SpfParams, h: Hop, eu: SpfEntry, d: nat, keep: set<string>, hops: set<string>)
    requires Usable(p, h) && EntryOk(p, h.from, eu) && HopTo(h) != p.src
    requires d == eu.metric + HopCost(p, h)
    requires forall n :: n in keep ==> ReachedVia(p, HopTo(h), n, d)
    requires hops == if keep + eu.nextHops == {} then {HopTo(h)} else keep + eu.nextHops
    ensures EntryOk(p, HopTo(h), SpfEntry(d, hops))
  {
    HasWalkThrough(p, h, eu);
    forall n | n in eu.nextHops ensures ReachedVia(p, HopTo(h), n, d) {
      ReachedViaThrough(p, h, n, eu.metric);
    }
    if keep + eu.nextHops == {} {
      // `h.from` has no next hops, so it is the source
      ReachedViaNeighbour(p, h);
    }
  }

  /** The queue after relaxing hop `h` to `other` at distance `d` keeps
      the invariants of the run. */
  lemma RelaxedQueueOk(
    p: SpfParams, q0: SpfResult, r: SpfResult, h: Hop, other: string, d: nat,
    keep: set<string>, joined: set<string>, hops: set<string>)
    requires Usable(p, h) && h.from in r && other == HopTo(h) && other !in r && p.src in r
    requires EntriesOk(p, q0) && EntriesOk(p, r)
    requires d == r[h.from].metric + HopCost(p, h)
    requires other in q0 ==> d <= q0[other].metric
    requires keep != {} ==> other in q0 && keep == q0[other].nextHops && q0[other].metric == d
    requires joined == keep + r[h.from].nextHops
    requires hops == if joined == {} then {other} else joined
    ensures EntriesOk(p, q0[other := SpfEntry(d, hops)])
    ensures NoWorse(q0, q0[other := SpfEntry(d, hops)])
  {
    var eu := r[h.from];
    assert EntryOk(p, h.from, eu);
    if keep != {} {
      assert EntryOk(p, other, q0[other]);
    }
    RelaxedEntryOk(p, h, eu, d, keep, hops);
    EntriesOkUpdate(p, q0, other, SpfEntry(d, hops));
    NoWorseUpdate(q0, other, SpfEntry(d, hops));
  }

  /** The queue after offering `other` distance `d` through a node with
      next hops `via`: a new or strictly improved entry takes `via`, an
      equal-cost entry adds `via` to its next hops, and a cheaper entry is
      kept. An entry left without next hops, as one reached from the
      source (whose next hops are empty) is, becomes its own next hop. */
  ghost function RelaxedQueue(q0: SpfResult, other: string, d: nat, via: set<string>): SpfResult
  {
    if other !in q0 || q0[other].metric > d then
      q0[other := SpfEntry(d, if via == {} then {other} else via)]
    else if q0[other].metric == d then
      q0[other := SpfEntry(d, if q0[other].nextHops + via == {} then {other} else q0[other].nextHops + via)]
    else if q0[other].nextHops == {} then
      q0[other := q0[other].(nextHops := {other})]
    else q0
  }

  /** The queue updates of one relaxation: `other` is queued at distance
      `d` if it was not queued, then `RelaxedQueue` decides its entry. */
  method OfferDistance(q: DijkstraQ, other: string, d: nat, via: set<string>)
    requires q.Valid()
    modifies q
    ensures q.Valid()
    ensures q.nodes == RelaxedQueue(old(q.nodes), other, d, via)
  {
    ghost var q0 := q.nodes;
    var otherNode := q.Get(other);
    if otherNode.None? {
      q.InsertNode(other, d);
      otherNode := q.Get(other);
    }
    var e := otherNode.value;
    ghost var q1 := q.nodes;
    assert other in q1 && e == q1[other];
    assert q1 == q0 || (other !in q0 && q1 == q0[other := SpfEntry(d, {})]);
    var hops := e.nextHops;
    if e.metric >= d {
      if e.metric > d {
        hops := {};
        var _ := q.DecreaseKey(other, d);
        UpdateTwice(q1, other, e, e.(metric := d));
      } else {
        SameUpdate(q1, other);
      }
      hops := hops + via;
    } else {
      SameUpdate(q1, other);
    }
    ghost var metric := if e.metric > d then d else e.metric;
    assert q.nodes == q1[other := SpfEntry(metric, e.nextHops)];
    if hops == {} {
      // this node is directly connected to the source
      hops := {other};
    }
    q.SetNextHops(other, hops);
    ghost var final := SpfEntry(metric, hops);
    UpdateTwice(q1, other, SpfEntry(metric, e.nextHops), final);
    assert q.nodes == q1[other := final];
    if other !in q0 {
      UpdateTwice(q0, other, SpfEntry(d, {}), final);
      assert final == SpfEntry(d, if via == {} then {other} else via);
    } else if e.metric > d {
      assert final == SpfEntry(d, if via == {} then {other} else via);
    } else if e.metric == d {
      assert final == SpfEntry(d, if q0[other].nextHops + via == {} then {other} else q0[other].nextHops + via);
    } else if e.nextHops == {} {
      assert final == q0[other].(nextHops := {other});
    } else {
      assert final == q0[other];
      SameUpdate(q0, other);
    }
  }

  /** Relaxes the one link `l` of the just-recorded node `u`: the body of
      the inner loop of runSpf. */
  method RelaxLink(p: SpfParams, q: DijkstraQ, r: SpfResult, u: string, l: Link, ghost all: set<string>)
    requires q.Valid() && r.Keys !! q.nodes.Keys && q.nodes.Keys <= all
    requires Endpoints(p.ls.links) <= all
    requires u in r && Transit(p, u)
    requires l in p.ls.links && Touches(l, u) && p.src in r
    requires EntriesOk(p, q.nodes) && EntriesOk(p, r)
    modifies q
    ensures q.Valid() && q.nodes.Keys <= all && r.Keys !! q.nodes.Keys
    ensures EntriesOk(p, q.nodes)
    ensures NoWorse(old(q.nodes), q.nodes)
    ensures Usable(p, Hop(u, l)) && OtherNode(l, u) !in r ==>
              OtherNode(l, u) in q.nodes
              && q.nodes[OtherNode(l, u)].metric <= r[u].metric + HopCost(p, Hop(u, l))
    ensures !(Usable(p, Hop(u, l)) && OtherNode(l, u) !in r) ==> q.nodes == old(q.nodes)
    ensures Usable(p, Hop(u, l)) && OtherNode(l, u) !in r ==>
              q.nodes == RelaxedQueue(old(q.nodes), OtherNode(l, u), r[u].metric + HopCost(p, Hop(u, l)), r[u].nextHops)
  {
    var other := OtherNode(l, u);
    if !l.up || other in r || l in p.linksToIgnore {
      return;
    }
    ghost var h := Hop(u, l);
    ghost var q0 := q.nodes;
    assert Usable(p, h);
    assert other in Endpoints(p.ls.links);
    var metric := if p.useLinkMetric then MetricFrom(l, u) else 1;
    assert metric == HopCost(p, h);
    var eu := r[u];
    var distanceThruNode := eu.metric + metric;
    OfferDistance(q, other, distanceThruNode, eu.nextHops);
    assert q.nodes == RelaxedQueue(q0, OtherNode(l, u), r[u].metric + HopCost(p, Hop(u, l)), r[u].nextHops);
    if other in q0 && q0[other].metric < distanceThruNode {
      // a queued node other than the source already has next hops
      assert EntryOk(p, other, q0[other]);
      assert q.nodes == q0;
    } else {
      ghost var keep := if other in q0 && q0[other].metric == distanceThruNode then q0[other].nextHops else {};
      ghost var joined := keep + eu.nextHops;
      ghost var hops := if joined == {} then {other} else joined;
      if other !in q0 || q0[other].metric > distanceThruNode {
        assert joined == eu.nextHops;
      }
      assert q.nodes == q0[other := SpfEntry(distanceThruNode, hops)];
      RelaxedQueueOk(p, q0, r, h, other, distanceThruNode, keep, joined, hops);
    }
  }

  lemma SameUpdate(m: SpfResult, k: string)
    requires k in m
    ensures m[k := m[k]] == m
  {
  }

  lemma UpdateTwice(m: SpfResult, k: string, a: SpfEntry, b: SpfEntry)
    ensures m[k := a][k := b] == m[k := b]
  {
  }

  lemma NoWorseUpdate(m: SpfResult, k: string, e: SpfEntry)
    requires k in m ==> e.metric <= m[k].metric
    ensures NoWorse(m, m[k := e])
  {
  }

  lemma TakeOneMore(links: seq<Link>, i: nat)
    requires i < |links|
    ensures links[..i + 1] == links[..i] + [links[i]]
  {
  }

  lemma EntriesOkUpdate(p: SpfParams, m: SpfResult, k: string, e: SpfEntry)
    requires EntriesOk(p, m) && EntryOk(p, k, e)
    ensures EntriesOk(p, m[k := e])
  {
  }

  /** Relaxes every link of the just-recorded node `u`: the inner loop of
      runSpf. */
  method RelaxNeighbours(p: SpfParams, q: DijkstraQ, r: SpfResult, u: string, ghost all: set<string>)
    requires q.Valid() && r.Keys !! q.nodes.Keys && q.nodes.Keys <= all
    requires Endpoints(p.ls.links) <= all
    requires u in r && Transit(p, u) && p.src in r
    requires EntriesOk(p, q.nodes) && EntriesOk(p, r)
    requires FrontierExcept(p, r, q.nodes, Some(u))
    modifies q
    ensures q.Valid() && r.Keys !! q.nodes.Keys && q.nodes.Keys <= all
    ensures EntriesOk(p, q.nodes)
    ensures FrontierExcept(p, r, q.nodes, None)
  {
    var links := LinksFromNode(p.ls.links, u);
    for i := 0 to |links|
      invariant q.Valid() && r.Keys !! q.nodes.Keys && q.nodes.Keys <= all
      invariant EntriesOk(p, q.nodes)
      invariant FrontierExcept(p, r, q.nodes, Some(u))
      invariant FrontierOf(p, r, q.nodes, u, links[..i])
    {
      ghost var q0 := q.nodes;
      RelaxLink(p, q, r, u, links[i], all);
      TakeOneMore(links, i);
    }
    assert links[..|links|] == links;
  }

  lemma NoTransitFrontier(p: SpfParams, r: SpfResult, q: SpfResult, u: string)
    requires FrontierExcept(p, r, q, Some(u)) && !Transit(p, u)
    ensures FrontierExcept(p, r, q, None)
  {
  }

  /** The least queued node is settled at a distance no walk beats. */
  lemma SettledLowerBound(p: SpfParams, r: SpfResult, q0: SpfResult, name: string)
    requires r != map[] ==> p.src in r
    requires r == map[] ==> q0 == map[p.src := SpfEntry(0, {})]
    requires r.Keys !! q0.Keys && name in q0
    requires forall k :: k in q0 ==> q0[name].metric <= q0[k].metric
    requires LowerBound(p, r) && FrontierExcept(p, r, q0, None)
    ensures LowerBound(p, r[name := q0[name]])
  {
    forall w | IsWalk(p, w, name) ensures Cost(p, w) >= q0[name].metric {
      if r != map[] {
        LeavingWalkCost(p, r, q0, name, w, name);
      }
    }
  }

  /** Recording the least queued node keeps the run's invariants. */
  lemma RecordLeast(p: SpfParams, r: SpfResult, q0: SpfResult, name: string)
    requires r != map[] ==> p.src in r
    requires r == map[] ==> q0 == map[p.src := SpfEntry(0, {})]
    requires r.Keys !! q0.Keys && name in q0
    requires forall k :: k in q0 ==> q0[name].metric <= q0[k].metric
    requires EntriesOk(p, q0) && EntriesOk(p, r)
    requires LowerBound(p, r) && FrontierExcept(p, r, q0, None)
    ensures EntriesOk(p, q0 - {name}) && EntriesOk(p, r[name := q0[name]])
    ensures LowerBound(p, r[name := q0[name]])
    ensures FrontierExcept(p, r[name := q0[name]], q0 - {name}, Some(name))
  {
    assert EntryOk(p, name, q0[name]);
    SettledLowerBound(p, r, q0, name);
  }

  /** Settling one more node of `all` shrinks what is left to settle. */
  lemma SettleShrinks(all: set<string>, r: SpfResult, name: string, e: SpfEntry)
    requires name in all && name !in r
    ensures |all - r[name := e].Keys| < |all - r.Keys|
  {
    assert all - r[name := e].Keys == (all - r.Keys) - {name};
  }

  /** Once nothing is queued, the recorded nodes are exactly the reachable
      ones, at their shortest distances. */
  lemma ResultIsShortest(p: SpfParams, r: SpfResult)
    requires p.src in r
    requires EntriesOk(p, r) && LowerBound(p, r) && FrontierExcept(p, r, map[], None)
    ensures forall v :: v in r <==> Reachable(p, v)
    ensures forall v :: v in r ==> IsShortest(p, v, r[v].metric)
    ensures forall v, n :: v in r && n in r[v].nextHops ==> ReachedVia(p, v, n, r[v].metric)
  {
    forall v | Reachable(p, v) ensures v in r {
      var w :| IsWalk(p, w, v);
      ClosedSetHoldsWalks(p, r.Keys, w, v);
    }
    forall v | v in r ensures Reachable(p, v) && IsShortest(p, v, r[v].metric) {
      assert EntryOk(p, v, r[v]);
    }
    forall v, n | v in r && n in r[v].nextHops ensures ReachedVia(p, v, n, r[v].metric) {
      assert EntryOk(p, v, r[v]);
    }
  }

  /** The invariant of the outer loop of runSpf: `r` holds the settled
      nodes, `qn` the queued ones. */
  ghost predicate RunInv(p: SpfParams, r: SpfResult, qn: SpfResult, all: set<string>)
  {
    && r.Keys !! qn.Keys && r.Keys + qn.Keys <= all
    && Endpoints(p.ls.links) <= all
    && (r == map[] ==> qn == map[p.src := SpfEntry(0, {})])
    && (r != map[] ==> p.src in r && r[p.src] == SpfEntry(0, {}))
    && EntriesOk(p, qn) && EntriesOk(p, r)
    && LowerBound(p, r)
    && FrontierExcept(p, r, qn, None)
  }

  /** Settles the least queued node and relaxes its links: the body of the
      outer loop of runSpf. `done` when nothing was queued. */
  method SettleNext(p: SpfParams, q: DijkstraQ, result: SpfResult, ghost all: set<string>)
    returns (result': SpfResult, done: bool)
    requires q.Valid() && RunInv(p, result, q.nodes, all)
    modifies q
    ensures q.Valid()
    ensures RunInv(p, result', q.nodes, all)
    ensures done ==> q.nodes == map[]
    ensures !done ==> |all - result'.Keys| < |all - result.Keys|
  {
    ghost var q0 := q.nodes;
    var node := q.ExtractMin();
    if node.None? {
      return result, true;
    }
    var (name, e) := node.value;
    // we've found this node's shortest paths; it is recorded only once
    assert name !in result;
    RecordLeast(p, result, q0, name);
    result' := result[name := e];
    done := false;
    SettleShrinks(all, result, name, e);
    if !(IsOverloaded(p.ls, name) && name != p.src) {
      RelaxNeighbours(p, q, result', name, all);
    } else {
      // an overloaded node carries no transit traffic: its links are not followed
      NoTransitFrontier(p, result', q.nodes, name);
    }
  }

  /** The SPF run from `thisNodeName`. */
  method RunSpf(ls: LinkState, thisNodeName: string, useLinkMetric: bool, linksToIgnore: set<Link>)
    returns (result: SpfResult)
    ensures thisNodeName in result && result[thisNodeName] == SpfEntry(0, {})
    ensures forall v :: v in result <==>
              Reachable(SpfParams(ls, thisNodeName, useLinkMetric, linksToIgnore), v)
    ensures forall v :: v in result ==>
              IsShortest(SpfParams(ls, thisNodeName, useLinkMetric, linksToIgnore), v, result[v].metric)
    ensures forall v, n :: v in result && n in result[v].nextHops ==>
              ReachedVia(SpfParams(ls, thisNodeName, useLinkMetric, linksToIgnore), v, n, result[v].metric)
    ensures forall v :: v in result && v != thisNodeName ==> result[v].nextHops != {}
  {
    var p := SpfParams(ls, thisNodeName, useLinkMetric, linksToIgnore);
    ghost var all := {thisNodeName} + Endpoints(ls.links);
    result := map[];
    var q := new DijkstraQ();
    q.InsertNode(thisNodeName, 0);
    assert IsWalk(p, [], thisNodeName) && Cost(p, []) == 0;
    assert EntryOk(p, thisNodeName, SpfEntry(0, {}));
    var done := false;
    while !done
      invariant q.Valid()
      invariant RunInv(p, result, q.nodes, all)
      invariant done ==> q.nodes == map[]
      decreases !done, |all - result.Keys|
    {
      result, done := SettleNext(p, q, result, all);
    }
    ResultIsShortest(p, result);
    assert forall v :: v in result ==> EntryOk(p, v, result[v]);
  }
}
