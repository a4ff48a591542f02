/** The link-state graph that the SPF solver runs over, kept abstract: a finite
    sequence of links with two endpoints, an up flag and a metric per
    direction, and the set of overloaded (drained) nodes. On top of it: the
    hops an SPF run may follow, walks built from them, and their cost. */
module LinkGraph {
  import opened Types

  /** A link between `node1` (through `iface1`) and `node2` (through
      `iface2`); `metric1` is the metric seen from `node1`, `metric2` the one
      seen from `node2`. Two links are the same link when all fields agree. */
  datatype Link = Link(
    node1: string, iface1: string,
    node2: string, iface2: string,
    metric1: nat, metric2: nat,
    up: bool)

  datatype LinkState = LinkState(links: seq<Link>, overloaded: set<string>)

  /** One entry of an SPF result: the distance and the set of next-hop
      neighbours through which that distance is reached. */
  datatype SpfEntry = SpfEntry(metric: nat, nextHops: set<string>)

  type SpfResult = map<string, SpfEntry>

  predicate Touches(l: Link, n: string) { l.node1 == n || l.node2 == n }

  function OtherNode(l: Link, n: string): string
  {
    if l.node1 == n then l.node2 else l.node1
  }

  function MetricFrom(l: Link, n: string): nat
  {
    if l.node1 == n then l.metric1 else l.metric2
  }

  function IfaceFrom(l: Link, n: string): string
  {
    if l.node1 == n then l.iface1 else l.iface2
  }

  predicate IsOverloaded(ls: LinkState, n: string) { n in ls.overloaded }

  /** The links attached to `n`, in the order the link state holds them. */
  function LinksFromNode(links: seq<Link>, n: string): (r: seq<Link>)
    ensures forall l :: l in r <==> l in links && Touches(l, n)
  {
    if |links| == 0 then []
    else
      var rest := LinksFromNode(links[1..], n);
      assert forall l :: l in links <==> l == links[0] || l in links[1..];
      if Touches(links[0], n) then [links[0]] + rest else rest
  }

  /** Every node that is an endpoint of some link. */
  function Endpoints(links: seq<Link>): set<string>
  {
    (set l | l in links :: l.node1) + (set l | l in links :: l.node2)
  }

  /** The parameters of one SPF run. */
  datatype SpfParams = SpfParams(
    ls: LinkState,
    src: string,
    useLinkMetric: bool,
    linksToIgnore: set<Link>)

  /** Leaving node `from` over `link`. */
  datatype Hop = Hop(from: string, link: Link)

  function HopTo(h: Hop): string { OtherNode(h.link, h.from) }

  /** The cost of a hop: the link metric seen from its start, or 1 per hop
      when the run counts hops. */
  function HopCost(p: SpfParams, h: Hop): nat
  {
    if p.useLinkMetric then MetricFrom(h.link, h.from) else 1
  }

  /** Traffic may transit a node only if it is the source or not overloaded. */
  predicate Transit(p: SpfParams, n: string)
  {
    n == p.src || !IsOverloaded(p.ls, n)
  }

  /** A hop the SPF run may follow: an up, non-ignored link of the graph,
      attached to a node that may carry transit traffic. */
  predicate Usable(p: SpfParams, h: Hop)
  {
    && h.link in p.ls.links
    && Touches(h.link, h.from)
    && h.link.up
    && h.link !in p.linksToIgnore
    && Transit(p, h.from)
  }

  /** `w` is a walk of usable hops from the source of `p` to `t`, each hop
      leaving from where the previous one arrived. */
  predicate IsWalk(p: SpfParams, w: seq<Hop>, t: string)
    decreases |w|
  {
    if |w| == 0 then t == p.src
    else
      var h := w[|w| - 1];
      Usable(p, h) && HopTo(h) == t && IsWalk(p, w[..|w| - 1], h.from)
  }

  /** The cost of a walk: the sum of its hop costs. */
  function Cost(p: SpfParams, w: seq<Hop>): nat
  {
    if |w| == 0 then 0 else Cost(p, w[..|w| - 1]) + HopCost(p, w[|w| - 1])
  }

  ghost predicate Reachable(p: SpfParams, t: string)
  {
    exists w :: IsWalk(p, w, t)
  }

  /** `d` is the least cost of a walk from the source to `t`. */
  ghost predicate IsShortest(p: SpfParams, t: string, d: nat)
  {
    && (exists w :: IsWalk(p, w, t) && Cost(p, w) == d)
    && (forall w :: IsWalk(p, w, t) ==> Cost(p, w) >= d)
  }

  lemma WalkAppend(p: SpfParams, w: seq<Hop>, v: string, h: Hop)
    requires IsWalk(p, w, v) && Usable(p, h) && h.from == v
    ensures IsWalk(p, w + [h], HopTo(h))
    ensures Cost(p, w + [h]) == Cost(p, w) + HopCost(p, h)
    ensures (w + [h])[0] == if |w| == 0 then h else w[0]
  {
    assert (w + [h])[..|w|] == w;
  }

  /** A set of nodes that holds the source and that no usable hop leaves
      holds every node a walk reaches. */
  lemma {:induction false} ClosedSetHoldsWalks(p: SpfParams, s: set<string>, w: seq<Hop>, t: string)
    requires p.src in s
    requires forall h :: Usable(p, h) && h.from in s ==> HopTo(h) in s
    requires IsWalk(p, w, t)
    ensures t in s
  {
    if |w| > 0 {
      ClosedSetHoldsWalks(p, s, w[..|w| - 1], w[|w| - 1].from);
    }
  }

  /** A node has one shortest distance. */
  lemma ShortestUnique(p: SpfParams, t: string, d1: nat, d2: nat)
    requires IsShortest(p, t, d1) && IsShortest(p, t, d2)
    ensures d1 == d2
  {
    var w1 :| IsWalk(p, w1, t) && Cost(p, w1) == d1;
    var w2 :| IsWalk(p, w2, t) && Cost(p, w2) == d2;
  }
}
