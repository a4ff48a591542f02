/** The per-prefix rules of `buildRouteDb`: which prefixes get a route and
    by which forwarding algorithm, which announcing nodes a route leads to,
    the minimum next-hop count a prefix demands, and which node owns each
    node label when labels collide. */
module RouteSelection {
  import opened Types
  import opened LinkGraph

  /** The advertisements of one prefix, by advertising node. */
  type NodePrefixes = map<string, PrefixEntry>

  /** The nodes a route should lead to; `success` is false when there is
      no usable set. The BGP best-path fields are not modelled. */
  datatype BestPathCalResult = BestPathCalResult(success: bool, nodes: set<string>)

  const NoBestPath := BestPathCalResult(false, {})

  // ---------------------------------------------------------------------
  // maybeFilterDrainedNodes
  // ---------------------------------------------------------------------

  /** The nodes of `nodes` that are not overloaded. */
  function Undrained(ls: LinkState, nodes: set<string>): set<string>
  {
    set n | n in nodes && !IsOverloaded(ls, n)
  }

  /** Drops the overloaded nodes from `result`, unless none would remain;
      then `result` is kept as it is. */
  method MaybeFilterDrainedNodes(ls: LinkState, result: BestPathCalResult) returns (r: BestPathCalResult)
    ensures r.success == result.success
    ensures r.nodes <= result.nodes
    ensures Undrained(ls, result.nodes) != {} ==> r.nodes == Undrained(ls, result.nodes)
    ensures Undrained(ls, result.nodes) == {} ==> r == result
  {
    var filtered := result.nodes;
    var pending := result.nodes;
    while pending != {}
      invariant pending <= result.nodes
      invariant filtered == Undrained(ls, result.nodes - pending) + pending
      decreases pending
    {
      var n :| n in pending;
      if IsOverloaded(ls, n) {
        filtered := filtered - {n};
      }
      pending := pending - {n};
    }
    assert result.nodes - {} == result.nodes;
    if filtered == {} {
      return result;
    }
    return result.(nodes := filtered);
  }

  // ---------------------------------------------------------------------
  // getBestAnnouncingNodes
  // ---------------------------------------------------------------------

  /** Some advertiser asks for a forwarding type other than SR_MPLS, which
      KSP2_ED_ECMP cannot use. */
  predicate HasNonMpls(nodePrefixes: NodePrefixes)
  {
    exists n :: n in nodePrefixes && nodePrefixes[n].forwardingType != SrMpls
  }

  /** Whether some advertiser asks for a forwarding type KSP2_ED_ECMP
      cannot use. */
  method FindNonMpls(nodePrefixes: NodePrefixes) returns (found: bool)
    ensures found <==> HasNonMpls(nodePrefixes)
  {
    var pending := nodePrefixes.Keys;
    while pending != {}
      invariant pending <= nodePrefixes.Keys
      invariant forall n :: n in nodePrefixes.Keys - pending ==> nodePrefixes[n].forwardingType == SrMpls
      decreases pending
    {
      var n :| n in pending;
      if nodePrefixes[n].forwardingType != SrMpls {
        return true;
      }
      pending := pending - {n};
    }
    return false;
  }

  /** The announcing nodes of a non-BGP prefix: all advertisers, or none
      when this node is one of them. */
  method AllAdvertisers(myNodeName: string, nodePrefixes: NodePrefixes) returns (r: BestPathCalResult)
    ensures myNodeName in nodePrefixes ==> r == NoBestPath
    ensures myNodeName !in nodePrefixes ==> r == BestPathCalResult(true, nodePrefixes.Keys)
  {
    var nodes: set<string> := {};
    var pending := nodePrefixes.Keys;
    while pending != {}
      invariant pending <= nodePrefixes.Keys
      invariant nodes == nodePrefixes.Keys - pending
      invariant myNodeName !in nodes
      decreases pending
    {
      var n :| n in pending;
      if n == myNodeName {
        return NoBestPath;
      }
      nodes := nodes + {n};
      pending := pending - {n};
    }
    return BestPathCalResult(true, nodes);
  }

  /** The nodes a route to a prefix leads to. With KSP2_ED_ECMP every
      advertiser must use SR_MPLS forwarding. A non-BGP prefix leads to all
      its advertisers, unless this node advertises it too. A BGP prefix
      leads to the nodes of the BGP best-path calculation `bgpBest`, unless
      it failed or chose this node. The overloaded nodes are then dropped
      if any node remains. */
  method GetBestAnnouncingNodes(
    ls: LinkState, myNodeName: string, nodePrefixes: NodePrefixes,
    hasBgp: bool, useKsp2EdAlgo: bool, bgpBest: BestPathCalResult)
    returns (r: BestPathCalResult)
    ensures useKsp2EdAlgo && HasNonMpls(nodePrefixes) ==> r == NoBestPath
    ensures !(useKsp2EdAlgo && HasNonMpls(nodePrefixes)) && !hasBgp ==>
              if myNodeName in nodePrefixes then r == NoBestPath
              else r.success && r.nodes <= nodePrefixes.Keys &&
                   r.nodes == (if Undrained(ls, nodePrefixes.Keys) == {} then nodePrefixes.Keys
                               else Undrained(ls, nodePrefixes.Keys))
    ensures !(useKsp2EdAlgo && HasNonMpls(nodePrefixes)) && hasBgp ==>
              if bgpBest.success && myNodeName !in bgpBest.nodes then
                r.success && r.nodes <= bgpBest.nodes &&
                r.nodes == (if Undrained(ls, bgpBest.nodes) == {} then bgpBest.nodes
                            else Undrained(ls, bgpBest.nodes))
              else r == NoBestPath
    ensures r.success ==> myNodeName !in r.nodes
  {
    if useKsp2EdAlgo {
      var incompatible := FindNonMpls(nodePrefixes);
      if incompatible {
        return NoBestPath;
      }
    }
    if !hasBgp {
      var all := AllAdvertisers(myNodeName, nodePrefixes);
      if !all.success {
        return all;
      }
      r := MaybeFilterDrainedNodes(ls, all);
      return;
    }
    if bgpBest.success && myNodeName !in bgpBest.nodes {
      r := MaybeFilterDrainedNodes(ls, bgpBest);
      return;
    }
    return NoBestPath;
  }

  // ---------------------------------------------------------------------
  // getMinNextHopThreshold
  // ---------------------------------------------------------------------

  /** Node `n` is a best node that sets a minimum next-hop count. */
  predicate SetsMinNexthop(nodes: set<string>, nodePrefixes: NodePrefixes, n: string)
  {
    n in nodes && n in nodePrefixes && nodePrefixes[n].minNexthop.Some?
  }

  /** The largest minimum next-hop count that a best node sets, or none
      when none sets one. */
  method GetMinNextHopThreshold(nodes: set<string>, nodePrefixes: NodePrefixes) returns (r: Option<int>)
    ensures r.None? <==> forall n :: !SetsMinNexthop(nodes, nodePrefixes, n)
    ensures r.Some? ==> forall n :: SetsMinNexthop(nodes, nodePrefixes, n) ==>
              nodePrefixes[n].minNexthop.value <= r.value
    ensures r.Some? ==> exists n :: SetsMinNexthop(nodes, nodePrefixes, n) && nodePrefixes[n].minNexthop.value == r.value
  {
    r := None;
    var pending := nodes;
    while pending != {}
      invariant pending <= nodes
      invariant r.None? <==> forall n :: n !in pending ==> !SetsMinNexthop(nodes, nodePrefixes, n)
      invariant r.Some? ==> forall n :: n !in pending && SetsMinNexthop(nodes, nodePrefixes, n) ==>
                  nodePrefixes[n].minNexthop.value <= r.value
      invariant r.Some? ==> exists n :: SetsMinNexthop(nodes, nodePrefixes, n) && nodePrefixes[n].minNexthop.value == r.value
      decreases pending
    {
      var n :| n in pending;
      if n in nodePrefixes {
        var m := nodePrefixes[n].minNexthop;
        r := if m.Some? && (r.None? || m.value > r.value) then m else r;
      }
      pending := pending - {n};
    }
  }

  // ---------------------------------------------------------------------
  // buildRouteDb: which prefixes get a route, and how
  // ---------------------------------------------------------------------

  /** What `buildRouteDb` does with one prefix. */
  datatype RouteKind =
    | SkipMixedBgp       // advertised both as BGP and as another type
    | SkipMissingMv      // a BGP advertisement lacks its metric vector
    | SkipSelf           // advertised (not as BGP) by this node
    | SkipV4             // an IPv4 prefix while IPv4 is disabled
    | SpEcmpRoute(bgp: bool)
    | Ksp2Route(bgp: bool)

  predicate IsBgp(e: PrefixEntry) { e.prefixType == Bgp }

  /** What the advertisers of a prefix say, as the flags the C++ loop
      accumulates. */
  datatype AdvertiserFlags = AdvertiserFlags(
    hasBgp: bool, hasNonBgp: bool, missingMv: bool, hasSpEcmp: bool, hasKsp2EdEcmp: bool)

  /** The flags one advertisement sets on its own. */
  function EntryFlags(e: PrefixEntry): AdvertiserFlags
  {
    AdvertiserFlags(
      IsBgp(e), !IsBgp(e), IsBgp(e) && !e.hasMetricVector,
      e.forwardingAlgorithm == SpEcmp, e.forwardingAlgorithm == Ksp2EdEcmp)
  }

  function Or(a: AdvertiserFlags, b: AdvertiserFlags): AdvertiserFlags
  {
    AdvertiserFlags(
      a.hasBgp || b.hasBgp, a.hasNonBgp || b.hasNonBgp, a.missingMv || b.missingMv,
      a.hasSpEcmp || b.hasSpEcmp, a.hasKsp2EdEcmp || b.hasKsp2EdEcmp)
  }

  /** The flags that describe `nodePrefixes`: each is set when some
      advertisement sets it. */
  function FlagsOf(nodePrefixes: NodePrefixes): AdvertiserFlags
  {
    AdvertiserFlags(
      exists n :: n in nodePrefixes && EntryFlags(nodePrefixes[n]).hasBgp,
      exists n :: n in nodePrefixes && EntryFlags(nodePrefixes[n]).hasNonBgp,
      exists n :: n in nodePrefixes && EntryFlags(nodePrefixes[n]).missingMv,
      exists n :: n in nodePrefixes && EntryFlags(nodePrefixes[n]).hasSpEcmp,
      exists n :: n in nodePrefixes && EntryFlags(nodePrefixes[n]).hasKsp2EdEcmp)
  }

  /** One more advertisement adds its own flags. */
  lemma FlagsOfAdd(m: NodePrefixes, n: string, e: PrefixEntry)
    requires n !in m
    ensures FlagsOf(m[n := e]) == Or(FlagsOf(m), EntryFlags(e))
  {
    var m' := m[n := e];
    assert m'[n] == e;
    assert forall k :: k in m ==> k in m' && m'[k] == m[k];
  }

  /** The flag loop at the head of `buildRouteDb`'s per-prefix body. */
  method ScanAdvertisers(nodePrefixes: NodePrefixes) returns (flags: AdvertiserFlags)
    ensures flags == FlagsOf(nodePrefixes)
  {
    flags := AdvertiserFlags(false, false, false, false, false);
    var pending := nodePrefixes.Keys;
    while pending != {}
      invariant pending <= nodePrefixes.Keys
      invariant flags == FlagsOf(nodePrefixes - pending)
      decreases pending
    {
      var n :| n in pending;
      var e := nodePrefixes[n];
      var isBgp := e.prefixType == Bgp;
      ghost var before := nodePrefixes - pending;
      flags := AdvertiserFlags(
        flags.hasBgp || isBgp,
        flags.hasNonBgp || !isBgp,
        flags.missingMv || (isBgp && !e.hasMetricVector),
        flags.hasSpEcmp || e.forwardingAlgorithm == SpEcmp,
        flags.hasKsp2EdEcmp || e.forwardingAlgorithm == Ksp2EdEcmp);
      pending := pending - {n};
      assert nodePrefixes - pending == before[n := e];
      FlagsOfAdd(before, n, e);
    }
    assert nodePrefixes - {} == nodePrefixes;
  }

  /** The decision on one prefix. */
  function KindOf(myNodeName: string, prefix: IpPrefix, nodePrefixes: NodePrefixes, enableV4: bool): RouteKind
  {
    var f := FlagsOf(nodePrefixes);
    if f.hasBgp && f.hasNonBgp then SkipMixedBgp
    else if f.hasBgp && f.missingMv then SkipMissingMv
    else if myNodeName in nodePrefixes && !f.hasBgp then SkipSelf
    else if IsV4(prefix) && !enableV4 then SkipV4
    else if f.hasKsp2EdEcmp && !f.hasSpEcmp then Ksp2Route(f.hasBgp)
    else SpEcmpRoute(f.hasBgp)
  }

  /** How `buildRouteDb` treats `prefix`, advertised as `nodePrefixes`. */
  method ClassifyPrefix(myNodeName: string, prefix: IpPrefix, nodePrefixes: NodePrefixes, enableV4: bool)
    returns (kind: RouteKind)
    ensures kind == KindOf(myNodeName, prefix, nodePrefixes, enableV4)
  {
    var flags := ScanAdvertisers(nodePrefixes);
    if flags.hasBgp {
      if flags.hasNonBgp {
        return SkipMixedBgp;
      }
      if flags.missingMv {
        return SkipMissingMv;
      }
    }
    if myNodeName in nodePrefixes && !flags.hasBgp {
      return SkipSelf;
    }
    if IsV4(prefix) && !enableV4 {
      return SkipV4;
    }
    if flags.hasKsp2EdEcmp && !flags.hasSpEcmp {
      return Ksp2Route(flags.hasBgp);
    }
    return SpEcmpRoute(flags.hasBgp);
  }

  /** A prefix gets a route exactly when its advertisers are all BGP with
      metric vectors or all non-BGP, this node is not a non-BGP
      advertiser, and it is not IPv4 while IPv4 is disabled. */
  lemma RoutedIff(myNodeName: string, prefix: IpPrefix, nodePrefixes: NodePrefixes, enableV4: bool)
    ensures var k := KindOf(myNodeName, prefix, nodePrefixes, enableV4);
            (k.SpEcmpRoute? || k.Ksp2Route?) <==>
              && ((forall n :: n in nodePrefixes ==> IsBgp(nodePrefixes[n]) && nodePrefixes[n].hasMetricVector) ||
                  (forall n :: n in nodePrefixes ==> !IsBgp(nodePrefixes[n])))
              && (myNodeName in nodePrefixes ==> IsBgp(nodePrefixes[myNodeName]))
              && !(IsV4(prefix) && !enableV4)
  {
    var k := KindOf(myNodeName, prefix, nodePrefixes, enableV4);
    var f := FlagsOf(nodePrefixes);
    if myNodeName in nodePrefixes {
      assert IsBgp(nodePrefixes[myNodeName]) ==> f.hasBgp;
      assert !IsBgp(nodePrefixes[myNodeName]) ==> f.hasNonBgp;
    }
  }

  /** A routed prefix takes KSP2_ED_ECMP exactly when some advertiser asks
      for it and none asks for SP_ECMP; the route is a BGP route exactly
      when some advertiser is BGP. */
  lemma AlgorithmChoice(myNodeName: string, prefix: IpPrefix, nodePrefixes: NodePrefixes, enableV4: bool)
    ensures var k := KindOf(myNodeName, prefix, nodePrefixes, enableV4);
            && ((k.SpEcmpRoute? || k.Ksp2Route?) ==>
                  (k.Ksp2Route? <==>
                     && (exists n :: n in nodePrefixes && nodePrefixes[n].forwardingAlgorithm == Ksp2EdEcmp)
                     && (forall n :: n in nodePrefixes ==> nodePrefixes[n].forwardingAlgorithm != SpEcmp)))
            && ((k.SpEcmpRoute? || k.Ksp2Route?) ==>
                  (k.bgp <==> exists n :: n in nodePrefixes && IsBgp(nodePrefixes[n])))
  {
    var k := KindOf(myNodeName, prefix, nodePrefixes, enableV4);
    if k.Ksp2Route? {
      forall n | n in nodePrefixes
        ensures nodePrefixes[n].forwardingAlgorithm != SpEcmp
      {
        assert !(nodePrefixes[n].forwardingAlgorithm == SpEcmp);
      }
    }
  }

  // ---------------------------------------------------------------------
  // buildRouteDb: node-label collisions
  // ---------------------------------------------------------------------

  /** Node `n` may own its node label: the label is set (not 0), valid,
      and the node is this node (a POP_AND_LOOKUP route) or one this node
      has next hops to (`routable`). */
  predicate LabelEligible(
    nodeLabels: map<string, Label>, myNodeName: string, routable: set<string>,
    isLabelValid: Label -> bool, n: string)
  {
    n in nodeLabels && nodeLabels[n] != 0 && isLabelValid(nodeLabels[n]) &&
    (n == myNodeName || n in routable)
  }

  /** `owners` maps each label of an eligible node among `seen` to the
      eligible node with that label whose name is least. */
  ghost predicate OwnersOf(
    nodeLabels: map<string, Label>, myNodeName: string, routable: set<string>,
    isLabelValid: Label -> bool, seen: set<string>, owners: map<Label, string>)
  {
    && (forall lbl :: lbl in owners <==>
          exists n :: n in seen && LabelEligible(nodeLabels, myNodeName, routable, isLabelValid, n) &&
                      nodeLabels[n] == lbl)
    && (forall lbl :: lbl in owners ==>
          && owners[lbl] in seen
          && LabelEligible(nodeLabels, myNodeName, routable, isLabelValid, owners[lbl])
          && nodeLabels[owners[lbl]] == lbl)
    && (forall lbl, n ::
          (lbl in owners && n in seen && n != owners[lbl] &&
           LabelEligible(nodeLabels, myNodeName, routable, isLabelValid, n) && nodeLabels[n] == lbl) ==>
          LexLess(owners[lbl], n))
  }

  /** One step of the label loop keeps `OwnersOf`. */
  lemma OwnersStep(
    nodeLabels: map<string, Label>, myNodeName: string, routable: set<string>,
    isLabelValid: Label -> bool, seen: set<string>, owners: map<Label, string>, n: string)
    requires OwnersOf(nodeLabels, myNodeName, routable, isLabelValid, seen, owners)
    requires n in nodeLabels && n !in seen
    ensures var lbl := nodeLabels[n];
            var take := LabelEligible(nodeLabels, myNodeName, routable, isLabelValid, n) &&
                        (lbl in owners ==> !LexLess(owners[lbl], n));
            OwnersOf(nodeLabels, myNodeName, routable, isLabelValid, seen + {n},
                     if take then owners[lbl := n] else owners)
  {
    var lbl := nodeLabels[n];
    var take := LabelEligible(nodeLabels, myNodeName, routable, isLabelValid, n) &&
                (lbl in owners ==> !LexLess(owners[lbl], n));
    if take && lbl in owners {
      var prev := owners[lbl];
      LexLessTotal(prev, n);
      forall m | m in seen && m != n && LabelEligible(nodeLabels, myNodeName, routable, isLabelValid, m) &&
                 nodeLabels[m] == lbl
        ensures LexLess(n, m)
      {
        if m != prev {
          LexLessTransitive(n, prev, m);
        }
      }
    } else if !take && lbl in owners && LabelEligible(nodeLabels, myNodeName, routable, isLabelValid, n) {
      LexLessTotal(owners[lbl], n);
    }
  }

  /** The owner of every node label: among the nodes whose label is set
      and valid and that this node can route to (or is), the one with the
      least name. A label is left out when no such node has it. */
  method NodeLabelOwners(
    nodeLabels: map<string, Label>, myNodeName: string, routable: set<string>, isLabelValid: Label -> bool)
    returns (owners: map<Label, string>)
    ensures OwnersOf(nodeLabels, myNodeName, routable, isLabelValid, nodeLabels.Keys, owners)
  {
    owners := map[];
    var pending := nodeLabels.Keys;
    while pending != {}
      invariant pending <= nodeLabels.Keys
      invariant OwnersOf(nodeLabels, myNodeName, routable, isLabelValid, nodeLabels.Keys - pending, owners)
      decreases pending
    {
      var n :| n in pending;
      var topLabel := nodeLabels[n];
      OwnersStep(nodeLabels, myNodeName, routable, isLabelValid, nodeLabels.Keys - pending, owners, n);
      assert (nodeLabels.Keys - pending) + {n} == nodeLabels.Keys - (pending - {n});
      pending := pending - {n};
      if topLabel == 0 || !isLabelValid(topLabel) {
        continue;
      }
      if topLabel in owners && LexLess(owners[topLabel], n) {
        continue;
      }
      if n == myNodeName || n in routable {
        owners := owners[topLabel := n];
      }
    }
  }

  /** The eligible node with the least name among those with a label
      owns that label. */
  lemma OwnerUnique(
    nodeLabels: map<string, Label>, myNodeName: string, routable: set<string>,
    isLabelValid: Label -> bool, owners: map<Label, string>, lbl: Label, n: string)
    requires OwnersOf(nodeLabels, myNodeName, routable, isLabelValid, nodeLabels.Keys, owners)
    requires LabelEligible(nodeLabels, myNodeName, routable, isLabelValid, n) && nodeLabels[n] == lbl
    requires forall m ::
               (LabelEligible(nodeLabels, myNodeName, routable, isLabelValid, m) && nodeLabels[m] == lbl && m != n) ==>
               LexLess(n, m)
    ensures lbl in owners && owners[lbl] == n
  {
    var o := owners[lbl];
    if o != n {
      LexLessAsymmetric(n, o);
    }
  }
}
