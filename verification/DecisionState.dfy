/** The bookkeeping of the `Decision` module around the SPF solver: the
    prefix entries it keeps per node from per-prefix keys and from
    full-database keys, the changed flags that decide what to recompute,
    the static route updates it hands on, and the largest FIB programming
    time it has been told of. */
module DecisionState {
  import opened Types
  import opened StaticRoutes

  type PrefixMap = map<IpPrefix, PrefixEntry>

  /** Which recomputation `processPendingUpdates` runs. */
  datatype Recompute = AdjUpdates | PrefixUpdates | NoRecompute

  /** The entries of a full prefix database keyed by prefix; a later entry
      for the same prefix replaces an earlier one. */
  function FromEntries(entries: seq<PrefixEntry>): (m: PrefixMap)
  {
    if |entries| == 0 then map[]
    else
      var e := entries[|entries| - 1];
      FromEntries(entries[..|entries| - 1])[e.prefix := e]
  }

  /** The loop that refills a node's full-database entries. */
  method KeyByPrefix(entries: seq<PrefixEntry>) returns (m: PrefixMap)
    ensures m == FromEntries(entries)
  {
    m := map[];
    for i := 0 to |entries|
      invariant m == FromEntries(entries[..i])
    {
      assert entries[..i + 1][..i] == entries[..i];
      m := m[entries[i].prefix := entries[i]];
    }
    assert entries[..|entries|] == entries;
  }

  /** A full database keys exactly the prefixes of its entries. */
  lemma {:induction false} FromEntriesKeys(entries: seq<PrefixEntry>, p: IpPrefix)
    ensures p in FromEntries(entries) <==> exists i :: 0 <= i < |entries| && entries[i].prefix == p
  {
    if |entries| > 0 {
      var n := |entries| - 1;
      FromEntriesKeys(entries[..n], p);
      assert forall j :: 0 <= j < n ==> entries[j] == entries[..n][j];
    }
  }

  /** A full database maps each prefix to the last entry for it. */
  lemma {:induction false} FromEntriesLast(entries: seq<PrefixEntry>, i: nat)
    requires i < |entries|
    requires forall j :: i < j < |entries| ==> entries[j].prefix != entries[i].prefix
    ensures entries[i].prefix in FromEntries(entries) && FromEntries(entries)[entries[i].prefix] == entries[i]
  {
    var n := |entries| - 1;
    if i < n {
      assert forall j :: 0 <= j < n ==> entries[j] == entries[..n][j];
      FromEntriesLast(entries[..n], i);
    }
  }

  /** What a node advertises: every per-prefix entry, and every
      full-database entry whose prefix has no per-prefix entry. */
  function Merge(perPrefix: PrefixMap, fullDb: PrefixMap): (m: PrefixMap)
  {
    map p | p in perPrefix.Keys + fullDb.Keys :: if p in perPrefix then perPrefix[p] else fullDb[p]
  }

  /** `entries` lists the values of `m`, one per key, in the order `order`
      of the keys. */
  ghost predicate ListsBy(entries: seq<PrefixEntry>, m: PrefixMap, order: seq<IpPrefix>)
  {
    && |order| == |entries|
    && (forall i, j :: 0 <= i < j < |order| ==> order[i] != order[j])
    && (forall p :: p in m <==> p in order)
    && (forall i :: 0 <= i < |order| ==> entries[i] == m[order[i]])
  }

  /** `entries` lists the values of `m`, one per key, in some order: the
      C++ code iterates hash maps. */
  ghost predicate Lists(entries: seq<PrefixEntry>, m: PrefixMap)
  {
    exists order :: ListsBy(entries, m, order)
  }

  /** The values of `m` whose keys are not in `skip`, in the order of the
      ghost `order`. */
  method ListValuesExcept(m: PrefixMap, skip: set<IpPrefix>) returns (entries: seq<PrefixEntry>, ghost order: seq<IpPrefix>)
    ensures |order| == |entries|
    ensures forall i, j :: 0 <= i < j < |order| ==> order[i] != order[j]
    ensures forall p :: p in order <==> p in m && p !in skip
    ensures forall i :: 0 <= i < |order| ==> entries[i] == m[order[i]]
    ensures forall i :: 0 <= i < |entries| ==> entries[i] in m.Values
  {
    entries, order := [], [];
    var pending := m.Keys;
    while pending != {}
      invariant pending <= m.Keys
      invariant |order| == |entries|
      invariant forall i, j :: 0 <= i < j < |order| ==> order[i] != order[j]
      invariant forall p :: p in order <==> p in m && p !in pending && p !in skip
      invariant forall i :: 0 <= i < |order| ==> entries[i] == m[order[i]]
      decreases pending
    {
      var p :| p in pending;
      if p !in skip {
        entries := entries + [m[p]];
        order := order + [p];
      }
      pending := pending - {p};
    }
  }

  /** The full-database entries that no per-prefix entry overrides. */
  function FullOnly(perPrefix: PrefixMap, fullDb: PrefixMap): PrefixMap
  {
    map p | p in fullDb && p !in perPrefix :: fullDb[p]
  }

  /** `entries` lists all of `perPrefix` first, then all of
      `FullOnly(perPrefix, fullDb)`. */
  ghost predicate ListsInBlocks(entries: seq<PrefixEntry>, perPrefix: PrefixMap, fullDb: PrefixMap)
  {
    exists k :: 0 <= k <= |entries| && Lists(entries[..k], perPrefix) && Lists(entries[k..], FullOnly(perPrefix, fullDb))
  }

  /** The per-prefix listing followed by the listing of the entries they
      do not override lists the merge. */
  lemma ConcatListsMerge(
    perPrefix: PrefixMap, fullDb: PrefixMap,
    e1: seq<PrefixEntry>, o1: seq<IpPrefix>, e2: seq<PrefixEntry>, o2: seq<IpPrefix>)
    requires ListsBy(e1, perPrefix, o1) && ListsBy(e2, FullOnly(perPrefix, fullDb), o2)
    ensures Lists(e1 + e2, Merge(perPrefix, fullDb))
  {
    var entries, order := e1 + e2, o1 + o2;
    forall i, j | 0 <= i < j < |order|
      ensures order[i] != order[j]
    {
      if j < |o1| {
        assert order[i] == o1[i] && order[j] == o1[j];
      } else if i < |o1| {
        assert order[i] == o1[i] && order[i] in perPrefix;
        assert order[j] == o2[j - |o1|] && order[j] in FullOnly(perPrefix, fullDb);
      } else {
        assert order[i] == o2[i - |o1|] && order[j] == o2[j - |o1|];
      }
    }
    forall i | 0 <= i < |order|
      ensures order[i] in Merge(perPrefix, fullDb) && entries[i] == Merge(perPrefix, fullDb)[order[i]]
    {
      if i < |o1| {
        assert order[i] == o1[i] && order[i] in perPrefix && entries[i] == e1[i];
      } else {
        assert order[i] == o2[i - |o1|] && order[i] in FullOnly(perPrefix, fullDb) && entries[i] == e2[i - |o1|];
      }
    }
    forall p
      ensures p in Merge(perPrefix, fullDb) <==> p in order
    {
      assert p in Merge(perPrefix, fullDb) <==> p in perPrefix || p in FullOnly(perPrefix, fullDb);
    }
    assert ListsBy(entries, Merge(perPrefix, fullDb), order);
  }

  /** The entries the C++ code returns for a node: the per-prefix entries,
      then the full-database entries that no per-prefix entry overrides. */
  method MergedEntries(perPrefix: PrefixMap, fullDb: PrefixMap) returns (entries: seq<PrefixEntry>)
    ensures Lists(entries, Merge(perPrefix, fullDb))
    ensures ListsInBlocks(entries, perPrefix, fullDb)
  {
    var e1, o1 := ListValuesExcept(perPrefix, {});
    var e2, o2 := ListValuesExcept(fullDb, perPrefix.Keys);
    assert ListsBy(e1, perPrefix, o1);
    assert ListsBy(e2, FullOnly(perPrefix, fullDb), o2);
    entries := e1 + e2;
    ConcatListsMerge(perPrefix, fullDb, e1, o1, e2, o2);
    assert entries[..|e1|] == e1 && entries[|e1|..] == e2;
  }

  /** Full-database entries of `fullDb` are replaced by per-prefix entries
      with the same prefix and never shadow them; nothing is lost. */
  lemma MergePrecedence(perPrefix: PrefixMap, fullDb: PrefixMap, p: IpPrefix)
    ensures p in Merge(perPrefix, fullDb) <==> p in perPrefix || p in fullDb
    ensures p in perPrefix ==> Merge(perPrefix, fullDb)[p] == perPrefix[p]
    ensures p !in perPrefix && p in fullDb ==> Merge(perPrefix, fullDb)[p] == fullDb[p]
  {
  }

  /** The entries stored for `node`, or none. */
  function EntriesOf(m: map<string, PrefixMap>, node: string): PrefixMap
  {
    if node in m then m[node] else map[]
  }

  /** The largest of 1 and the values of `times`. */
  ghost predicate IsMaxFib(times: map<string, nat>, max: nat)
  {
    && max >= 1
    && (forall n :: n in times ==> times[n] <= max)
    && (max == 1 || exists n :: n in times && times[n] == max)
  }

  /** A node's per-prefix and full-database entries after one prefix
      database received under `keyPrefix` (see `UpdateNodePrefixDatabase`). */
  method ApplyPrefixDb(per: PrefixMap, full: PrefixMap, keyPrefix: Option<IpPrefix>, prefixDb: PrefixDatabase)
    returns (per': PrefixMap, full': PrefixMap)
    ensures per' == if keyPrefix.None? then per
                    else if prefixDb.deletePrefix then per - {keyPrefix.value}
                    else if |prefixDb.prefixEntries| == 0 then per
                    else per[keyPrefix.value := prefixDb.prefixEntries[0]]
    ensures full' == if keyPrefix.None? then FromEntries(prefixDb.prefixEntries) else full
  {
    per', full' := per, full;
    if keyPrefix.Some? {
      if prefixDb.deletePrefix {
        per' := per - {keyPrefix.value};
      } else if |prefixDb.prefixEntries| > 0 {
        per' := per[keyPrefix.value := prefixDb.prefixEntries[0]];
      }
    } else {
      full' := KeyByPrefix(prefixDb.prefixEntries);
    }
  }

  class Decision {
    /** Entries from per-prefix keys, by node and prefix. */
    var perPrefixPrefixEntries: map<string, PrefixMap>
    /** Entries from full-database keys, by node and prefix. */
    var fullDbPrefixEntries: map<string, PrefixMap>
    /** `processUpdatesStatus_`: what changed since the last recomputation. */
    var adjChanged: bool
    var prefixesChanged: bool
    /** The FIB programming time each node reported, in milliseconds. */
    var fibTimes: map<string, nat>
    /** The static route deltas pushed to `routeUpdatesQueue_`. */
    var routeUpdates: seq<Squashed>
    /** The static-route part of the SPF solver. */
    const solver: StaticRouteState

    constructor (solver: StaticRouteState)
      ensures this.solver == solver
      ensures perPrefixPrefixEntries == map[] && fullDbPrefixEntries == map[]
      ensures !adjChanged && !prefixesChanged && fibTimes == map[] && routeUpdates == []
    {
      this.solver := solver;
      perPrefixPrefixEntries := map[];
      fullDbPrefixEntries := map[];
      adjChanged := false;
      prefixesChanged := false;
      fibTimes := map[];
      routeUpdates := [];
    }

    /** Records a prefix database of node `prefixDb.thisNodeName` received
      under a key that parses to a per-prefix key for `keyPrefix`, or to no
      per-prefix key (`None`, a full-database key), and returns everything
      the node now advertises. A per-prefix delete removes that prefix; a
      per-prefix add stores the first entry only and an empty one is
      ignored; a full database replaces the node's full-database entries.
      Both maps gain an (empty) entry for the node if it had none, as C++
      `operator[]` does. */
    method UpdateNodePrefixDatabase(keyPrefix: Option<IpPrefix>, prefixDb: PrefixDatabase)
      returns (nodePrefixDb: PrefixDatabase)
      modifies this
      ensures var node := prefixDb.thisNodeName;
              var per := EntriesOf(old(perPrefixPrefixEntries), node);
              && perPrefixPrefixEntries == old(perPrefixPrefixEntries)[node :=
                   if keyPrefix.None? then per
                   else if prefixDb.deletePrefix then per - {keyPrefix.value}
                   else if |prefixDb.prefixEntries| == 0 then per
                   else per[keyPrefix.value := prefixDb.prefixEntries[0]]]
              && fullDbPrefixEntries == old(fullDbPrefixEntries)[node :=
                   if keyPrefix.None? then FromEntries(prefixDb.prefixEntries)
                   else EntriesOf(old(fullDbPrefixEntries), node)]
      ensures nodePrefixDb.thisNodeName == prefixDb.thisNodeName && !nodePrefixDb.deletePrefix
      ensures Lists(nodePrefixDb.prefixEntries,
                    Merge(perPrefixPrefixEntries[prefixDb.thisNodeName], fullDbPrefixEntries[prefixDb.thisNodeName]))
      ensures ListsInBlocks(nodePrefixDb.prefixEntries,
                            perPrefixPrefixEntries[prefixDb.thisNodeName], fullDbPrefixEntries[prefixDb.thisNodeName])
      ensures adjChanged == old(adjChanged) && prefixesChanged == old(prefixesChanged)
      ensures fibTimes == old(fibTimes) && routeUpdates == old(routeUpdates)
    {
      var node := prefixDb.thisNodeName;
      var per, full := ApplyPrefixDb(
        EntriesOf(perPrefixPrefixEntries, node), EntriesOf(fullDbPrefixEntries, node), keyPrefix, prefixDb);
      var entries := MergedEntries(per, full);
      perPrefixPrefixEntries := perPrefixPrefixEntries[node := per];
      fullDbPrefixEntries := fullDbPrefixEntries[node := full];
      nodePrefixDb := PrefixDatabase(node, entries, false);
    }

    /** Folds the result of one publication into the changed flags; a flag
      stays set until the pending updates are processed. */
    method RecordPublication(adjChangedNow: bool, prefixesChangedNow: bool)
      modifies this
      ensures adjChanged == (old(adjChanged) || adjChangedNow)
      ensures prefixesChanged == (old(prefixesChanged) || prefixesChangedNow)
      ensures perPrefixPrefixEntries == old(perPrefixPrefixEntries) && fullDbPrefixEntries == old(fullDbPrefixEntries)
      ensures fibTimes == old(fibTimes) && routeUpdates == old(routeUpdates)
    {
      adjChanged := adjChanged || adjChangedNow;
      prefixesChanged := prefixesChanged || prefixesChangedNow;
    }

    /** Processes the static route updates, unless the cold-start timer is
      still pending: the squashed delta, if any, is pushed to the route
      updates. */
    method ProcessStaticRouteUpdates(coldStartPending: bool)
      modifies this, solver
      ensures coldStartPending ==> solver.updates == old(solver.updates) && solver.mplsRoutes == old(solver.mplsRoutes)
      ensures coldStartPending ==> routeUpdates == old(routeUpdates)
      ensures !coldStartPending ==>
                var s := Squash(Ops(old(solver.updates)));
                && solver.updates == []
                && (s.toUpdate == map[] && s.toDelete == {} ==>
                      routeUpdates == old(routeUpdates) && solver.mplsRoutes == old(solver.mplsRoutes))
                && (s.toUpdate != map[] || s.toDelete != {} ==>
                      routeUpdates == old(routeUpdates) + [s] && solver.mplsRoutes == Applied(old(solver.mplsRoutes), s))
      ensures adjChanged == old(adjChanged) && prefixesChanged == old(prefixesChanged)
      ensures perPrefixPrefixEntries == old(perPrefixPrefixEntries) && fullDbPrefixEntries == old(fullDbPrefixEntries)
      ensures fibTimes == old(fibTimes)
    {
      if coldStartPending {
        return;
      }
      var delta := solver.ProcessStaticRouteUpdates();
      if delta.Some? {
        routeUpdates := routeUpdates + [delta.value];
      }
    }

    /** Static routes first, then a full recomputation if adjacencies
      changed, else a prefix recomputation if prefixes or static routes
      changed; the changed flags are cleared in every case. */
    method ProcessPendingUpdates(coldStartPending: bool) returns (run: Recompute)
      modifies this, solver
      ensures !adjChanged && !prefixesChanged
      ensures run == (if old(adjChanged) then AdjUpdates
                      else if old(prefixesChanged) || old(solver.updates) != [] then PrefixUpdates
                      else NoRecompute)
      ensures old(solver.updates) == [] ==>
                solver.updates == [] && solver.mplsRoutes == old(solver.mplsRoutes) && routeUpdates == old(routeUpdates)
      ensures coldStartPending ==>
                solver.updates == old(solver.updates) && solver.mplsRoutes == old(solver.mplsRoutes)
                && routeUpdates == old(routeUpdates)
      ensures old(solver.updates) != [] && !coldStartPending ==>
                var s := Squash(Ops(old(solver.updates)));
                && solver.updates == []
                && (s.toUpdate == map[] && s.toDelete == {} ==>
                      routeUpdates == old(routeUpdates) && solver.mplsRoutes == old(solver.mplsRoutes))
                && (s.toUpdate != map[] || s.toDelete != {} ==>
                      routeUpdates == old(routeUpdates) + [s] && solver.mplsRoutes == Applied(old(solver.mplsRoutes), s))
      ensures perPrefixPrefixEntries == old(perPrefixPrefixEntries) && fullDbPrefixEntries == old(fullDbPrefixEntries)
      ensures fibTimes == old(fibTimes)
    {
      var staticRoutesUpdated := false;
      var pending := solver.StaticRoutesUpdated();
      if pending {
        staticRoutesUpdated := true;
        ProcessStaticRouteUpdates(coldStartPending);
      }
      if adjChanged {
        run := AdjUpdates;
      } else if prefixesChanged || staticRoutesUpdated {
        run := PrefixUpdates;
      } else {
        run := NoRecompute;
      }
      adjChanged := false;
      prefixesChanged := false;
    }

    /** Records the FIB programming time reported by `node`. */
    method RecordFibTime(node: string, fibTime: nat)
      modifies this
      ensures fibTimes == old(fibTimes)[node := fibTime]
      ensures perPrefixPrefixEntries == old(perPrefixPrefixEntries) && fullDbPrefixEntries == old(fullDbPrefixEntries)
      ensures adjChanged == old(adjChanged) && prefixesChanged == old(prefixesChanged)
      ensures routeUpdates == old(routeUpdates)
    {
      fibTimes := fibTimes[node := fibTime];
    }

    /** The largest FIB programming time reported, and at least 1 ms. */
    method GetMaxFib() returns (maxFib: nat)
      ensures IsMaxFib(fibTimes, maxFib)
    {
      maxFib := 1;
      var pending := fibTimes.Keys;
      while pending != {}
        invariant pending <= fibTimes.Keys && maxFib >= 1
        invariant forall n :: n in fibTimes && n !in pending ==> fibTimes[n] <= maxFib
        invariant maxFib == 1 || exists n :: n in fibTimes && n !in pending && fibTimes[n] == maxFib
        decreases pending
      {
        var n :| n in pending;
        maxFib := if fibTimes[n] > maxFib then fibTimes[n] else maxFib;
        pending := pending - {n};
      }
    }
  }

  /** The largest FIB time is unique. */
  lemma MaxFibUnique(times: map<string, nat>, a: nat, b: nat)
    requires IsMaxFib(times, a) && IsMaxFib(times, b)
    ensures a == b
  {
  }
}
