/** The static MPLS routes of the SPF solver: route deltas are queued by
    `pushRoutesDeltaUpdates` and squashed into one delta, and into the
    static route table, by `processStaticRouteUpdates`. */
module StaticRoutes {
  import opened Types

  /** A next hop of an MPLS route; only its identity matters here. */
  datatype NextHop = NextHop(address: seq<bv8>, ifName: string, metric: nat)

  datatype MplsRoute = MplsRoute(topLabel: Label, nextHops: seq<NextHop>)

  /** A queued delta: routes to add or replace, then labels to delete. */
  datatype RouteDelta = RouteDelta(mplsRoutesToUpdate: seq<MplsRoute>, mplsRoutesToDelete: seq<Label>)

  /** The squashed result: at most one route per label to install, and the
      labels to delete. The C++ code emits both from hash containers in no
      particular order; the model keeps them as a map and a set. */
  datatype Squashed = Squashed(toUpdate: map<Label, MplsRoute>, toDelete: set<Label>)

  /** One queued operation on one label. */
  datatype Op = Put(route: MplsRoute) | Erase(lbl: Label)

  function LabelOf(op: Op): Label
  {
    if op.Put? then op.route.topLabel else op.lbl
  }

  function PutOps(routes: seq<MplsRoute>): (r: seq<Op>)
    ensures |r| == |routes| && forall i :: 0 <= i < |routes| ==> r[i] == Put(routes[i])
  {
    seq(|routes|, i requires 0 <= i < |routes| => Put(routes[i]))
  }

  function EraseOps(labels: seq<Label>): (r: seq<Op>)
    ensures |r| == |labels| && forall i :: 0 <= i < |labels| ==> r[i] == Erase(labels[i])
  {
    seq(|labels|, i requires 0 <= i < |labels| => Erase(labels[i]))
  }

  /** The operations of a sequence of deltas in the order the squash loop
      visits them: delta by delta, each delta's updates before its deletes. */
  function Ops(deltas: seq<RouteDelta>): seq<Op>
  {
    if |deltas| == 0 then []
    else
      var d := deltas[|deltas| - 1];
      Ops(deltas[..|deltas| - 1]) + PutOps(d.mplsRoutesToUpdate) + EraseOps(d.mplsRoutesToDelete)
  }

  /** The effect of one operation on the squashed state. */
  function Apply(s: Squashed, op: Op): Squashed
  {
    match op
    case Put(r) => Squashed(s.toUpdate[r.topLabel := r], s.toDelete - {r.topLabel})
    case Erase(l) => Squashed(s.toUpdate - {l}, s.toDelete + {l})
  }

  /** Squashing a sequence of operations in order. */
  function Squash(ops: seq<Op>): Squashed
  {
    if |ops| == 0 then Squashed(map[], {}) else Apply(Squash(ops[..|ops| - 1]), ops[|ops| - 1])
  }

  /** The last operation on label `l`, if any: the reference for what the
      squash keeps. */
  function LastOp(ops: seq<Op>, l: Label): (r: Option<Op>)
    ensures r.Some? ==> r.value in ops && LabelOf(r.value) == l
    ensures r.None? ==> forall op :: op in ops ==> LabelOf(op) != l
  {
    if |ops| == 0 then None
    else if LabelOf(ops[|ops| - 1]) == l then Some(ops[|ops| - 1])
    else
      assert forall op :: op in ops ==> op in ops[..|ops| - 1] || op == ops[|ops| - 1] by {
        assert ops == ops[..|ops| - 1] + [ops[|ops| - 1]];
      }
      LastOp(ops[..|ops| - 1], l)
  }

  /** The last operation on a label wins: a label is to be installed with
      the route of its last operation if that was an update, to be deleted
      if it was a delete, and untouched if there was none. In particular no
      label is both installed and deleted. */
  lemma {:induction false} SquashIsLastOp(ops: seq<Op>, l: Label)
    ensures l in Squash(ops).toUpdate <==> LastOp(ops, l).Some? && LastOp(ops, l).value.Put?
    ensures l in Squash(ops).toUpdate ==> Squash(ops).toUpdate[l] == LastOp(ops, l).value.route
    ensures l in Squash(ops).toDelete <==> LastOp(ops, l).Some? && LastOp(ops, l).value.Erase?
  {
    if |ops| > 0 {
      SquashIsLastOp(ops[..|ops| - 1], l);
    }
  }

  /** Every installed route is keyed by its own label. */
  lemma {:induction false} SquashKeys(ops: seq<Op>)
    ensures forall l :: l in Squash(ops).toUpdate ==> Squash(ops).toUpdate[l].topLabel == l
  {
    if |ops| > 0 {
      SquashKeys(ops[..|ops| - 1]);
    }
  }

  lemma SquashSnoc(ops: seq<Op>, op: Op)
    ensures Squash(ops + [op]) == Apply(Squash(ops), op)
  {
    assert (ops + [op])[..|ops|] == ops;
  }

  lemma OpsSnoc(deltas: seq<RouteDelta>, i: nat)
    requires i < |deltas|
    ensures Ops(deltas[..i + 1]) ==
            Ops(deltas[..i]) + PutOps(deltas[i].mplsRoutesToUpdate) + EraseOps(deltas[i].mplsRoutesToDelete)
  {
    assert deltas[..i + 1][..i] == deltas[..i];
  }

  /** The static route table after applying `s`: installed labels get
      their route's next hops, deleted labels are removed. */
  function Applied(table: map<Label, seq<NextHop>>, s: Squashed): map<Label, seq<NextHop>>
  {
    map l | l in (table.Keys + s.toUpdate.Keys) - s.toDelete ::
      if l in s.toUpdate then s.toUpdate[l].nextHops else table[l]
  }

  /** Squashes the updates `routes` of one delta onto `s`, the squash of
      `base`. */
  method SquashPuts(s: Squashed, ghost base: seq<Op>, routes: seq<MplsRoute>) returns (s': Squashed)
    requires s == Squash(base)
    ensures s' == Squash(base + PutOps(routes))
  {
    s' := s;
    assert base + PutOps(routes[..0]) == base;
    for j := 0 to |routes|
      invariant s' == Squash(base + PutOps(routes[..j]))
    {
      var r := routes[j];
      assert base + PutOps(routes[..j + 1]) == base + PutOps(routes[..j]) + [Put(r)];
      SquashSnoc(base + PutOps(routes[..j]), Put(r));
      s' := Squashed(s'.toUpdate[r.topLabel := r], s'.toDelete - {r.topLabel});
    }
    assert routes[..|routes|] == routes;
  }

  /** Squashes the deletes `labels` of one delta onto `s`, the squash of
      `base`. */
  method SquashErases(s: Squashed, ghost base: seq<Op>, labels: seq<Label>) returns (s': Squashed)
    requires s == Squash(base)
    ensures s' == Squash(base + EraseOps(labels))
  {
    s' := s;
    assert base + EraseOps(labels[..0]) == base;
    for k := 0 to |labels|
      invariant s' == Squash(base + EraseOps(labels[..k]))
    {
      var l := labels[k];
      assert base + EraseOps(labels[..k + 1]) == base + EraseOps(labels[..k]) + [Erase(l)];
      SquashSnoc(base + EraseOps(labels[..k]), Erase(l));
      s' := Squashed(s'.toUpdate - {l}, s'.toDelete + {l});
    }
    assert labels[..|labels|] == labels;
  }

  /** Sets the next hops of every route of `routes` in `table`. */
  method InstallRoutes(table: map<Label, seq<NextHop>>, routes: map<Label, MplsRoute>) returns (t: map<Label, seq<NextHop>>)
    ensures t == map l | l in table.Keys + routes.Keys :: if l in routes then routes[l].nextHops else table[l]
  {
    t := table;
    var pending := routes.Keys;
    while pending != {}
      invariant pending <= routes.Keys
      invariant t == map l | l in table.Keys + (routes.Keys - pending) ::
                       if l in routes.Keys - pending then routes[l].nextHops else table[l]
      decreases pending
    {
      var k :| k in pending;
      t := t[k := routes[k].nextHops];
      pending := pending - {k};
    }
  }

  /** Removes the labels of `labels` from `table`. */
  method DeleteLabels(table: map<Label, seq<NextHop>>, labels: set<Label>) returns (t: map<Label, seq<NextHop>>)
    ensures t == map l | l in table.Keys - labels :: table[l]
  {
    t := table;
    var pending := labels;
    while pending != {}
      invariant pending <= labels
      invariant t == map l | l in table.Keys - (labels - pending) :: table[l]
      decreases pending
    {
      var k :| k in pending;
      t := t - {k};
      pending := pending - {k};
    }
  }

  class StaticRouteState {
    /** `staticRoutes_.mplsRoutes`: next hops by label. */
    var mplsRoutes: map<Label, seq<NextHop>>
    /** `staticRoutesUpdates_`: the queued deltas, oldest first. */
    var updates: seq<RouteDelta>

    constructor ()
      ensures mplsRoutes == map[] && updates == []
    {
      mplsRoutes := map[];
      updates := [];
    }

    /** Whether deltas are waiting. */
    method StaticRoutesUpdated() returns (r: bool)
      ensures r <==> updates != []
    {
      return |updates| > 0;
    }

    /** Queues one delta. */
    method PushRoutesDeltaUpdates(delta: RouteDelta)
      modifies this
      ensures updates == old(updates) + [delta]
      ensures mplsRoutes == old(mplsRoutes)
    {
      updates := updates + [delta];
    }

    /** Squashes the queued deltas in arrival order. */
    method SquashUpdates() returns (s: Squashed)
      ensures s == Squash(Ops(updates))
    {
      s := Squashed(map[], {});
      for i := 0 to |updates|
        invariant s == Squash(Ops(updates[..i]))
      {
        var d := updates[i];
        s := SquashPuts(s, Ops(updates[..i]), d.mplsRoutesToUpdate);
        s := SquashErases(s, Ops(updates[..i]) + PutOps(d.mplsRoutesToUpdate), d.mplsRoutesToDelete);
        OpsSnoc(updates, i);
      }
      assert updates[..|updates|] == updates;
    }

    /** Writes the squashed delta `s`, whose two parts share no label, into
      the static route table. */
    method ApplySquashed(s: Squashed)
      requires s.toUpdate.Keys !! s.toDelete
      modifies this
      ensures mplsRoutes == Applied(old(mplsRoutes), s)
      ensures updates == old(updates)
    {
      var t := InstallRoutes(mplsRoutes, s.toUpdate);
      t := DeleteLabels(t, s.toDelete);
      mplsRoutes := t;
    }

    /** Squashes the queued deltas, empties the queue, applies the result
      to the static route table and returns it; returns nothing, leaving
      the table as it was, when nothing remains after squashing. */
    method ProcessStaticRouteUpdates() returns (r: Option<Squashed>)
      modifies this
      ensures updates == []
      ensures var s := Squash(Ops(old(updates)));
              && (r.None? <==> s.toUpdate == map[] && s.toDelete == {})
              && (r.Some? ==> r.value == s && mplsRoutes == Applied(old(mplsRoutes), s))
              && (r.None? ==> mplsRoutes == old(mplsRoutes))
    {
      var s := SquashUpdates();
      updates := [];
      if |s.toUpdate| == 0 && |s.toDelete| == 0 {
        return None;
      }
      forall l | l in s.toUpdate.Keys
        ensures l !in s.toDelete
      {
        SquashIsLastOp(Ops(old(updates)), l);
      }
      ApplySquashed(s);
      return Some(s);
    }
  }

  /** After processing, a label's table entry is decided by its last queued
      operation: the next hops of the last update, no entry after a last
      delete, and the old entry when no delta touched it. */
  lemma TableFollowsLastOp(table: map<Label, seq<NextHop>>, deltas: seq<RouteDelta>, l: Label)
    ensures var ops := Ops(deltas);
            var t := Applied(table, Squash(ops));
            match LastOp(ops, l)
            case Some(Put(route)) => l in t && t[l] == route.nextHops
            case Some(Erase(_)) => l !in t
            case None => (l in t <==> l in table) && (l in t ==> t[l] == table[l])
  {
    SquashIsLastOp(Ops(deltas), l);
  }
}
