/** The priority queue of the SPF run: nodes keyed by name, ordered by
    (distance, name). The C++ class keeps a binary heap of shared node
    objects and a name index pointing into it; here `heap` holds the queued
    names and `nodes` the entry each name's index points to. */
module DijkstraQueue {
  import opened Types
  import opened LinkGraph

  /** `(d1, n1)` comes strictly before `(d2, n2)`: the order under which
      the C++ comparator `DijkstraQNodeGreater` makes the heap top least. */
  predicate QLess(d1: nat, n1: string, d2: nat, n2: string)
  {
    d1 < d2 || (d1 == d2 && LexLess(n1, n2))
  }

  /** `n` is least by (distance, name) among the queued entries `m`. */
  ghost predicate IsLeast(m: map<string, SpfEntry>, n: string)
  {
    n in m && forall k :: k in m && k != n ==> QLess(m[n].metric, n, m[k].metric, k)
  }

  class DijkstraQ {
    var heap: seq<string>
    var nodes: map<string, SpfEntry>

    /** Every queued name appears once in the heap and has an entry. */
    ghost predicate Valid()
      reads this
    {
      && (forall i, j :: 0 <= i < j < |heap| ==> heap[i] != heap[j])
      && (forall n :: n in nodes <==> n in heap)
    }

    constructor ()
      ensures Valid() && nodes == map[]
    {
      heap := [];
      nodes := map[];
    }

    /** Queues `name` at distance `d` with no next hops yet. */
    method InsertNode(name: string, d: nat)
      requires Valid() && name !in nodes
      modifies this
      ensures Valid()
      ensures nodes == old(nodes)[name := SpfEntry(d, {})]
    {
      heap := heap + [name];
      nodes := nodes[name := SpfEntry(d, {})];
    }

    /** The entry queued under `name`, if any. */
    method Get(name: string) returns (r: Option<SpfEntry>)
      ensures r.Some? <==> name in nodes
      ensures r.Some? ==> r.value == nodes[name]
    {
      if name in nodes {
        r := Some(nodes[name]);
      } else {
        r := None;
      }
    }

    /** The heap position of the entry least by (distance, name). */
    method LeastIndex() returns (k: nat)
      requires Valid() && |heap| > 0
      ensures k < |heap|
      ensures forall j :: 0 <= j < |heap| && j != k ==>
                QLess(nodes[heap[k]].metric, heap[k], nodes[heap[j]].metric, heap[j])
    {
      k := 0;
      for i := 1 to |heap|
        invariant 0 <= k < i
        invariant forall j :: 0 <= j < i && j != k ==>
                    QLess(nodes[heap[k]].metric, heap[k], nodes[heap[j]].metric, heap[j])
      {
        var a, b := nodes[heap[i]], nodes[heap[k]];
        if QLess(a.metric, heap[i], b.metric, heap[k]) {
          forall j | 0 <= j < i
            ensures QLess(a.metric, heap[i], nodes[heap[j]].metric, heap[j])
          {
            if j != k {
              var c := nodes[heap[j]];
              if a.metric == b.metric && b.metric == c.metric {
                LexLessTransitive(heap[i], heap[k], heap[j]);
              }
            }
          }
          k := i;
        } else {
          LexLessTotal(heap[i], heap[k]);
        }
      }
    }

    /** Removes and returns the entry least by (distance, name), or nothing
        when the queue is empty. */
    method ExtractMin() returns (r: Option<(string, SpfEntry)>)
      requires Valid()
      modifies this
      ensures Valid()
      ensures old(nodes) == map[] <==> r.None?
      ensures r.None? ==> nodes == old(nodes)
      ensures r.Some? ==>
                && IsLeast(old(nodes), r.value.0)
                && r.value.1 == old(nodes)[r.value.0]
                && nodes == old(nodes) - {r.value.0}
    {
      if |heap| == 0 {
        assert forall n :: n !in nodes;
        assert nodes == map[];
        return None;
      }
      var k := LeastIndex();
      var name := heap[k];
      var e := nodes[name];
      assert IsLeast(nodes, name) by {
        forall n | n in nodes && n != name
          ensures QLess(e.metric, name, nodes[n].metric, n)
        {
          var j :| 0 <= j < |heap| && heap[j] == n;
        }
      }
      heap := heap[..k] + heap[k + 1..];
      nodes := nodes - {name};
      assert forall n :: n in heap <==> n in old(heap) && n != name by {
        assert old(heap) == old(heap)[..k] + [name] + old(heap)[k + 1..];
      }
      r := Some((name, e));
    }

    /** Lowers the distance queued under `name` to `d`. Fails, as the C++
        code throws `invalid_argument`, when `name` is not queued or `d`
        exceeds its current distance; nothing changes then. */
    method DecreaseKey(name: string, d: nat) returns (ok: bool)
      requires Valid()
      modifies this
      ensures Valid()
      ensures ok <==> name in old(nodes) && d <= old(nodes)[name].metric
      ensures ok ==> nodes == old(nodes)[name := old(nodes)[name].(metric := d)]
      ensures !ok ==> nodes == old(nodes)
      ensures heap == old(heap)
    {
      if name in nodes {
        if nodes[name].metric < d {
          return false;
        }
        nodes := nodes[name := nodes[name].(metric := d)];
        return true;
      }
      return false;
    }

    /** Replaces the next hops queued under `name`: the writes the SPF run
        makes through the shared node pointer it got from `get`. */
    method SetNextHops(name: string, hops: set<string>)
      requires Valid() && name in nodes
      modifies this
      ensures Valid()
      ensures nodes == old(nodes)[name := old(nodes)[name].(nextHops := hops)]
      ensures heap == old(heap)
    {
      nodes := nodes[name := nodes[name].(nextHops := hops)];
    }
  }
}
