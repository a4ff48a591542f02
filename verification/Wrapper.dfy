/** The deterministic rules of the single-node test wrapper: the order in
    which it starts and stops its modules, the cached allocated prefix, and
    the messages it puts on its queues. Threads become entries of an event
    log, and the cache a plain field. */
module Wrapper {
  import opened Types
  import opened StaticRoutes

  /** The modules the wrapper runs, each on a thread of its own. */
  datatype Module = ConfigStore | KvStore | Monitor | PrefixManager | PrefixAllocatorModule
                  | Spark | LinkMonitor | DecisionModule | Fib | Watchdog | EventBase

  /** The queues the wrapper owns. */
  datatype Queue = RouteUpdates | PeerUpdates | InterfaceUpdates | NeighborUpdates
                 | PrefixUpdates | KvStoreUpdates | StaticRoutesQueue

  datatype Step = StartModule | StopModule | JoinThread

  /** What the wrapper does to its modules, threads and queues, in order. */
  datatype Event = ModuleEvent(step: Step, m: Module) | CloseQueue(q: Queue)

  /** Modules started by the constructor, then by `run`, in that order. */
  const ConstructorStarts: seq<Module> := [ConfigStore, KvStore]
  const RunStarts: seq<Module> :=
    [Monitor, PrefixManager, PrefixAllocatorModule, Spark, LinkMonitor, DecisionModule, Fib, Watchdog, EventBase]
  const StartOrder: seq<Module> := ConstructorStarts + RunStarts

  /** The order in which `stop` closes the queues and stops the modules. */
  const CloseOrder: seq<Queue> :=
    [RouteUpdates, PeerUpdates, InterfaceUpdates, NeighborUpdates, PrefixUpdates, KvStoreUpdates, StaticRoutesQueue]
  const StopOrder: seq<Module> :=
    [EventBase, Watchdog, Fib, DecisionModule, LinkMonitor, Spark, PrefixAllocatorModule, PrefixManager, Monitor, KvStore, ConfigStore]

  function Events(step: Step, ms: seq<Module>): (r: seq<Event>)
    ensures |r| == |ms| && forall i :: 0 <= i < |ms| ==> r[i] == ModuleEvent(step, ms[i])
  {
    seq(|ms|, i requires 0 <= i < |ms| => ModuleEvent(step, ms[i]))
  }

  function Closes(qs: seq<Queue>): (r: seq<Event>)
    ensures |r| == |qs| && forall i :: 0 <= i < |qs| ==> r[i] == CloseQueue(qs[i])
  {
    seq(|qs|, i requires 0 <= i < |qs| => CloseQueue(qs[i]))
  }

  /** The modules that the events of `log` apply `step` to, in log order. */
  function ModulesIn(log: seq<Event>, step: Step): seq<Module>
  {
    if |log| == 0 then []
    else
      var e := log[|log| - 1];
      ModulesIn(log[..|log| - 1], step) + (if e.ModuleEvent? && e.step == step then [e.m] else [])
  }

  /** The queues closed by the events of `log`. */
  function QueuesClosed(log: seq<Event>): set<Queue>
  {
    set e | e in log && e.CloseQueue? :: e.q
  }

  function Reverse<T>(s: seq<T>): (r: seq<T>)
    ensures |r| == |s|
  {
    if |s| == 0 then [] else [s[|s| - 1]] + Reverse(s[..|s| - 1])
  }

  lemma {:induction false} ReverseAt<T>(s: seq<T>, k: nat)
    requires k < |s|
    ensures Reverse(s)[k] == s[|s| - 1 - k]
  {
    if k > 0 {
      ReverseAt(s[..|s| - 1], k - 1);
    }
  }

  lemma {:induction false} ModulesInAppend(a: seq<Event>, b: seq<Event>, step: Step)
    ensures ModulesIn(a + b, step) == ModulesIn(a, step) + ModulesIn(b, step)
  {
    if |b| == 0 {
      assert a + b == a;
    } else {
      var e := b[|b| - 1];
      var last := if e.ModuleEvent? && e.step == step then [e.m] else [];
      assert (a + b)[..|a + b| - 1] == a + b[..|b| - 1];
      assert (a + b)[|a + b| - 1] == e;
      ModulesInAppend(a, b[..|b| - 1], step);
      calc {
        ModulesIn(a + b, step);
        ModulesIn(a + b[..|b| - 1], step) + last;
        ModulesIn(a, step) + ModulesIn(b[..|b| - 1], step) + last;
        ModulesIn(a, step) + (ModulesIn(b[..|b| - 1], step) + last);
        ModulesIn(a, step) + ModulesIn(b, step);
      }
    }
  }

  lemma {:induction false} ModulesInEvents(step: Step, ms: seq<Module>, step': Step)
    ensures ModulesIn(Events(step, ms), step') == if step == step' then ms else []
  {
    if |ms| > 0 {
      assert Events(step, ms)[..|ms| - 1] == Events(step, ms[..|ms| - 1]);
      ModulesInEvents(step, ms[..|ms| - 1], step');
    }
  }

  lemma {:induction false} ModulesInCloses(qs: seq<Queue>, step: Step)
    ensures ModulesIn(Closes(qs), step) == []
  {
    if |qs| > 0 {
      assert Closes(qs)[..|qs| - 1] == Closes(qs[..|qs| - 1]);
      ModulesInCloses(qs[..|qs| - 1], step);
    }
  }

  /** The stop sequence written out in `stop` is the start sequence of the
      constructor and `run` backwards. */
  lemma StopOrderReversesStartOrder()
    ensures StopOrder == Reverse(StartOrder)
  {
    forall k | 0 <= k < |StartOrder|
      ensures Reverse(StartOrder)[k] == StopOrder[k]
    {
      ReverseAt(StartOrder, k);
    }
  }

  /** The log of constructing, running and stopping the wrapper. */
  function LifecycleLog(): seq<Event>
  {
    Events(StartModule, StartOrder) + Closes(CloseOrder) + Events(StopModule, StopOrder) + Events(JoinThread, StartOrder)
  }

  lemma LifecycleModules(step: Step)
    ensures ModulesIn(LifecycleLog(), step) ==
            (if step == StartModule then StartOrder else []) + (if step == StopModule then StopOrder else [])
            + (if step == JoinThread then StartOrder else [])
  {
    var a := Events(StartModule, StartOrder);
    var b := Closes(CloseOrder);
    var c := Events(StopModule, StopOrder);
    var d := Events(JoinThread, StartOrder);
    ModulesInAppend(a, b, step);
    ModulesInAppend(a + b, c, step);
    ModulesInAppend((a + b) + c, d, step);
    ModulesInCloses(CloseOrder, step);
    ModulesInEvents(StartModule, StartOrder, step);
    ModulesInEvents(StopModule, StopOrder, step);
    ModulesInEvents(JoinThread, StartOrder, step);
  }

  /** `LifecycleLog` is what the constructor, `Run` and `Stop` append, one
      after the other, to the wrapper's log. */
  lemma WrapperLogIsLifecycleLog()
    ensures Events(StartModule, ConstructorStarts) + Events(StartModule, RunStarts) + Closes(CloseOrder)
            + Events(StopModule, StopOrder) + Events(JoinThread, ConstructorStarts + RunStarts) == LifecycleLog()
  {
    assert Events(StartModule, ConstructorStarts) + Events(StartModule, RunStarts) == Events(StartModule, StartOrder);
  }

  /** Across the whole lifecycle, modules are stopped in exactly the reverse
      of the order they were started in, no module is stopped before every
      queue has been closed, and the thread of every started module is
      joined, in start order. */
  lemma LifecycleOrder()
    ensures ModulesIn(LifecycleLog(), StopModule) == Reverse(ModulesIn(LifecycleLog(), StartModule))
    ensures ModulesIn(LifecycleLog(), JoinThread) == ModulesIn(LifecycleLog(), StartModule) == StartOrder
    ensures QueuesClosed(LifecycleLog()) == set q: Queue | q in CloseOrder
    ensures var log := LifecycleLog();
            forall i, j :: (0 <= i < |log| && 0 <= j < |log| && log[i].CloseQueue? && log[j].ModuleEvent?
                            && log[j].step == StopModule) ==> i < j
  {
    LifecycleModules(StartModule);
    LifecycleModules(StopModule);
    LifecycleModules(JoinThread);
    StopOrderReversesStartOrder();
    assert ModulesIn(LifecycleLog(), StartModule) == StartOrder;
    assert ModulesIn(LifecycleLog(), StopModule) == StopOrder;
    var log := LifecycleLog();
    var n := |StartOrder|;
    forall q: Queue | q in CloseOrder
      ensures q in QueuesClosed(log)
    {
      var k :| 0 <= k < |CloseOrder| && CloseOrder[k] == q;
      assert log[n + k] == CloseQueue(q);
    }
    forall i | 0 <= i < |log|
      ensures log[i].CloseQueue? <==> n <= i < n + |CloseOrder|
      ensures log[i].ModuleEvent? && log[i].step == StopModule <==> n + |CloseOrder| <= i < 2 * n + |CloseOrder|
    {
    }
  }

  datatype PrefixUpdateCommand = AddPrefixes | WithdrawPrefixes

  datatype PrefixUpdateRequest = PrefixUpdateRequest(cmd: PrefixUpdateCommand, prefixes: seq<PrefixEntry>)

  /** One interface as the test hands it to Spark. */
  datatype SparkInterfaceEntry = SparkInterfaceEntry(
    ifName: string, ifIndex: int, v4Network: IpPrefix, v6LinkLocalNetwork: IpPrefix)

  datatype InterfaceInfo = InterfaceInfo(isUp: bool, ifIndex: int, networks: seq<IpPrefix>)

  datatype InterfaceDatabase = InterfaceDatabase(thisNodeName: string, interfaces: map<string, InterfaceInfo>)

  datatype UnicastRoute = UnicastRoute(dest: IpPrefix, nextHops: seq<NextHop>)

  datatype RouteDatabase = RouteDatabase(thisNodeName: string, unicastRoutes: seq<UnicastRoute>)

  /** The interface record built for one entry: always up, with the entry's
      index and its two networks. */
  function InfoOf(e: SparkInterfaceEntry): InterfaceInfo
  {
    InterfaceInfo(true, e.ifIndex, [e.v4Network, e.v6LinkLocalNetwork])
  }

  /** The interfaces of `entries` by name; an interface name that occurs
      twice keeps the record of its first occurrence. */
  function Interfaces(entries: seq<SparkInterfaceEntry>): map<string, InterfaceInfo>
  {
    if |entries| == 0 then map[]
    else
      var e := entries[|entries| - 1];
      var m := Interfaces(entries[..|entries| - 1]);
      if e.ifName in m then m else m[e.ifName := InfoOf(e)]
  }

  /** Every entry's name is a key of `Interfaces(entries)`, and nothing
      else is; each key holds the record of the first entry with that name. */
  lemma {:induction false} InterfacesFirstWins(entries: seq<SparkInterfaceEntry>, name: string)
    ensures name in Interfaces(entries) <==> exists i :: 0 <= i < |entries| && entries[i].ifName == name
    ensures name in Interfaces(entries) ==>
              exists i :: 0 <= i < |entries| && entries[i].ifName == name && Interfaces(entries)[name] == InfoOf(entries[i])
                          && forall j :: 0 <= j < i ==> entries[j].ifName != name
  {
    if |entries| > 0 {
      var pre := entries[..|entries| - 1];
      var e := entries[|entries| - 1];
      InterfacesFirstWins(pre, name);
      if name in Interfaces(pre) {
        var i :| 0 <= i < |pre| && pre[i].ifName == name && Interfaces(pre)[name] == InfoOf(pre[i])
                 && forall j :: 0 <= j < i ==> pre[j].ifName != name;
        assert entries[i] == pre[i];
        assert forall j :: 0 <= j < i ==> entries[j] == pre[j];
      } else {
        assert forall j :: 0 <= j < |pre| ==> entries[j] == pre[j];
        if e.ifName == name {
          assert entries[|entries| - 1].ifName == name;
        }
      }
    }
  }

  /** The prefix of the first prefix-allocator entry, if any. */
  function AllocatedPrefix(entries: seq<PrefixEntry>): (r: Option<IpPrefix>)
    ensures r.None? <==> forall i :: 0 <= i < |entries| ==> entries[i].prefixType != PrefixAllocator
    ensures r.Some? ==>
              exists i :: 0 <= i < |entries| && entries[i].prefixType == PrefixAllocator
                          && entries[i].prefix == r.value
                          && forall j :: 0 <= j < i ==> entries[j].prefixType != PrefixAllocator
  {
    if |entries| == 0 then None
    else if entries[0].prefixType == PrefixAllocator then Some(entries[0].prefix)
    else
      var r := AllocatedPrefix(entries[1..]);
      assert r.Some? ==> exists i :: 1 <= i < |entries| && entries[i].prefixType == PrefixAllocator
                                     && entries[i].prefix == r.value
                                     && forall j :: 0 <= j < i ==> entries[j].prefixType != PrefixAllocator by {
        if r.Some? {
          var i :| 0 <= i < |entries[1..]| && entries[1..][i].prefixType == PrefixAllocator
                   && entries[1..][i].prefix == r.value
                   && forall j :: 0 <= j < i ==> entries[1..][j].prefixType != PrefixAllocator;
          assert forall j :: 0 <= j < i + 1 ==> entries[j].prefixType != PrefixAllocator by {
            forall j | 0 <= j < i + 1
              ensures entries[j].prefixType != PrefixAllocator
            {
              if j > 0 { assert entries[j] == entries[1..][j - 1]; }
            }
          }
        }
      }
      assert r.None? ==> forall i :: 0 <= i < |entries| ==> entries[i].prefixType != PrefixAllocator by {
        if r.None? {
          forall i | 0 <= i < |entries|
            ensures entries[i].prefixType != PrefixAllocator
          {
            if i > 0 { assert entries[i] == entries[1..][i - 1]; }
          }
        }
      }
      r
  }

  /** Whether a dumped prefix database can supply the allocated prefix: it
      is not being deleted and holds a prefix-allocator entry. */
  predicate Supplies(db: PrefixDatabase)
  {
    !db.deletePrefix && AllocatedPrefix(db.prefixEntries).Some?
  }

  /** The allocated prefix found in a store dump, visited in `dump` order:
      the one of the last database that supplies one. */
  function DumpedPrefix(dump: seq<(string, PrefixDatabase)>): Option<IpPrefix>
  {
    if |dump| == 0 then None
    else if Supplies(dump[|dump| - 1].1) then AllocatedPrefix(dump[|dump| - 1].1.prefixEntries)
    else DumpedPrefix(dump[..|dump| - 1])
  }

  /** `DumpedPrefix` finds nothing exactly when no database supplies a
      prefix. */
  lemma {:induction false} DumpedPrefixNone(dump: seq<(string, PrefixDatabase)>)
    ensures DumpedPrefix(dump).None? <==> forall i :: 0 <= i < |dump| ==> !Supplies(dump[i].1)
  {
    if |dump| > 0 {
      var n := |dump| - 1;
      assert forall j :: 0 <= j < n ==> dump[j] == dump[..n][j];
      if !Supplies(dump[n].1) {
        DumpedPrefixNone(dump[..n]);
      }
    }
  }

  /** Otherwise it is the prefix of the last database that supplies one. */
  lemma {:induction false} DumpedPrefixLast(dump: seq<(string, PrefixDatabase)>, i: nat)
    requires i < |dump| && Supplies(dump[i].1)
    requires forall j :: i < j < |dump| ==> !Supplies(dump[j].1)
    ensures DumpedPrefix(dump) == AllocatedPrefix(dump[i].1.prefixEntries)
  {
    var n := |dump| - 1;
    if i < n {
      assert forall j :: 0 <= j < n ==> dump[j] == dump[..n][j];
      DumpedPrefixLast(dump[..n], i);
    }
  }

  /** Looks for the first prefix-allocator entry of `entries`. */
  method FindAllocatedPrefix(entries: seq<PrefixEntry>) returns (r: Option<IpPrefix>)
    ensures r == AllocatedPrefix(entries)
  {
    r := None;
    for i := 0 to |entries|
      invariant forall j :: 0 <= j < i ==> entries[j].prefixType != PrefixAllocator
    {
      if entries[i].prefixType == PrefixAllocator {
        r := Some(entries[i].prefix);
        assert r == AllocatedPrefix(entries[i..]);
        AllocatedPrefixSkips(entries, i);
        return;
      }
    }
    AllocatedPrefixSkips(entries, |entries|);
  }

  lemma {:induction false} AllocatedPrefixSkips(entries: seq<PrefixEntry>, i: nat)
    requires i <= |entries|
    requires forall j :: 0 <= j < i ==> entries[j].prefixType != PrefixAllocator
    ensures AllocatedPrefix(entries) == AllocatedPrefix(entries[i..])
  {
    if i > 0 {
      assert entries[1..][i - 1..] == entries[i..];
      AllocatedPrefixSkips(entries[1..], i - 1);
    }
  }

  /** Whether some unicast route of `routeDb` is for `prefix`. */
  method CheckPrefixExists(prefix: IpPrefix, routeDb: RouteDatabase) returns (r: bool)
    ensures r <==> exists i :: 0 <= i < |routeDb.unicastRoutes| && routeDb.unicastRoutes[i].dest == prefix
  {
    for i := 0 to |routeDb.unicastRoutes|
      invariant forall j :: 0 <= j < i ==> routeDb.unicastRoutes[j].dest != prefix
    {
      if prefix == routeDb.unicastRoutes[i].dest {
        return true;
      }
    }
    return false;
  }

  class OpenrWrapper {
    const nodeId: string
    /** `ipPrefix_`: the cached allocated prefix of this node. */
    var ipPrefix: Option<IpPrefix>
    /** Module starts and stops, queue closes and thread joins, in order. */
    var log: seq<Event>
    /** `allThreads_`: one thread per started module, in start order. */
    var threads: seq<Module>
    var closed: set<Queue>
    /** The messages pushed on the prefix-update and interface queues. */
    var prefixUpdates: seq<PrefixUpdateRequest>
    var interfaceUpdates: seq<InterfaceDatabase>

    /** Starts the config store and then the key-value store, each on its
      own thread, with an empty prefix cache. */
    constructor (nodeId: string)
      ensures this.nodeId == nodeId && ipPrefix == None
      ensures log == Events(StartModule, ConstructorStarts) && threads == ConstructorStarts
      ensures closed == {} && prefixUpdates == [] && interfaceUpdates == []
    {
      this.nodeId := nodeId;
      ipPrefix := None;
      log := [ModuleEvent(StartModule, ConfigStore), ModuleEvent(StartModule, KvStore)];
      threads := [ConfigStore, KvStore];
      closed := {};
      prefixUpdates := [];
      interfaceUpdates := [];
    }

    method Start(m: Module)
      modifies this
      ensures log == old(log) + [ModuleEvent(StartModule, m)] && threads == old(threads) + [m]
      ensures ipPrefix == old(ipPrefix) && closed == old(closed)
      ensures prefixUpdates == old(prefixUpdates) && interfaceUpdates == old(interfaceUpdates)
    {
      log := log + [ModuleEvent(StartModule, m)];
      threads := threads + [m];
    }

    method Halt(m: Module)
      modifies this
      ensures log == old(log) + [ModuleEvent(StopModule, m)] && threads == old(threads)
      ensures ipPrefix == old(ipPrefix) && closed == old(closed)
      ensures prefixUpdates == old(prefixUpdates) && interfaceUpdates == old(interfaceUpdates)
    {
      log := log + [ModuleEvent(StopModule, m)];
    }

    method Close(q: Queue)
      modifies this
      ensures log == old(log) + [CloseQueue(q)] && closed == old(closed) + {q} && threads == old(threads)
      ensures ipPrefix == old(ipPrefix)
      ensures prefixUpdates == old(prefixUpdates) && interfaceUpdates == old(interfaceUpdates)
    {
      log := log + [CloseQueue(q)];
      closed := closed + {q};
    }

    /** Starts the remaining modules, each on its own thread, in order. */
    method Run()
      modifies this
      ensures log == old(log) + Events(StartModule, RunStarts) && threads == old(threads) + RunStarts
      ensures ipPrefix == old(ipPrefix) && closed == old(closed)
      ensures prefixUpdates == old(prefixUpdates) && interfaceUpdates == old(interfaceUpdates)
    {
      Start(Monitor);
      Start(PrefixManager);
      Start(PrefixAllocatorModule);
      Start(Spark);
      Start(LinkMonitor);
      Start(DecisionModule);
      Start(Fib);
      Start(Watchdog);
      Start(EventBase);
    }

    /** Closes every queue of the wrapper. */
    method CloseQueues()
      modifies this
      ensures log == old(log) + Closes(CloseOrder) && closed == old(closed) + set q: Queue | q in CloseOrder
      ensures threads == old(threads) && ipPrefix == old(ipPrefix)
      ensures prefixUpdates == old(prefixUpdates) && interfaceUpdates == old(interfaceUpdates)
    {
      Close(RouteUpdates);
      Close(PeerUpdates);
      Close(InterfaceUpdates);
      Close(NeighborUpdates);
      Close(PrefixUpdates);
      Close(KvStoreUpdates);
      Close(StaticRoutesQueue);
    }

    /** Stops every module, from the last started to the first. */
    method StopModules()
      modifies this
      ensures log == old(log) + Events(StopModule, StopOrder)
      ensures closed == old(closed) && threads == old(threads) && ipPrefix == old(ipPrefix)
      ensures prefixUpdates == old(prefixUpdates) && interfaceUpdates == old(interfaceUpdates)
    {
      Halt(EventBase);
      Halt(Watchdog);
      Halt(Fib);
      Halt(DecisionModule);
      Halt(LinkMonitor);
      Halt(Spark);
      Halt(PrefixAllocatorModule);
      Halt(PrefixManager);
      Halt(Monitor);
      Halt(KvStore);
      Halt(ConfigStore);
    }

    /** Joins every thread, in the order the threads were started. */
    method JoinThreads()
      modifies this
      ensures log == old(log) + Events(JoinThread, threads)
      ensures closed == old(closed) && threads == old(threads) && ipPrefix == old(ipPrefix)
      ensures prefixUpdates == old(prefixUpdates) && interfaceUpdates == old(interfaceUpdates)
    {
      for i := 0 to |threads|
        invariant threads == old(threads)
        invariant log == old(log) + Events(JoinThread, threads[..i])
        invariant closed == old(closed) && ipPrefix == old(ipPrefix)
        invariant prefixUpdates == old(prefixUpdates) && interfaceUpdates == old(interfaceUpdates)
      {
        log := log + [ModuleEvent(JoinThread, threads[i])];
        assert Events(JoinThread, threads[..i + 1]) == Events(JoinThread, threads[..i]) + [ModuleEvent(JoinThread, threads[i])];
      }
      assert threads[..|threads|] == threads;
    }

    /** Closes every queue, then stops the modules from the last started to
      the first, then joins every thread in the order they were started. */
    method Stop()
      modifies this
      ensures log == old(log) + Closes(CloseOrder) + Events(StopModule, StopOrder)
                     + Events(JoinThread, old(threads))
      ensures closed == old(closed) + set q: Queue | q in CloseOrder
      ensures threads == old(threads) && ipPrefix == old(ipPrefix)
      ensures prefixUpdates == old(prefixUpdates) && interfaceUpdates == old(interfaceUpdates)
    {
      CloseQueues();
      StopModules();
      JoinThreads();
    }

    /** The subscription callback on this node's prefix key: a missing value
      leaves the cache alone; otherwise the cache becomes the prefix of the
      database's first prefix-allocator entry, or empty when it has none. */
    method OnPrefixDbUpdate(value: Option<PrefixDatabase>)
      modifies this
      ensures value.None? ==> ipPrefix == old(ipPrefix)
      ensures value.Some? ==> ipPrefix == AllocatedPrefix(value.value.prefixEntries)
      ensures log == old(log) && threads == old(threads) && closed == old(closed)
      ensures prefixUpdates == old(prefixUpdates) && interfaceUpdates == old(interfaceUpdates)
    {
      if value.None? {
        return;
      }
      var p := FindAllocatedPrefix(value.value.prefixEntries);
      ipPrefix := p;
    }

    /** Returns the cached prefix when there is one, without consulting the
      store. Otherwise scans `dump`, the store's databases under this node's
      prefix key in its enumeration order, and caches and returns what
      `DumpedPrefix` finds. */
    method GetIpPrefix(dump: seq<(string, PrefixDatabase)>) returns (r: Option<IpPrefix>)
      modifies this
      ensures r == ipPrefix
      ensures old(ipPrefix).Some? ==> ipPrefix == old(ipPrefix)
      ensures old(ipPrefix).None? ==> ipPrefix == DumpedPrefix(dump)
      ensures log == old(log) && threads == old(threads) && closed == old(closed)
      ensures prefixUpdates == old(prefixUpdates) && interfaceUpdates == old(interfaceUpdates)
    {
      if ipPrefix.Some? {
        return ipPrefix;
      }
      for i := 0 to |dump|
        invariant ipPrefix == DumpedPrefix(dump[..i])
        invariant log == old(log) && threads == old(threads) && closed == old(closed)
        invariant prefixUpdates == old(prefixUpdates) && interfaceUpdates == old(interfaceUpdates)
      {
        assert dump[..i + 1][..i] == dump[..i];
        var db := dump[i].1;
        if db.deletePrefix {
          continue;
        }
        var p := FindAllocatedPrefix(db.prefixEntries);
        if p.Some? {
          ipPrefix := p;
        }
      }
      assert dump[..|dump|] == dump;
      return ipPrefix;
    }

    /** Hands Spark one interface database holding every entry, keyed by
      interface name. A push on a closed queue is dropped. */
    method SparkUpdateInterfaceDb(entries: seq<SparkInterfaceEntry>) returns (r: bool)
      modifies this
      ensures r
      ensures InterfaceUpdates !in closed ==>
                interfaceUpdates == old(interfaceUpdates) + [InterfaceDatabase(nodeId, Interfaces(entries))]
      ensures InterfaceUpdates in closed ==> interfaceUpdates == old(interfaceUpdates)
      ensures ipPrefix == old(ipPrefix) && log == old(log) && threads == old(threads) && closed == old(closed)
      ensures prefixUpdates == old(prefixUpdates)
    {
      var interfaces: map<string, InterfaceInfo> := map[];
      for i := 0 to |entries|
        invariant interfaces == Interfaces(entries[..i])
      {
        assert entries[..i + 1][..i] == entries[..i];
        var e := entries[i];
        if e.ifName !in interfaces {
          interfaces := interfaces[e.ifName := InterfaceInfo(true, e.ifIndex, [e.v4Network, e.v6LinkLocalNetwork])];
        }
      }
      assert entries[..|entries|] == entries;
      if InterfaceUpdates !in closed {
        interfaceUpdates := interfaceUpdates + [InterfaceDatabase(nodeId, interfaces)];
      }
      return true;
    }

    /** Queues one request to advertise `prefixes`. */
    method AddPrefixEntries(prefixes: seq<PrefixEntry>) returns (r: bool)
      modifies this
      ensures r
      ensures PrefixUpdates !in closed ==>
                prefixUpdates == old(prefixUpdates) + [PrefixUpdateRequest(AddPrefixes, prefixes)]
      ensures PrefixUpdates in closed ==> prefixUpdates == old(prefixUpdates)
      ensures ipPrefix == old(ipPrefix) && log == old(log) && threads == old(threads) && closed == old(closed)
      ensures interfaceUpdates == old(interfaceUpdates)
    {
      if PrefixUpdates !in closed {
        prefixUpdates := prefixUpdates + [PrefixUpdateRequest(AddPrefixes, prefixes)];
      }
      return true;
    }

    /** Queues one request to withdraw `prefixes`. */
    method WithdrawPrefixEntries(prefixes: seq<PrefixEntry>) returns (r: bool)
      modifies this
      ensures r
      ensures PrefixUpdates !in closed ==>
                prefixUpdates == old(prefixUpdates) + [PrefixUpdateRequest(WithdrawPrefixes, prefixes)]
      ensures PrefixUpdates in closed ==> prefixUpdates == old(prefixUpdates)
      ensures ipPrefix == old(ipPrefix) && log == old(log) && threads == old(threads) && closed == old(closed)
      ensures interfaceUpdates == old(interfaceUpdates)
    {
      if PrefixUpdates !in closed {
        prefixUpdates := prefixUpdates + [PrefixUpdateRequest(WithdrawPrefixes, prefixes)];
      }
      return true;
    }
  }

  /** A wrapper's whole life: construction, `run` and `stop`. Its log is
      the lifecycle log, so the order properties of `LifecycleOrder` hold
      of the object itself: every queue is closed, the modules stop in the
      reverse of their start order, and every started thread is joined. */
  method Lifecycle(nodeId: string) returns (w: OpenrWrapper)
    ensures w.nodeId == nodeId && w.log == LifecycleLog()
    ensures w.closed == set q: Queue | q in CloseOrder
    ensures ModulesIn(w.log, StopModule) == Reverse(ModulesIn(w.log, StartModule))
    ensures ModulesIn(w.log, JoinThread) == ModulesIn(w.log, StartModule) == StartOrder
  {
    w := new OpenrWrapper(nodeId);
    w.Run();
    w.Stop();
    WrapperLogIsLifecycleLog();
    LifecycleOrder();
  }
}
