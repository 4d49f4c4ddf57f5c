/** The snapshot of the machine that topology discovery has found. */
module DiscoveredSystem {
  import opened Words
  import opened SharedMemory
  import Q = CoreTaskQueues
  import opened CounterStates
  import opened Snapshot
  import opened Aggregation
  import T = Topology

  /** `m` is the machine as discovery describes it; the MSR lists and the number
      of system registers are configured elsewhere. */
  ghost predicate Describes(m: Machine, topology: seq<T.Entry>, refCore: seq<int>) {
    && |m.online| == |m.socket| == |topology|
    && m.refCore == refCore
    && forall c :: 0 <= c < |topology| ==>
         && m.online[c] == T.Online(topology[c])
         && (m.online[c] ==> m.socket[c] == topology[c].socket)
  }

  /** Discovery with at least one processor that could be read establishes what
      the collection relies on: a valid machine whose sockets all have an online
      reference core of their own. */
  lemma DiscoveryEstablishesRefCores(m: Machine, present: nat, processors: seq<T.Processor>, topology: seq<T.Entry>,
                                     refCore: seq<int>)
    requires T.ValidProcessors(present, processors) && T.Reachable(processors) > 0
    requires T.Discovered(T.Populated(present, processors), topology, refCore) && Describes(m, topology, refCore)
    ensures RefCoresOnline(m)
  {
    var found := T.Populated(present, processors);
    T.AllSocketsOnline(present, processors, topology, refCore);
    T.CountOfAll(refCore);
    T.RenumberedIsInRange(found);
    T.ReachableProcessorsAreOnline(present, processors);
    forall s | 0 <= s < |refCore|
      ensures 0 <= refCore[s] < |topology| && T.OnSocket(topology, refCore[s], s)
    {
      assert T.IsReferenceCore(topology, |topology|, s, refCore[s]);
    }
  }

  /** On such a machine, whatever the interleaving of the workers and the caller, the
      folded system and socket states equal the direct reads. */
  lemma SnapshotIsDirectRead(m: Machine, r: Readings, start: Q.State<Loc>, schedule: seq<Q.Step>, f: Field)
    requires RefCoresOnline(m) && Summable(m, r, f)
    requires Q.Initial(CallConfig(m, r, true), start) && Q.After(CallConfig(m, r, true), start, schedule).Some?
    requires Q.Complete(CallConfig(m, r, true), Q.After(CallConfig(m, r, true), start, schedule).value)
    ensures var mem := Q.After(CallConfig(m, r, true), start, schedule).value.mem;
      && AfterSockets(m, mem, |m.refCore|, Loc(SystemState, f)) == Get(SystemCounterState(m, r), Loc(ResultState, f))
      && forall s :: 0 <= s < |m.refCore| ==>
           AfterSockets(m, mem, |m.refCore|, Loc(SocketState(s), f))
           == Get(SocketCounterState(m, r, s), Loc(ResultState, f))
  {
    AnyInterleavingReadsTheSame(m, r, true, start, schedule);
    SystemSnapshotIsDirectRead(m, r, f);
    forall s | 0 <= s < |m.refCore|
      ensures AllCounterStates(m, r, true, Loc(SocketState(s), f))
           == Get(SocketCounterState(m, r, s), Loc(ResultState, f))
    {
      SocketSnapshotIsDirectRead(m, r, s, f);
    }
  }
}
