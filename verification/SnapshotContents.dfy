/** Every member of the states that PCM::getAllCounterStates returns, those that are set
    rather than summed included, and where the tasks have run. */
module SnapshotContents {
  import opened Words
  import opened SharedMemory
  import Q = CoreTaskQueues
  import opened CounterStates
  import opened Snapshot
  import opened Aggregation

  /** The members that every core's state has, the MSRValues entries aside. */
  predicate PerCore(f: Field) {
    f.Plain? || f.MemoryBWLocal? || f.MemoryBWTotal? || f.L3Occupancy? || f.ThermalHeadroom?
  }

  /** What the state of an online core holds. */
  function OfOneCore(m: Machine, r: Readings, c: nat, f: Field): u64 {
    if PerCore(f) || (f.MSRValue? && f.index in m.coreMsrs + m.threadMsrConfig) then r.core(c, f) else 0
  }

  /** What is read once per socket into its state. */
  function OfOneSocket(m: Machine, r: Readings, s: nat, f: Field): u64 {
    if || f.Uncore? || f.ThermalHeadroom?
       || (f.MSRValue? && f.index in m.thermalMsrs + m.packageMsrConfig)
       || (f.PPEnergyStatus? && s == 0 && f.plane <= 1)
    then r.socket(s, f) else 0
  }

  // ---------------------------------------------------------- what one task leaves

  /** A core read sets or adds to each of its members, from 0 either way to the reading. */
  lemma CoreReadLeaves(r: Readings, c: nat, h: Holder, cpu: Cpu<Loc>, f: Field)
    requires Get(cpu.mem, Loc(h, f)) == 0
    ensures Get(Run(CoreReadCode(r, c, h), cpu).mem, Loc(h, f)) == if PerCore(f) then r.core(c, f) else 0
  {
    var actions := BasicActions(r, c);
    BasicActionsDistinct(r, c);
    CodesEffect(actions, h, FromCore(r, c), cpu, Loc(h, f));
    if PerCore(f) {
      CoreReadContains(r, c, f);
      var k :| 0 <= k < |actions| && actions[k].field == f;
    } else {
      CoreReadHasOnly(r, c);
    }
  }

  lemma CoreReadContains(r: Readings, c: nat, f: Field)
    requires PerCore(f)
    ensures exists k :: 0 <= k < |BasicActions(r, c)| && BasicActions(r, c)[k].field == f
  {
    var actions := BasicActions(r, c);
    if f.Plain? {
      CoreCountersAreNumbered(0, f.core);
      assert actions[CoreCounterRank(f.core)].field == f;
    } else {
      assert actions[CORE_COUNTERS].field == MemoryBWLocal && actions[CORE_COUNTERS + 1].field == MemoryBWTotal;
      assert actions[CORE_COUNTERS + 2].field == L3Occupancy && actions[CORE_COUNTERS + 3].field == ThermalHeadroom;
    }
  }

  lemma CoreReadHasOnly(r: Readings, c: nat)
    ensures forall k :: 0 <= k < |BasicActions(r, c)| ==> PerCore(BasicActions(r, c)[k].field)
  {
  }

  lemma CoreTaskLeaves(m: Machine, r: Readings, uncore: bool, c: nat, cpu: Cpu<Loc>, f: Field)
    requires ValidMachine(m) && KindExists(m, uncore, OfCore(c)) && Get(cpu.mem, Loc(CoreState(c), f)) == 0
    ensures Get(Run(TaskCode(m, r, uncore, OfCore(c)), cpu).mem, Loc(CoreState(c), f)) == OfOneCore(m, r, c, f)
  {
    var l, source := Loc(CoreState(c), f), FromCore(r, c);
    var readCode := CoreReadCode(r, c, CoreState(c));
    var package := if uncore then PackageCode(SocketState(m.socket[c]), source, MAX_C_STATE + 1) else [];
    var indices := m.coreMsrs + m.threadMsrConfig;
    RunAppends(readCode + package, MsrCode(indices, {}, CoreState(c), source), cpu);
    RunAppends(readCode, package, cpu);
    CoreReadLeaves(r, c, CoreState(c), cpu, f);
    RunKeeps(package, Run(readCode, cpu), l);
    MsrEffect(indices, {}, CoreState(c), source, Run(readCode + package, cpu), l);
  }

  lemma SocketTaskLeaves(m: Machine, r: Readings, s: nat, cpu: Cpu<Loc>, f: Field)
    requires ValidMachine(m) && KindExists(m, true, OfSocket(s)) && Get(cpu.mem, Loc(SocketState(s), f)) == 0
    requires !f.PackageCState?
    ensures Get(Run(TaskCode(m, r, true, OfSocket(s)), cpu).mem, Loc(SocketState(s), f)) == OfOneSocket(m, r, s, f)
  {
    var l, source := Loc(SocketState(s), f), FromSocket(r, s);
    var readCode, indices := SocketReadCode(r, s, SocketState(s)), m.thermalMsrs + m.packageMsrConfig;
    RunAppends(readCode, MsrCode(indices, {}, SocketState(s), source), cpu);
    SocketActionsDistinct(s, SocketActions(s));
    CodesEffect(SocketActions(s), SocketState(s), source, cpu, l);
    SocketReadHas(s, f);
    MsrEffect(indices, {}, SocketState(s), source, Run(readCode, cpu), l);
  }

  // ------------------------------------------------------------- what all tasks leave

  /** The record a task writes on its own. */
  function Own(kind: Kind): Holder {
    match kind
    case OfCore(c) => CoreState(c)
    case OfSocket(s) => SocketState(s)
  }

  function OfTask(m: Machine, r: Readings, kind: Kind, f: Field): u64 {
    match kind
    case OfCore(c) => OfOneCore(m, r, c, f)
    case OfSocket(s) => OfOneSocket(m, r, s, f)
  }

  lemma TaskKeepsOthers(m: Machine, r: Readings, uncore: bool, kind: Kind, cpu: Cpu<Loc>, l: Loc)
    requires ValidMachine(m) && KindExists(m, uncore, kind)
    requires l.holder != Own(kind) && !l.field.PackageCState?
    ensures Get(Run(TaskCode(m, r, uncore, kind), cpu).mem, l) == Get(cpu.mem, l)
  {
    TasksKeepToTheirOwn(m, r, uncore, kind);
    RunKeeps(TaskCode(m, r, uncore, kind), cpu, l);
  }

  lemma TaskLeaves(m: Machine, r: Readings, uncore: bool, kind: Kind, cpu: Cpu<Loc>, f: Field)
    requires ValidMachine(m) && KindExists(m, uncore, kind) && !f.PackageCState?
    requires Get(cpu.mem, Loc(Own(kind), f)) == 0
    ensures Get(Run(TaskCode(m, r, uncore, kind), cpu).mem, Loc(Own(kind), f)) == OfTask(m, r, kind, f)
  {
    match kind
    case OfCore(c) => CoreTaskLeaves(m, r, uncore, c, cpu, f);
    case OfSocket(s) => SocketTaskLeaves(m, r, s, cpu, f);
  }

  lemma {:induction false} TasksLeave(m: Machine, r: Readings, uncore: bool, kinds: seq<Kind>,
                                      codes: seq<Program<Loc>>, l: Loc, owner: Kind)
    requires ValidMachine(m) && !l.field.PackageCState? && (l.holder == Own(owner) || l.holder == SystemState)
    requires |codes| == |kinds|
    requires forall k :: 0 <= k < |kinds| ==>
      KindExists(m, uncore, kinds[k]) && codes[k] == TaskCode(m, r, uncore, kinds[k])
    requires forall j, k :: 0 <= j < k < |kinds| ==> kinds[j] != kinds[k]
    ensures Get(Q.RunAll(codes, map[]), l)
         == if l.holder == Own(owner) && owner in kinds then OfTask(m, r, owner, l.field) else 0
  {
    if kinds != [] {
      var n := |kinds| - 1;
      TasksLeave(m, r, uncore, kinds[..n], codes[..n], l, owner);
      var cpu := Cpu(Q.RunAll(codes[..n], map[]), 0);
      if l.holder == Own(kinds[n]) {
        assert owner == kinds[n];
        TaskLeaves(m, r, uncore, kinds[n], cpu, l.field);
      } else {
        TaskKeepsOthers(m, r, uncore, kinds[n], cpu, l);
        assert owner in kinds <==> owner in kinds[..n] || owner == kinds[n];
      }
    }
  }

  /** The caller stores its own reads into the registers of systemState. */
  lemma {:induction false} RegistersAreStored(p: Program<Loc>, r: Readings, n: nat, cpu: Cpu<Loc>, l: Loc)
    requires n <= |p| && forall i :: 0 <= i < n ==> p[i] == Store(Loc(SystemState, Register(i)), r.system(i))
    ensures Get(Run(p[..n], cpu).mem, l)
         == if l.holder == SystemState && l.field.Register? && l.field.number < n then r.system(l.field.number)
            else Get(cpu.mem, l)
  {
    if n > 0 {
      RegistersAreStored(p, r, n - 1, cpu, l);
      assert p[..n][..n - 1] == p[..n - 1];
    }
  }

  lemma CallerLeaves(m: Machine, r: Readings, uncore: bool, cpu: Cpu<Loc>, l: Loc)
    ensures Get(Run(CallerCode(m, r, uncore), cpu).mem, l)
         == if uncore && l.holder == SystemState && l.field.Register? && l.field.number < m.systemRegisters
            then r.system(l.field.number) else Get(cpu.mem, l)
  {
    if uncore {
      var p := CallerCode(m, r, true);
      RegistersAreStored(p, r, m.systemRegisters, cpu, l);
      assert p[..m.systemRegisters] == p;
    }
  }

  lemma CollectedByTasks(m: Machine, r: Readings, uncore: bool, l: Loc, owner: Kind)
    requires ValidMachine(m) && !l.field.PackageCState? && (l.holder == Own(owner) || l.holder == SystemState)
    ensures Get(Collected(m, r, uncore), l)
         == if l.holder == Own(owner) then if owner in Kinds(m, uncore) then OfTask(m, r, owner, l.field) else 0
            else if uncore && l.field.Register? && l.field.number < m.systemRegisters then r.system(l.field.number)
            else 0
  {
    var kinds, codes := Kinds(m, uncore), Q.Codes(CallConfig(m, r, uncore));
    var taskCodes := codes[..|kinds|];
    KindsAreDistinct(m, uncore);
    TasksLeave(m, r, uncore, kinds, taskCodes, l, owner);
    assert codes[..|codes| - 1] == taskCodes && codes[|codes| - 1] == CallerCode(m, r, uncore);
    CallerLeaves(m, r, uncore, Cpu(Q.RunAll(taskCodes, map[]), 0), l);
  }

  /** There is a task for every online core, and with the uncore reads for every socket. */
  lemma {:induction false} CoreKindsHave(m: Machine, n: nat, c: nat)
    requires n <= |m.online|
    ensures OfCore(c) in CoreKinds(m, n) <==> c < n && m.online[c]
  {
    if n > 0 {
      CoreKindsHave(m, n - 1, c);
    }
  }

  lemma KindsHave(m: Machine, uncore: bool, kind: Kind)
    requires ValidMachine(m)
    ensures kind in Kinds(m, uncore) <==>
      match kind
      case OfCore(c) => c < |m.online| && m.online[c]
      case OfSocket(s) => uncore && s < |m.refCore|
  {
    CoreKindsAreCores(m, |m.online|);
    match kind
    case OfCore(c) => CoreKindsHave(m, |m.online|, c);
    case OfSocket(s) =>
      if uncore && s < |m.refCore| {
        assert SocketKinds(|m.refCore|)[s] == kind;
      }
  }

  lemma CollectedOfCore(m: Machine, r: Readings, uncore: bool, c: nat, f: Field)
    requires ValidMachine(m) && !f.PackageCState?
    ensures Get(Collected(m, r, uncore), Loc(CoreState(c), f))
         == if c < |m.online| && m.online[c] then OfOneCore(m, r, c, f) else 0
  {
    CollectedByTasks(m, r, uncore, Loc(CoreState(c), f), OfCore(c));
    KindsHave(m, uncore, OfCore(c));
  }

  lemma CollectedOfSocket(m: Machine, r: Readings, uncore: bool, s: nat, f: Field)
    requires ValidMachine(m) && s < |m.refCore| && !f.PackageCState?
    ensures Get(Collected(m, r, uncore), Loc(SocketState(s), f)) == if uncore then OfOneSocket(m, r, s, f) else 0
  {
    CollectedByTasks(m, r, uncore, Loc(SocketState(s), f), OfSocket(s));
    KindsHave(m, uncore, OfSocket(s));
  }

  // ----------------------------------------------------------------- after the fold

  /** The members that a fold sums over the cores. */
  predicate FoldedOverCores(f: Field) {
    f.Plain? || f.MemoryBWLocal? || f.MemoryBWTotal? || f.L3Occupancy?
  }

  /** What a socket's state holds in the end: sums over its online cores, and what is read
      once per socket. */
  function SocketContent(m: Machine, r: Readings, uncore: bool, s: nat, f: Field): u64
    requires |m.online| == |m.socket|
  {
    if FoldedOverCores(f) then CoreTotal(m, r, f, OnSocket(s), |m.online|)
    else if !uncore then 0
    else if f.PackageCState? then CoreTotal(m, r, f, OnSocket(s), |m.online|)
    else OfOneSocket(m, r, s, f)
  }

  lemma {:induction false} CoresFolded(m: Machine, r: Readings, uncore: bool, n: nat, s: nat, f: Field)
    requires ValidMachine(m) && n <= |m.online| && s < |m.refCore| && FoldedOverCores(f)
    ensures AfterCores(m, Collected(m, r, uncore), n, Loc(SocketState(s), f)) == CoreTotal(m, r, f, OnSocket(s), n)
  {
    if n == 0 {
      CollectedOfSocket(m, r, uncore, s, f);
    } else {
      CoresFolded(m, r, uncore, n - 1, s, f);
      AfterCoresKeeps(m, Collected(m, r, uncore), n - 1, Loc(CoreState(n - 1), f));
      CollectedOfCore(m, r, uncore, n - 1, f);
    }
  }

  lemma SocketHolds(m: Machine, r: Readings, uncore: bool, s: nat, f: Field)
    requires ValidMachine(m) && s < |m.refCore|
    ensures AfterCores(m, Collected(m, r, uncore), |m.online|, Loc(SocketState(s), f))
         == SocketContent(m, r, uncore, s, f)
  {
    var l := Loc(SocketState(s), f);
    if FoldedOverCores(f) {
      CoresFolded(m, r, uncore, |m.online|, s, f);
    } else {
      AfterCoresKeeps(m, Collected(m, r, uncore), |m.online|, l);
      if f.PackageCState? {
        CollectedValues(m, r, uncore, l);
        TotalWithoutUncore(m, r, f, OnSocket(s), |m.online|);
      } else {
        CollectedOfSocket(m, r, uncore, s, f);
      }
    }
  }

  /** The sum of a member over the first `n` sockets. */
  function SocketContents(m: Machine, r: Readings, uncore: bool, f: Field, n: nat): u64
    requires |m.online| == |m.socket|
  {
    if n == 0 then 0 else Plus(SocketContents(m, r, uncore, f, n - 1), SocketContent(m, r, uncore, n - 1, f))
  }

  lemma {:induction false} SocketsFolded(m: Machine, r: Readings, uncore: bool, n: nat, f: Field)
    requires ValidMachine(m) && n <= |m.refCore| && (FoldedOverCores(f) || f.PackageCState? || f.Uncore?)
    ensures AfterSockets(m, Collected(m, r, uncore), n, Loc(SystemState, f)) == SocketContents(m, r, uncore, f, n)
  {
    var collected := Collected(m, r, uncore);
    if n == 0 {
      AfterCoresKeeps(m, collected, |m.online|, Loc(SystemState, f));
      if f.PackageCState? {
        CollectedValues(m, r, uncore, Loc(SystemState, f));
      } else {
        CollectedByTasks(m, r, uncore, Loc(SystemState, f), OfCore(0));
      }
    } else {
      SocketsFolded(m, r, uncore, n - 1, f);
      AfterSocketsKeeps(m, collected, n - 1, Loc(SocketState(n - 1), f));
      SocketHolds(m, r, uncore, n - 1, f);
    }
  }

  /** Sums over the sockets of sums over their cores are sums over all online cores. */
  lemma {:induction false} CoreSumsOfSockets(m: Machine, r: Readings, uncore: bool, f: Field, n: nat)
    requires |m.online| == |m.socket| && (FoldedOverCores(f) || (uncore && f.PackageCState?))
    ensures SocketContents(m, r, uncore, f, n) == SumOverSockets(m, r, f, |m.online|, n)
  {
    if n > 0 {
      CoreSumsOfSockets(m, r, uncore, f, n - 1);
    }
  }

  lemma {:induction false} NothingWithoutUncore(m: Machine, r: Readings, f: Field, n: nat)
    requires |m.online| == |m.socket| && !FoldedOverCores(f)
    ensures SocketContents(m, r, false, f, n) == 0
  {
    if n > 0 {
      NothingWithoutUncore(m, r, f, n - 1);
    }
  }

  /** What the system's state holds in the end: sums over all online cores, sums over the
      sockets, and the registers the caller reads itself. The members that no operator +=
      sums keep their default. */
  function SystemContent(m: Machine, r: Readings, uncore: bool, f: Field): u64
    requires |m.online| == |m.socket|
  {
    if FoldedOverCores(f) then CoreTotal(m, r, f, Everywhere, |m.online|)
    else if !uncore then 0
    else if f.PackageCState? then CoreTotal(m, r, f, Everywhere, |m.online|)
    else if f.Uncore? then SocketReadings(r, f, |m.refCore|)
    else if f.Register? && f.number < m.systemRegisters then r.system(f.number)
    else 0
  }

  function SocketReadings(r: Readings, f: Field, n: nat): u64 {
    if n == 0 then 0 else Plus(SocketReadings(r, f, n - 1), r.socket(n - 1, f))
  }

  lemma {:induction false} SocketReadingsAdd(m: Machine, r: Readings, f: Field, n: nat)
    requires |m.online| == |m.socket| && f.Uncore?
    ensures SocketContents(m, r, true, f, n) == SocketReadings(r, f, n)
  {
    if n > 0 {
      SocketReadingsAdd(m, r, f, n - 1);
    }
  }

  lemma {:induction false} SystemKeeps(m: Machine, mem: Memory<Loc>, n: nat, f: Field)
    requires |m.online| == |m.socket| && !FoldedOverCores(f) && !f.PackageCState? && !f.Uncore?
    ensures AfterSockets(m, mem, n, Loc(SystemState, f)) == Get(mem, Loc(SystemState, f))
  {
    if n > 0 {
      SystemKeeps(m, mem, n - 1, f);
    } else {
      AfterCoresKeeps(m, mem, |m.online|, Loc(SystemState, f));
    }
  }

  lemma SystemHolds(m: Machine, r: Readings, uncore: bool, f: Field)
    requires ValidMachine(m)
    ensures AfterSockets(m, Collected(m, r, uncore), |m.refCore|, Loc(SystemState, f)) == SystemContent(m, r, uncore, f)
  {
    if FoldedOverCores(f) || f.PackageCState? || f.Uncore? {
      SocketsFolded(m, r, uncore, |m.refCore|, f);
      if FoldedOverCores(f) || (uncore && f.PackageCState?) {
        CoreSumsOfSockets(m, r, uncore, f, |m.refCore|);
        CoresArePartitioned(m, r, f, |m.online|, |m.refCore|);
        SumBelowIsEverywhere(m, r, f, |m.online|);
      } else if uncore {
        SocketReadingsAdd(m, r, f, |m.refCore|);
      } else {
        NothingWithoutUncore(m, r, f, |m.refCore|);
      }
    } else {
      SystemKeeps(m, Collected(m, r, uncore), |m.refCore|, f);
      CollectedByTasks(m, r, uncore, Loc(SystemState, f), OfCore(0));
    }
  }

  // ------------------------------------------------------------- who reads what

  /** The core a task is meant for: a core's own, or the reference core of a socket, and
      core 0 for a socket without one. */
  function Home(m: Machine, kind: Kind): nat
    requires ValidMachine(m) && (kind.OfSocket? ==> kind.socket < |m.refCore|)
  {
    match kind
    case OfCore(c) => c
    case OfSocket(s) => if m.refCore[s] == -1 then 0 else m.refCore[s]
  }

  /** When the call returns every task has run on the worker of its core, and on no other:
      an online core's registers are read on that core. */
  lemma TasksRunOnTheirCores(m: Machine, r: Readings, uncore: bool, start: Q.State<Loc>, schedule: seq<Q.Step>,
                             t: nat, c: nat)
    requires ValidMachine(m) && Q.Initial(CallConfig(m, r, uncore), start)
    requires Q.After(CallConfig(m, r, uncore), start, schedule).Some?
    requires Q.Complete(CallConfig(m, r, uncore), Q.After(CallConfig(m, r, uncore), start, schedule).value)
    requires t < |Kinds(m, uncore)| && c < |m.online|
    ensures KindExists(m, uncore, Kinds(m, uncore)[t])
    ensures var queues := Q.After(CallConfig(m, r, uncore), start, schedule).value.queues;
      c < |queues| && (t in queues[c].runs <==> Home(m, Kinds(m, uncore)[t]) == c)
    ensures CallConfig(m, r, uncore).tasks[t].code == TaskCode(m, r, uncore, Kinds(m, uncore)[t])
  {
    var cfg := CallConfig(m, r, uncore);
    KindsAreDistinct(m, uncore);
    CallIsRaceFree(m, r, uncore);
    Q.EveryTaskRunsOnceInPushOrder(cfg, start, schedule, c);
    Q.PushedToIncreases(cfg.tasks, c, |cfg.tasks|);
  }

  // ------------------------------------------------------- what the call returns

  /** Whatever the interleaving, when the call returns coreStates[c] holds the readings of
      core `c`, those that are set like those that are summed, and zeros if it is offline. */
  lemma CoreStatesReturned(m: Machine, r: Readings, uncore: bool, start: Q.State<Loc>, schedule: seq<Q.Step>,
                           c: nat, f: Field)
    requires ValidMachine(m) && Q.Initial(CallConfig(m, r, uncore), start)
    requires Q.After(CallConfig(m, r, uncore), start, schedule).Some?
    requires Q.Complete(CallConfig(m, r, uncore), Q.After(CallConfig(m, r, uncore), start, schedule).value)
    requires !f.PackageCState?
    ensures var mem := Q.After(CallConfig(m, r, uncore), start, schedule).value.mem;
      AfterSockets(m, mem, |m.refCore|, Loc(CoreState(c), f))
      == if c < |m.online| && m.online[c] then OfOneCore(m, r, c, f) else 0
  {
    AnyInterleavingReadsTheSame(m, r, uncore, start, schedule);
    AfterSocketsKeeps(m, Collected(m, r, uncore), |m.refCore|, Loc(CoreState(c), f));
    AfterCoresKeeps(m, Collected(m, r, uncore), |m.online|, Loc(CoreState(c), f));
    CollectedOfCore(m, r, uncore, c, f);
  }

  /** socketStates[s] holds the sums over its online cores and what is read per socket. */
  lemma SocketStatesReturned(m: Machine, r: Readings, uncore: bool, start: Q.State<Loc>, schedule: seq<Q.Step>,
                             s: nat, f: Field)
    requires ValidMachine(m) && Q.Initial(CallConfig(m, r, uncore), start) && s < |m.refCore|
    requires Q.After(CallConfig(m, r, uncore), start, schedule).Some?
    requires Q.Complete(CallConfig(m, r, uncore), Q.After(CallConfig(m, r, uncore), start, schedule).value)
    ensures var mem := Q.After(CallConfig(m, r, uncore), start, schedule).value.mem;
      AfterSockets(m, mem, |m.refCore|, Loc(SocketState(s), f)) == SocketContent(m, r, uncore, s, f)
  {
    AnyInterleavingReadsTheSame(m, r, uncore, start, schedule);
    AfterSocketsKeeps(m, Collected(m, r, uncore), |m.refCore|, Loc(SocketState(s), f));
    SocketHolds(m, r, uncore, s, f);
  }

  /** And systemState the sums over everything and the registers read by the caller. */
  lemma SystemStateReturned(m: Machine, r: Readings, uncore: bool, start: Q.State<Loc>, schedule: seq<Q.Step>, f: Field)
    requires ValidMachine(m) && Q.Initial(CallConfig(m, r, uncore), start)
    requires Q.After(CallConfig(m, r, uncore), start, schedule).Some?
    requires Q.Complete(CallConfig(m, r, uncore), Q.After(CallConfig(m, r, uncore), start, schedule).value)
    ensures var mem := Q.After(CallConfig(m, r, uncore), start, schedule).value.mem;
      AfterSockets(m, mem, |m.refCore|, Loc(SystemState, f)) == SystemContent(m, r, uncore, f)
  {
    AnyInterleavingReadsTheSame(m, r, uncore, start, schedule);
    SystemHolds(m, r, uncore, f);
  }
}
