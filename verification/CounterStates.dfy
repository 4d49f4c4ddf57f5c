/** The counter state records of PCM, as locations of the shared memory, and the
    code that reads registers into them. */
module CounterStates {
  import opened Words
  import opened SharedMemory

  const PERF_MAX_CUSTOM_COUNTERS := 8
  const MAX_C_STATE := 10
  const MAX_PP := 1
  const PCM_INVALID_QOS_MONITORING_DATA: u64 := TWO_TO_64 - 1

  type EventIndex = i: nat | i < PERF_MAX_CUSTOM_COUNTERS
  type CStateIndex = i: nat | i <= MAX_C_STATE

  /** The members of BasicCounterState that readAndAggregate always adds to. A
      checked_uint64 is a pair of words. */
  datatype CoreCounter =
    | InstRetiredAny | InstOverflows | CpuClkUnhaltedThread | ThreadOverflows | CpuClkUnhaltedRef | RefOverflows
    | InvariantTSC | SMICount
    | FrontendBoundSlots | BadSpeculationSlots | BackendBoundSlots | RetiringSlots | AllSlotsRaw
    | MemBoundSlots | FetchLatSlots | BrMispredSlots | HeavyOpsSlots
    | Event(e: EventIndex) | EventOverflows(o: EventIndex) | CStateResidency(c: CStateIndex)

  /** The members of UncoreCounterState that one read per socket adds to. */
  datatype SocketCounter =
    | UncMCFullWrites | UncMCNormalReads | UncHARequests | UncHALocalRequests | UncPMMWrites | UncPMMReads
    | UncEDCFullWrites | UncEDCNormalReads | UncMCGTRequests | UncMCIARequests | UncMCIORequests
    | PackageEnergyStatus | DRAMEnergyStatus | TOROccupancyIAMiss | TORInsertsIAMiss | UncClocks

  /** All members of BasicCounterState, of UncoreCounterState (from `Uncore` on)
      and, as `Register`, of SystemCounterState. */
  datatype Field =
    | Plain(core: CoreCounter)
    | MemoryBWLocal | MemoryBWTotal | L3Occupancy | ThermalHeadroom | MSRValue(index: nat)
    | Uncore(socket: SocketCounter) | PackageCState(state: CStateIndex) | PPEnergyStatus(plane: nat)
    | Register(number: nat)

  /** The records: coreStates[core], socketStates[socket], systemState,
      refCoreStates[socket], and the local `result` of the direct getters. */
  datatype Holder =
    | CoreState(core: nat) | SocketState(socket: nat) | SystemState
    | RefCoreState(socket: nat) | ResultState

  datatype Loc = Loc(holder: Holder, field: Field)

  const CORE_COUNTERS := 17 + 2 * PERF_MAX_CUSTOM_COUNTERS + MAX_C_STATE + 1
  const SOCKET_COUNTERS := 16

  function CoreCounterAt(k: nat): CoreCounter
    requires k < CORE_COUNTERS
  {
    match k
    case 0 => InstRetiredAny case 1 => InstOverflows case 2 => CpuClkUnhaltedThread
    case 3 => ThreadOverflows case 4 => CpuClkUnhaltedRef case 5 => RefOverflows
    case 6 => InvariantTSC case 7 => SMICount case 8 => FrontendBoundSlots
    case 9 => BadSpeculationSlots case 10 => BackendBoundSlots case 11 => RetiringSlots
    case 12 => AllSlotsRaw case 13 => MemBoundSlots case 14 => FetchLatSlots
    case 15 => BrMispredSlots case 16 => HeavyOpsSlots
    case _ =>
      if k < 17 + PERF_MAX_CUSTOM_COUNTERS then Event(k - 17)
      else if k < 17 + 2 * PERF_MAX_CUSTOM_COUNTERS then EventOverflows(k - 17 - PERF_MAX_CUSTOM_COUNTERS)
      else CStateResidency(k - 17 - 2 * PERF_MAX_CUSTOM_COUNTERS)
  }

  function CoreCounterRank(c: CoreCounter): nat {
    match c
    case InstRetiredAny => 0 case InstOverflows => 1 case CpuClkUnhaltedThread => 2
    case ThreadOverflows => 3 case CpuClkUnhaltedRef => 4 case RefOverflows => 5
    case InvariantTSC => 6 case SMICount => 7 case FrontendBoundSlots => 8
    case BadSpeculationSlots => 9 case BackendBoundSlots => 10 case RetiringSlots => 11
    case AllSlotsRaw => 12 case MemBoundSlots => 13 case FetchLatSlots => 14
    case BrMispredSlots => 15 case HeavyOpsSlots => 16
    case Event(i) => 17 + i
    case EventOverflows(i) => 17 + PERF_MAX_CUSTOM_COUNTERS + i
    case CStateResidency(i) => 17 + 2 * PERF_MAX_CUSTOM_COUNTERS + i
  }

  function SocketCounterAt(k: nat): SocketCounter {
    match k
    case 0 => UncMCFullWrites case 1 => UncMCNormalReads case 2 => UncHARequests
    case 3 => UncHALocalRequests case 4 => UncPMMWrites case 5 => UncPMMReads
    case 6 => UncEDCFullWrites case 7 => UncEDCNormalReads case 8 => UncMCGTRequests
    case 9 => UncMCIARequests case 10 => UncMCIORequests case 11 => PackageEnergyStatus
    case 12 => DRAMEnergyStatus case 13 => TOROccupancyIAMiss case 14 => TORInsertsIAMiss
    case _ => UncClocks
  }

  function SocketCounterRank(c: SocketCounter): nat {
    match c
    case UncMCFullWrites => 0 case UncMCNormalReads => 1 case UncHARequests => 2
    case UncHALocalRequests => 3 case UncPMMWrites => 4 case UncPMMReads => 5
    case UncEDCFullWrites => 6 case UncEDCNormalReads => 7 case UncMCGTRequests => 8
    case UncMCIARequests => 9 case UncMCIORequests => 10 case PackageEnergyStatus => 11
    case DRAMEnergyStatus => 12 case TOROccupancyIAMiss => 13 case TORInsertsIAMiss => 14
    case UncClocks => 15
  }

  lemma CoreCountersAreNumbered(k: nat, c: CoreCounter)
    ensures k < CORE_COUNTERS ==> CoreCounterRank(CoreCounterAt(k)) == k
    ensures CoreCounterRank(c) < CORE_COUNTERS && CoreCounterAt(CoreCounterRank(c)) == c
  {
  }

  lemma SocketCountersAreNumbered(k: nat, c: SocketCounter)
    ensures k < SOCKET_COUNTERS ==> SocketCounterRank(SocketCounterAt(k)) == k
    ensures SocketCounterRank(c) < SOCKET_COUNTERS && SocketCounterAt(SocketCounterRank(c)) == c
  {
  }

  predicate BandwidthField(f: Field) {
    f.MemoryBWLocal? || f.MemoryBWTotal?
  }

  /** What BasicCounterState::operator += sums. */
  predicate BasicSummed(f: Field) {
    f.Plain? || BandwidthField(f) || f.L3Occupancy?
  }

  /** What UncoreCounterState::operator += sums. PPEnergyStatus is not in it. */
  predicate UncoreSummed(f: Field) {
    f.Uncore? || f.PackageCState?
  }

  /** The values the registers have during the call: for each core, for each
      socket, and for the system-wide registers the caller reads itself. A
      metric the processor does not support reads as 0. */
  datatype Readings = Readings(core: (nat, Field) -> u64, socket: (nat, Field) -> u64, system: nat -> u64)

  /** The registers one read function reads: those of a core, or of a socket. */
  datatype Source = FromCore(r: Readings, core: nat) | FromSocket(r: Readings, socket: nat)

  function Value(source: Source, f: Field): u64 {
    match source
    case FromCore(r, core) => r.core(core, f)
    case FromSocket(r, socket) => r.socket(socket, f)
  }

  /** One statement of a read function: `f += value` or `f = value`. */
  datatype Action = Added(field: Field) | Assigned(field: Field)

  /** readAndAggregateMemoryBWCounters does not accumulate an invalid reading. */
  function BandwidthAction(r: Readings, core: nat, f: Field): Action {
    if r.core(core, f) == PCM_INVALID_QOS_MONITORING_DATA then Assigned(f) else Added(f)
  }

  /** BasicCounterState::readAndAggregate, the MSRValues entries aside. */
  function BasicActions(r: Readings, core: nat): seq<Action> {
    seq(CORE_COUNTERS, k requires 0 <= k < CORE_COUNTERS => Added(Plain(CoreCounterAt(k))))
    + [BandwidthAction(r, core, MemoryBWLocal), BandwidthAction(r, core, MemoryBWTotal),
       Assigned(L3Occupancy), Assigned(ThermalHeadroom)]
  }

  /** readAndAggregateUncoreMCCounters and readAndAggregateEnergyCounters (the
      power planes only on socket 0). */
  function SocketCounterActions(socket: nat): seq<Action> {
    seq(SOCKET_COUNTERS, k requires k >= 0 => Added(Uncore(SocketCounterAt(k))))
    + (if socket == 0 then seq(MAX_PP + 1, i requires i >= 0 => Added(PPEnergyStatus(i))) else [])
  }

  /** The same followed by readPackageThermalHeadroom. */
  function SocketActions(socket: nat): seq<Action> {
    SocketCounterActions(socket) + [Assigned(ThermalHeadroom)]
  }

  function Code(a: Action, h: Holder, source: Source): Program<Loc> {
    match a
    case Added(f) => [Load(Loc(h, f)), StoreSum(Loc(h, f), Value(source, f))]
    case Assigned(f) => [Store(Loc(h, f), Value(source, f))]
  }

  function Codes(actions: seq<Action>, h: Holder, source: Source): Program<Loc> {
    if actions == [] then []
    else Codes(actions[..|actions| - 1], h, source) + Code(actions[|actions| - 1], h, source)
  }

  /** readAndAggregatePackageCStateResidencies: eleven atomic additions. */
  function PackageCode(h: Holder, source: Source, k: nat): (p: Program<Loc>)
    requires k <= MAX_C_STATE + 1
    ensures |p| == k
    ensures forall i :: 0 <= i < k ==> p[i] == FetchAdd(Loc(h, PackageCState(i)), Value(source, PackageCState(i)))
  {
    seq(k, i requires 0 <= i < k => FetchAdd(Loc(h, PackageCState(i)), Value(source, PackageCState(i))))
  }

  /** MSRValues[index] = value for every index that is not there yet. */
  function MsrCode(indices: seq<nat>, present: set<nat>, h: Holder, source: Source): Program<Loc> {
    if indices == [] then []
    else
      var rest := MsrCode(indices[1..], present + {indices[0]}, h, source);
      if indices[0] in present then rest
      else [Store(Loc(h, MSRValue(indices[0])), Value(source, MSRValue(indices[0])))] + rest
  }

  // ---------------------------------------------------------- what the code does

  ghost predicate Distinct(actions: seq<Action>) {
    forall i, j :: 0 <= i < j < |actions| ==> actions[i].field != actions[j].field
  }

  /** Each field of the holder that occurs is added to or set once, and nothing
      else changes. */
  lemma {:induction false} CodesEffect(actions: seq<Action>, h: Holder, source: Source, cpu: Cpu<Loc>, l: Loc)
    requires Distinct(actions)
    ensures IsEffect(actions, h, source, l, Get(cpu.mem, l), Get(Run(Codes(actions, h, source), cpu).mem, l))
  {
    if actions != [] {
      var n := |actions| - 1;
      var front, last := actions[..n], actions[n];
      assert actions == front + [last];
      CodesEffect(front, h, source, cpu, l);
      OneMoreCode(front, last, h, source, cpu, l);
      OneMoreEffect(front, last, h, source, l, Get(cpu.mem, l), Get(Run(Codes(front, h, source), cpu).mem, l),
                    Get(Run(Codes(actions, h, source), cpu).mem, l));
    }
  }

  /** What the actions make of the value at `l`. */
  ghost predicate IsEffect(actions: seq<Action>, h: Holder, source: Source, l: Loc, before: u64, after: u64) {
    && (l.holder != h || (forall k :: 0 <= k < |actions| ==> actions[k].field != l.field) ==> after == before)
    && (forall k :: 0 <= k < |actions| && l == Loc(h, actions[k].field) ==>
          after == if actions[k].Added? then Plus(before, Value(source, l.field)) else Value(source, l.field))
  }

  lemma OneMoreEffect(front: seq<Action>, last: Action, h: Holder, source: Source, l: Loc,
                      before: u64, mid: u64, after: u64)
    requires Distinct(front + [last]) && IsEffect(front, h, source, l, before, mid)
    requires after == if l != Loc(h, last.field) then mid
                      else if last.Added? then Plus(mid, Value(source, last.field)) else Value(source, last.field)
    ensures IsEffect(front + [last], h, source, l, before, after)
  {
    var actions := front + [last];
    assert actions[|front|] == last && forall k :: 0 <= k < |front| ==> actions[k] == front[k];
    if l == Loc(h, last.field) {
      assert forall k :: 0 <= k < |front| ==> actions[k].field != actions[|front|].field;
      assert mid == before;
    }
  }

  lemma OneMoreCode(front: seq<Action>, last: Action, h: Holder, source: Source, cpu: Cpu<Loc>, l: Loc)
    ensures var before := Get(Run(Codes(front, h, source), cpu).mem, l);
      Get(Run(Codes(front + [last], h, source), cpu).mem, l)
         == if l != Loc(h, last.field) then before
            else if last.Added? then Plus(before, Value(source, last.field)) else Value(source, last.field)
  {
    assert (front + [last])[..|front|] == front;
    RunAppends(Codes(front, h, source), Code(last, h, source), cpu);
    CodeEffect(last, h, source, Run(Codes(front, h, source), cpu), l);
  }

  lemma CodeEffect(a: Action, h: Holder, source: Source, cpu: Cpu<Loc>, l: Loc)
    ensures Get(Run(Code(a, h, source), cpu).mem, l)
         == if l != Loc(h, a.field) then Get(cpu.mem, l)
            else if a.Added? then Plus(Get(cpu.mem, l), Value(source, a.field)) else Value(source, a.field)
  {
    var here := Loc(h, a.field);
    if a.Added? {
      RunOfTwo(Load(here), StoreSum(here, Value(source, a.field)), cpu);
    } else {
      RunOfOne(Store(here, Value(source, a.field)), cpu);
    }
  }

  /** Code that never writes `l` leaves it alone. */
  lemma {:induction false} RunKeeps(p: Program<Loc>, cpu: Cpu<Loc>, l: Loc)
    requires forall k :: 0 <= k < |p| ==> p[k].loc != l
    ensures Get(Run(p, cpu).mem, l) == Get(cpu.mem, l)
  {
    if p != [] {
      RunKeeps(p[..|p| - 1], cpu, l);
    }
  }

  lemma PackageStep(h: Holder, source: Source, k: nat, cpu: Cpu<Loc>)
    requires 0 < k <= MAX_C_STATE + 1
    ensures var before, here := Run(PackageCode(h, source, k - 1), cpu).mem, Loc(h, PackageCState(k - 1));
      Run(PackageCode(h, source, k), cpu).mem
      == before[here := Plus(Get(before, here), Value(source, PackageCState(k - 1)))]
  {
    assert PackageCode(h, source, k)[..k - 1] == PackageCode(h, source, k - 1);
  }

  lemma {:induction false} PackageEffect(h: Holder, source: Source, k: nat, cpu: Cpu<Loc>, l: Loc)
    requires k <= MAX_C_STATE + 1
    ensures Get(Run(PackageCode(h, source, k), cpu).mem, l)
         == if l.holder == h && l.field.PackageCState? && l.field.state < k
            then Plus(Get(cpu.mem, l), Value(source, l.field))
            else Get(cpu.mem, l)
  {
    if k > 0 {
      PackageEffect(h, source, k - 1, cpu, l);
      PackageStep(h, source, k, cpu);
    }
  }

  lemma {:induction false} MsrCodeIsLocal(indices: seq<nat>, present: set<nat>, h: Holder, source: Source)
    ensures forall k :: 0 <= k < |MsrCode(indices, present, h, source)| ==>
      var i := MsrCode(indices, present, h, source)[k]; i.Store? && i.loc.holder == h && i.loc.field.MSRValue?
  {
    if indices != [] {
      MsrCodeIsLocal(indices[1..], present + {indices[0]}, h, source);
    }
  }

  lemma {:induction false} CodesAreLocal(actions: seq<Action>, h: Holder, source: Source)
    ensures forall k :: 0 <= k < |Codes(actions, h, source)| ==>
      var i := Codes(actions, h, source)[k];
      && i.loc.holder == h
      && exists j :: 0 <= j < |actions| && actions[j].field == i.loc.field
  {
    if actions != [] {
      var n := |actions| - 1;
      CodesAreLocal(actions[..n], h, source);
      forall k | 0 <= k < |Codes(actions, h, source)|
        ensures var i := Codes(actions, h, source)[k];
          i.loc.holder == h && exists j :: 0 <= j < |actions| && actions[j].field == i.loc.field
      {
        var front := Codes(actions[..n], h, source);
        var i := Codes(actions, h, source)[k];
        if k < |front| {
          assert i == front[k];
          var j :| 0 <= j < n && actions[..n][j].field == i.loc.field;
          assert actions[j].field == i.loc.field;
        } else {
          assert i == Code(actions[n], h, source)[k - |front|];
          assert actions[n].field == i.loc.field;
        }
      }
    }
  }

  lemma BasicActionsDistinct(r: Readings, core: nat)
    ensures Distinct(BasicActions(r, core))
    ensures forall k :: 0 <= k < |BasicActions(r, core)| ==> !UncoreSummed(BasicActions(r, core)[k].field)
  {
    var actions := BasicActions(r, core);
    forall k | 0 <= k < CORE_COUNTERS
      ensures actions[k].field.Plain? && CoreCounterRank(actions[k].field.core) == k
    {
      CoreCountersAreNumbered(k, SMICount);
    }
  }

  predicate SocketRead(socket: nat, actions: seq<Action>) {
    actions == SocketCounterActions(socket) || actions == SocketActions(socket)
  }

  lemma SocketActionsDistinct(socket: nat, actions: seq<Action>)
    requires SocketRead(socket, actions)
    ensures Distinct(actions)
    ensures forall k :: 0 <= k < |actions| ==> !actions[k].field.PackageCState? && !BasicSummed(actions[k].field)
  {
    forall k | 0 <= k < SOCKET_COUNTERS
      ensures actions[k].field.Uncore? && SocketCounterRank(actions[k].field.socket) == k
    {
      SocketCountersAreNumbered(k, UncClocks);
    }
  }

  /** A field that a core read adds to: a plain counter, or a memory bandwidth
      whose reading is valid. */
  predicate AddedPerCore(r: Readings, core: nat, f: Field) {
    f.Plain? || (BandwidthField(f) && r.core(core, f) != PCM_INVALID_QOS_MONITORING_DATA)
  }

  lemma BasicReadAdds(r: Readings, core: nat, h: Holder, cpu: Cpu<Loc>, l: Loc)
    requires AddedPerCore(r, core, l.field) || UncoreSummed(l.field)
    ensures Get(Run(Codes(BasicActions(r, core), h, FromCore(r, core)), cpu).mem, l)
         == if l.holder == h && !UncoreSummed(l.field) then Plus(Get(cpu.mem, l), r.core(core, l.field))
            else Get(cpu.mem, l)
  {
    var actions := BasicActions(r, core);
    BasicActionsDistinct(r, core);
    CodesEffect(actions, h, FromCore(r, core), cpu, l);
    if !UncoreSummed(l.field) {
      if l.field.Plain? {
        CoreCountersAreNumbered(0, l.field.core);
        assert actions[CoreCounterRank(l.field.core)] == Added(l.field);
      } else {
        assert actions[if l.field.MemoryBWLocal? then CORE_COUNTERS else CORE_COUNTERS + 1] == Added(l.field);
      }
    }
  }

  lemma SocketReadAdds(r: Readings, socket: nat, actions: seq<Action>, h: Holder, cpu: Cpu<Loc>, l: Loc)
    requires SocketRead(socket, actions)
    requires BasicSummed(l.field) || UncoreSummed(l.field)
    ensures Get(Run(Codes(actions, h, FromSocket(r, socket)), cpu).mem, l)
         == if l.holder == h && l.field.Uncore? then Plus(Get(cpu.mem, l), r.socket(socket, l.field))
            else Get(cpu.mem, l)
  {
    SocketActionsDistinct(socket, actions);
    CodesEffect(actions, h, FromSocket(r, socket), cpu, l);
    if l.field.Uncore? {
      SocketReadContains(socket, actions, l.field.socket);
    }
  }

  lemma SocketReadContains(socket: nat, actions: seq<Action>, c: SocketCounter)
    requires SocketRead(socket, actions)
    ensures SocketCounterRank(c) < |actions| && actions[SocketCounterRank(c)] == Added(Uncore(c))
  {
    SocketCountersAreNumbered(0, c);
  }

  lemma {:induction false} MsrEffect(indices: seq<nat>, present: set<nat>, h: Holder, source: Source,
                                     cpu: Cpu<Loc>, l: Loc)
    ensures Get(Run(MsrCode(indices, present, h, source), cpu).mem, l)
         == if l.holder == h && l.field.MSRValue? && l.field.index in indices && l.field.index !in present
            then Value(source, l.field) else Get(cpu.mem, l)
  {
    if indices != [] {
      var rest := MsrCode(indices[1..], present + {indices[0]}, h, source);
      if indices[0] in present {
        MsrEffect(indices[1..], present + {indices[0]}, h, source, cpu, l);
      } else {
        var store := Store(Loc(h, MSRValue(indices[0])), Value(source, MSRValue(indices[0])));
        RunAppends([store], rest, cpu);
        RunOfOne(store, cpu);
        MsrEffect(indices[1..], present + {indices[0]}, h, source, Run([store], cpu), l);
      }
    }
  }

  lemma SocketReadHas(s: nat, f: Field)
    ensures var actions := SocketActions(s);
      (exists k :: 0 <= k < |actions| && actions[k].field == f)
      <==> f.Uncore? || f.ThermalHeadroom? || (f.PPEnergyStatus? && s == 0 && f.plane <= 1)
  {
    var actions := SocketActions(s);
    if f.Uncore? {
      SocketReadContains(s, actions, f.socket);
      assert actions[SocketCounterRank(f.socket)].field == f;
    } else if f.ThermalHeadroom? {
      assert actions[|actions| - 1].field == f;
    } else if f.PPEnergyStatus? && s == 0 && f.plane <= 1 {
      assert actions[SOCKET_COUNTERS + f.plane].field == f;
    }
  }
}
