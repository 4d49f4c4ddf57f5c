/** PCM::getAllCounterStates: one task per online core and one per socket, pushed
    on the core task queues and run concurrently. */
module Snapshot {
  import opened Words
  import opened SharedMemory
  import Q = CoreTaskQueues
  import opened CounterStates

  /** What topology discovery found: which cores are online, the renumbered
      socket of each, the reference core of each socket (-1 for none). The MSR
      index lists are MSRValues written by readAndAggregate, threadMSRConfig,
      MSRValues written by readPackageThermalHeadroom, and packageMSRConfig. */
  datatype Machine = Machine(
    online: seq<bool>, socket: seq<nat>, refCore: seq<int>,
    coreMsrs: seq<nat>, threadMsrConfig: seq<nat>, thermalMsrs: seq<nat>, packageMsrConfig: seq<nat>,
    systemRegisters: nat)

  ghost predicate ValidMachine(m: Machine) {
    && |m.online| == |m.socket| && |m.online| > 0
    && (forall c :: 0 <= c < |m.online| && m.online[c] ==> m.socket[c] < |m.refCore|)
    && (forall s :: 0 <= s < |m.refCore| ==> -1 <= m.refCore[s] < |m.online|)
  }

  datatype Kind = OfCore(core: nat) | OfSocket(socket: nat)

  /** The core whose queue takes the task; a socket without reference core uses core 0. */
  function QueueOf(m: Machine, kind: Kind): nat
    requires kind.OfSocket? ==> kind.socket < |m.refCore|
  {
    match kind
    case OfCore(c) => c
    case OfSocket(s) => if m.refCore[s] < 0 then 0 else m.refCore[s]
  }

  /** The body of one task. `uncore` is readAndAggregateSocketUncoreCounters. */
  function TaskCode(m: Machine, r: Readings, uncore: bool, kind: Kind): Program<Loc>
    requires kind.OfCore? ==> kind.core < |m.socket|
  {
    match kind
    case OfCore(c) =>
      CoreReadCode(r, c, CoreState(c))
      + (if uncore then PackageCode(SocketState(m.socket[c]), FromCore(r, c), MAX_C_STATE + 1) else [])
      + MsrCode(m.coreMsrs + m.threadMsrConfig, {}, CoreState(c), FromCore(r, c))
    case OfSocket(s) =>
      SocketReadCode(r, s, SocketState(s))
      + MsrCode(m.thermalMsrs + m.packageMsrConfig, {}, SocketState(s), FromSocket(r, s))
  }

  function CoreReadCode(r: Readings, c: nat, h: Holder): Program<Loc> {
    Codes(BasicActions(r, c), h, FromCore(r, c))
  }

  function SocketReadCode(r: Readings, s: nat, h: Holder): Program<Loc> {
    Codes(SocketActions(s), h, FromSocket(r, s))
  }

  /** readQPICounters, readPCICFGRegisters and readMMIORegisters on systemState. */
  function CallerCode(m: Machine, r: Readings, uncore: bool): (p: Program<Loc>)
    ensures forall k :: 0 <= k < |p| ==> p[k].Store? && p[k].loc.holder == SystemState && p[k].loc.field.Register?
  {
    if uncore then seq(m.systemRegisters, i requires i >= 0 => Store(Loc(SystemState, Register(i)), r.system(i)))
    else []
  }

  function CoreKinds(m: Machine, n: nat): seq<Kind>
    requires n <= |m.online|
  {
    if n == 0 then []
    else CoreKinds(m, n - 1) + if m.online[n - 1] then [OfCore(n - 1)] else []
  }

  function SocketKinds(n: nat): (kinds: seq<Kind>)
    ensures |kinds| == n && forall s :: 0 <= s < n ==> kinds[s] == OfSocket(s)
  {
    seq(n, s requires s >= 0 => OfSocket(s))
  }

  function Kinds(m: Machine, uncore: bool): seq<Kind> {
    CoreKinds(m, |m.online|) + if uncore then SocketKinds(|m.refCore|) else []
  }

  lemma {:induction false} CoreKindsAreCores(m: Machine, n: nat)
    requires n <= |m.online|
    ensures forall k :: 0 <= k < |CoreKinds(m, n)| ==>
      var kind := CoreKinds(m, n)[k]; kind.OfCore? && kind.core < n && m.online[kind.core]
    ensures forall j, k :: 0 <= j < k < |CoreKinds(m, n)| ==> CoreKinds(m, n)[j] != CoreKinds(m, n)[k]
  {
    if n > 0 {
      CoreKindsAreCores(m, n - 1);
    }
  }

  lemma KindsAreDistinct(m: Machine, uncore: bool)
    requires ValidMachine(m)
    ensures forall k :: 0 <= k < |Kinds(m, uncore)| ==> KindExists(m, uncore, Kinds(m, uncore)[k])
    ensures forall j, k :: 0 <= j < k < |Kinds(m, uncore)| ==> Kinds(m, uncore)[j] != Kinds(m, uncore)[k]
  {
    CoreKindsAreCores(m, |m.online|);
  }

  predicate KindExists(m: Machine, uncore: bool, kind: Kind) {
    match kind
    case OfCore(c) => c < |m.online| && c < |m.socket| && m.online[c] && m.socket[c] < |m.refCore|
    case OfSocket(s) => uncore && s < |m.refCore|
  }

  /** The call as a configuration of the core task queues. All states start
      zero-initialised. */
  function CallConfig(m: Machine, r: Readings, uncore: bool): Q.Config<Loc>
    requires ValidMachine(m)
  {
    KindsAreDistinct(m, uncore);
    var kinds := Kinds(m, uncore);
    Q.Config(|m.online|,
             seq(|kinds|, k requires 0 <= k < |kinds| =>
                   Q.Task(QueueOf(m, kinds[k]), TaskCode(m, r, uncore, kinds[k]))),
             CallerCode(m, r, uncore), map[])
  }

  // ----------------------------------------------------------- who touches what

  /** A core task touches its own core state, and of the shared socket state only
      the package C-state residencies, atomically. A socket task touches only the
      other fields of its own socket state. */
  predicate Permitted(m: Machine, kind: Kind, i: Instr<Loc>) {
    match kind
    case OfCore(c) =>
      || i.loc.holder == CoreState(c)
      || (c < |m.socket| && i.FetchAdd? && i.loc.holder == SocketState(m.socket[c]) && i.loc.field.PackageCState?)
    case OfSocket(s) => i.loc.holder == SocketState(s) && !i.loc.field.PackageCState?
  }

  lemma TasksKeepToTheirOwn(m: Machine, r: Readings, uncore: bool, kind: Kind)
    requires ValidMachine(m) && KindExists(m, uncore, kind)
    ensures forall k :: 0 <= k < |TaskCode(m, r, uncore, kind)| ==> Permitted(m, kind, TaskCode(m, r, uncore, kind)[k])
  {
    match kind
    case OfCore(c) =>
      CodesAreLocal(BasicActions(r, c), CoreState(c), FromCore(r, c));
      MsrCodeIsLocal(m.coreMsrs + m.threadMsrConfig, {}, CoreState(c), FromCore(r, c));
    case OfSocket(s) =>
      SocketReadIsLocal(r, s, SocketState(s));
      MsrCodeIsLocal(m.thermalMsrs + m.packageMsrConfig, {}, SocketState(s), FromSocket(r, s));
  }

  lemma SocketReadIsLocal(r: Readings, s: nat, h: Holder)
    ensures forall k :: 0 <= k < |SocketReadCode(r, s, h)| ==>
      var i := SocketReadCode(r, s, h)[k]; i.loc.holder == h && !i.loc.field.PackageCState?
  {
    CodesAreLocal(SocketActions(s), h, FromSocket(r, s));
    SocketActionsDistinct(s, SocketActions(s));
  }

  /** Two different threads of the call never race. */
  lemma PermittedIsCompatible(m: Machine, a: Kind, b: Kind, i: Instr<Loc>, j: Instr<Loc>)
    requires a != b && Permitted(m, a, i) && Permitted(m, b, j)
    ensures Compatible(i, j)
  {
  }

  lemma TasksDoNotRace(m: Machine, r: Readings, uncore: bool, a: Kind, b: Kind, k: nat)
    requires ValidMachine(m) && KindExists(m, uncore, a) && KindExists(m, uncore, b) && a != b
    requires k < |TaskCode(m, r, uncore, a)|
    ensures AllCompatible(TaskCode(m, r, uncore, a)[k], TaskCode(m, r, uncore, b))
  {
    TasksKeepToTheirOwn(m, r, uncore, a);
    TasksKeepToTheirOwn(m, r, uncore, b);
    var i, q := TaskCode(m, r, uncore, a)[k], TaskCode(m, r, uncore, b);
    forall j | 0 <= j < |q|
      ensures Compatible(i, q[j])
    {
      PermittedIsCompatible(m, a, b, i, q[j]);
    }
  }

  lemma CallerDoesNotRace(m: Machine, r: Readings, uncore: bool, kind: Kind)
    requires ValidMachine(m) && KindExists(m, uncore, kind)
    ensures forall k :: 0 <= k < |TaskCode(m, r, uncore, kind)| ==>
      AllCompatible(TaskCode(m, r, uncore, kind)[k], CallerCode(m, r, uncore))
    ensures forall k :: 0 <= k < |CallerCode(m, r, uncore)| ==>
      AllCompatible(CallerCode(m, r, uncore)[k], TaskCode(m, r, uncore, kind))
  {
    TasksKeepToTheirOwn(m, r, uncore, kind);
  }

  lemma CallIsRaceFree(m: Machine, r: Readings, uncore: bool)
    requires ValidMachine(m)
    ensures Q.ValidConfig(CallConfig(m, r, uncore))
    ensures DataRaceFree(Q.Codes(CallConfig(m, r, uncore)))
  {
    var kinds := Kinds(m, uncore);
    var codes := Q.Codes(CallConfig(m, r, uncore));
    KindsAreDistinct(m, uncore);
    forall t, u, k | 0 <= t < |codes| && 0 <= u < |codes| && t != u && 0 <= k < |codes[t]|
      ensures AllCompatible(codes[t][k], codes[u])
    {
      if t == |kinds| {
        CallerDoesNotRace(m, r, uncore, kinds[u]);
      } else if u == |kinds| {
        CallerDoesNotRace(m, r, uncore, kinds[t]);
      } else {
        TasksDoNotRace(m, r, uncore, kinds[t], kinds[u], k);
      }
    }
  }

  /** For fixed register values, every interleaving of the workers and the caller
      that reaches the end of the waits leaves in coreStates, socketStates and
      systemState exactly what the tasks leave when run one after another. */
  lemma AnyInterleavingReadsTheSame(m: Machine, r: Readings, uncore: bool, s: Q.State<Loc>, schedule: seq<Q.Step>)
    requires ValidMachine(m) && Q.Initial(CallConfig(m, r, uncore), s)
    requires Q.After(CallConfig(m, r, uncore), s, schedule).Some?
    requires Q.Complete(CallConfig(m, r, uncore), Q.After(CallConfig(m, r, uncore), s, schedule).value)
    ensures Q.After(CallConfig(m, r, uncore), s, schedule).value.mem == Collected(m, r, uncore)
  {
    CallIsRaceFree(m, r, uncore);
    Q.EveryScheduleIsSerial(CallConfig(m, r, uncore), s, schedule);
  }

  /** The states when all futures are ready: the sequential reads. */
  function Collected(m: Machine, r: Readings, uncore: bool): Memory<Loc>
    requires ValidMachine(m)
  {
    Q.RunAll(Q.Codes(CallConfig(m, r, uncore)), map[])
  }
}
