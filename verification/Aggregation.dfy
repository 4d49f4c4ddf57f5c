/** The two-level fold at the end of PCM::getAllCounterStates, the direct getters
    getSystemCounterState, getSocketCounterState and getUncoreCounterStates, and
    why they agree. */
module Aggregation {
  import opened Words
  import opened SharedMemory
  import Q = CoreTaskQueues
  import opened CounterStates
  import opened Snapshot

  /** The fields for which the system value is meant to be a sum over cores and
      sockets: not L3Occupancy (assigned by a read, summed by a fold), not
      ThermalHeadroom, MSRValue and PPEnergyStatus (no fold sums them), and a
      memory bandwidth only when every online core's reading is valid. */
  ghost predicate Summable(m: Machine, r: Readings, f: Field) {
    || f.Plain?
    || UncoreSummed(f)
    || (BandwidthField(f) && forall c :: 0 <= c < |m.online| && m.online[c] ==>
          r.core(c, f) != PCM_INVALID_QOS_MONITORING_DATA)
  }

  /** Which cores a sum ranges over. */
  datatype Scope = Everywhere | OnSocket(socket: nat)

  predicate Counts(m: Machine, core: nat, scope: Scope)
    requires core < |m.online| == |m.socket|
  {
    m.online[core] && (scope.OnSocket? ==> m.socket[core] == scope.socket)
  }

  /** The sum of one field's readings over the first `n` cores in scope. */
  function CoreTotal(m: Machine, r: Readings, f: Field, scope: Scope, n: nat): u64
    requires n <= |m.online| == |m.socket|
  {
    if n == 0 then 0
    else Plus(CoreTotal(m, r, f, scope, n - 1), if Counts(m, n - 1, scope) then r.core(n - 1, f) else 0)
  }

  /** What one socket amounts to: its online cores for the per-core fields and the
      package C-states, its own registers for the rest. */
  function SocketValue(m: Machine, r: Readings, f: Field, s: nat): u64
    requires |m.online| == |m.socket|
  {
    if f.Uncore? then r.socket(s, f) else CoreTotal(m, r, f, OnSocket(s), |m.online|)
  }

  function SystemValue(m: Machine, r: Readings, f: Field, n: nat): u64
    requires |m.online| == |m.socket|
  {
    if n == 0 then 0 else Plus(SystemValue(m, r, f, n - 1), SocketValue(m, r, f, n - 1))
  }

  /** What is left of the readings when readAndAggregateSocketUncoreCounters is not set. */
  function WithoutUncore(r: Readings): Readings {
    var read := r.core;
    Readings((core: nat, f: Field) => if f.PackageCState? then 0 else read(core, f),
             (socket: nat, f: Field) => 0, (i: nat) => 0)
  }

  function ReadBy(r: Readings, uncore: bool): Readings {
    if uncore then r else WithoutUncore(r)
  }

  // --------------------------------------------- what the tasks have collected

  /** What one task adds to a location. */
  function Share(m: Machine, r: Readings, kind: Kind, l: Loc): u64 {
    match kind
    case OfCore(c) =>
      if (if l.field.PackageCState? then c < |m.socket| && l.holder == SocketState(m.socket[c])
          else l.holder == CoreState(c) && !l.field.Uncore?)
      then r.core(c, l.field) else 0
    case OfSocket(s) => if l.holder == SocketState(s) && l.field.Uncore? then r.socket(s, l.field) else 0
  }

  lemma CoreTaskAddsItsShare(m: Machine, r: Readings, c: nat, cpu: Cpu<Loc>, l: Loc)
    requires ValidMachine(m) && KindExists(m, true, OfCore(c)) && Summable(m, r, l.field)
    ensures Get(Run(TaskCode(m, r, true, OfCore(c)), cpu).mem, l) == Plus(Get(cpu.mem, l), Share(m, r, OfCore(c), l))
  {
    var source := FromCore(r, c);
    var readCode, package :=
      CoreReadCode(r, c, CoreState(c)), PackageCode(SocketState(m.socket[c]), source, MAX_C_STATE + 1);
    var msrs := MsrCode(m.coreMsrs + m.threadMsrConfig, {}, CoreState(c), source);
    RunAppends(readCode + package, msrs, cpu);
    RunAppends(readCode, package, cpu);
    MsrCodeIsLocal(m.coreMsrs + m.threadMsrConfig, {}, CoreState(c), source);
    RunKeeps(msrs, Run(readCode + package, cpu), l);
    PackageEffect(SocketState(m.socket[c]), source, MAX_C_STATE + 1, Run(readCode, cpu), l);
    BasicReadAdds(r, c, CoreState(c), cpu, l);
  }

  lemma SocketTaskAddsItsShare(m: Machine, r: Readings, s: nat, cpu: Cpu<Loc>, l: Loc)
    requires ValidMachine(m) && KindExists(m, true, OfSocket(s)) && Summable(m, r, l.field)
    ensures Get(Run(TaskCode(m, r, true, OfSocket(s)), cpu).mem, l)
         == Plus(Get(cpu.mem, l), Share(m, r, OfSocket(s), l))
  {
    var source := FromSocket(r, s);
    var readCode, msrs :=
      SocketReadCode(r, s, SocketState(s)), MsrCode(m.thermalMsrs + m.packageMsrConfig, {}, SocketState(s), source);
    RunAppends(readCode, msrs, cpu);
    MsrCodeIsLocal(m.thermalMsrs + m.packageMsrConfig, {}, SocketState(s), source);
    RunKeeps(msrs, Run(readCode, cpu), l);
    SocketReadAdds(r, s, SocketActions(s), SocketState(s), cpu, l);
  }

  lemma CoreTaskWithoutUncore(m: Machine, r: Readings, c: nat, cpu: Cpu<Loc>, l: Loc)
    requires ValidMachine(m) && KindExists(m, false, OfCore(c)) && Summable(m, r, l.field)
    ensures Get(Run(TaskCode(m, r, false, OfCore(c)), cpu).mem, l)
         == Plus(Get(cpu.mem, l), Share(m, WithoutUncore(r), OfCore(c), l))
  {
    var indices := m.coreMsrs + m.threadMsrConfig;
    var readCode, msrs := CoreReadCode(r, c, CoreState(c)), MsrCode(indices, {}, CoreState(c), FromCore(r, c));
    assert TaskCode(m, r, false, OfCore(c)) == readCode + msrs;
    MsrsKeepSums(readCode, indices, c, r, cpu, l);
    BasicReadAdds(r, c, CoreState(c), cpu, l);
  }

  lemma MsrsKeepSums(p: Program<Loc>, indices: seq<nat>, c: nat, r: Readings, cpu: Cpu<Loc>, l: Loc)
    requires !l.field.MSRValue?
    ensures Get(Run(p + MsrCode(indices, {}, CoreState(c), FromCore(r, c)), cpu).mem, l) == Get(Run(p, cpu).mem, l)
  {
    var msrs := MsrCode(indices, {}, CoreState(c), FromCore(r, c));
    RunAppends(p, msrs, cpu);
    MsrCodeIsLocal(indices, {}, CoreState(c), FromCore(r, c));
    RunKeeps(msrs, Run(p, cpu), l);
  }

  lemma TaskAddsItsShare(m: Machine, r: Readings, uncore: bool, kind: Kind, cpu: Cpu<Loc>, l: Loc)
    requires ValidMachine(m) && KindExists(m, uncore, kind) && Summable(m, r, l.field)
    ensures Get(Run(TaskCode(m, r, uncore, kind), cpu).mem, l)
         == Plus(Get(cpu.mem, l), Share(m, ReadBy(r, uncore), kind, l))
  {
    match kind
    case OfCore(c) =>
      if uncore {
        CoreTaskAddsItsShare(m, r, c, cpu, l);
      } else {
        CoreTaskWithoutUncore(m, r, c, cpu, l);
      }
    case OfSocket(s) => SocketTaskAddsItsShare(m, r, s, cpu, l);
  }

  function Shares(m: Machine, r: Readings, kinds: seq<Kind>, l: Loc): u64 {
    if kinds == [] then 0 else Plus(Shares(m, r, kinds[..|kinds| - 1], l), Share(m, r, kinds[|kinds| - 1], l))
  }

  lemma {:induction false} TasksAddTheirShares(m: Machine, r: Readings, uncore: bool, kinds: seq<Kind>,
                                               codes: seq<Program<Loc>>, l: Loc)
    requires ValidMachine(m) && Summable(m, r, l.field)
    requires |codes| == |kinds|
    requires forall k :: 0 <= k < |kinds| ==>
      KindExists(m, uncore, kinds[k]) && codes[k] == TaskCode(m, r, uncore, kinds[k])
    ensures Get(Q.RunAll(codes, map[]), l) == Shares(m, ReadBy(r, uncore), kinds, l)
  {
    if kinds != [] {
      var n := |kinds| - 1;
      TasksAddTheirShares(m, r, uncore, kinds[..n], codes[..n], l);
      TaskAddsItsShare(m, r, uncore, kinds[n], Cpu(Q.RunAll(codes[..n], map[]), 0), l);
    }
  }

  lemma SharesGrow(m: Machine, r: Readings, kinds: seq<Kind>, kind: Kind, l: Loc)
    ensures Shares(m, r, kinds + [kind], l) == Plus(Shares(m, r, kinds, l), Share(m, r, kind, l))
  {
    assert (kinds + [kind])[..|kinds|] == kinds;
  }

  /** The value the core tasks leave, `n` cores counted. */
  function CoreTasksLeave(m: Machine, r: Readings, n: nat, l: Loc): u64
    requires n <= |m.online| == |m.socket|
  {
    match l.holder
    case CoreState(c) => if c < n && m.online[c] && !UncoreSummed(l.field) then r.core(c, l.field) else 0
    case SocketState(s) => if l.field.PackageCState? then CoreTotal(m, r, l.field, OnSocket(s), n) else 0
    case _ => 0
  }

  lemma CoreTasksLeaveMore(m: Machine, r: Readings, n: nat, l: Loc)
    requires 0 < n <= |m.online| == |m.socket|
    ensures CoreTasksLeave(m, r, n, l)
         == if m.online[n - 1] then Plus(CoreTasksLeave(m, r, n - 1, l), Share(m, r, OfCore(n - 1), l))
            else CoreTasksLeave(m, r, n - 1, l)
  {
  }

  lemma {:induction false} NoCoresNoShare(m: Machine, r: Readings, l: Loc)
    requires |m.online| == |m.socket|
    ensures CoreTasksLeave(m, r, 0, l) == 0
  {
  }

  lemma {:induction false} CoreShares(m: Machine, r: Readings, n: nat, l: Loc)
    requires n <= |m.online| == |m.socket|
    ensures Shares(m, r, CoreKinds(m, n), l) == CoreTasksLeave(m, r, n, l)
  {
    if n == 0 {
      NoCoresNoShare(m, r, l);
    } else {
      CoreShares(m, r, n - 1, l);
      CoreTasksLeaveMore(m, r, n, l);
      if m.online[n - 1] {
        assert CoreKinds(m, n) == CoreKinds(m, n - 1) + [OfCore(n - 1)];
        SharesGrow(m, r, CoreKinds(m, n - 1), OfCore(n - 1), l);
      } else {
        assert CoreKinds(m, n) == CoreKinds(m, n - 1);
      }
    }
  }

  /** The value the first `n` socket tasks leave. */
  function SocketTasksLeave(r: Readings, n: nat, l: Loc): u64 {
    if l.holder.SocketState? && l.holder.socket < n && l.field.Uncore? then r.socket(l.holder.socket, l.field) else 0
  }

  lemma SocketKindsGrow(m: Machine, r: Readings, front: seq<Kind>, n: nat, l: Loc)
    ensures Shares(m, r, front + SocketKinds(n + 1), l)
         == Plus(Shares(m, r, front + SocketKinds(n), l), Share(m, r, OfSocket(n), l))
  {
    assert front + SocketKinds(n + 1) == front + SocketKinds(n) + [OfSocket(n)];
    SharesGrow(m, r, front + SocketKinds(n), OfSocket(n), l);
  }

  lemma {:induction false} SocketShares(m: Machine, r: Readings, front: seq<Kind>, n: nat, l: Loc)
    requires l.field.Uncore? ==> Shares(m, r, front, l) == 0
    ensures Shares(m, r, front + SocketKinds(n), l)
         == if l.field.Uncore? then SocketTasksLeave(r, n, l) else Shares(m, r, front, l)
  {
    if n == 0 {
      assert front + SocketKinds(0) == front;
    } else {
      SocketShares(m, r, front, n - 1, l);
      SocketKindsGrow(m, r, front, n - 1, l);
    }
  }

  /** The states after the waits, in closed form. */
  function CollectedValue(m: Machine, r: Readings, l: Loc): u64
    requires ValidMachine(m)
  {
    if l.holder.SocketState? && l.holder.socket < |m.refCore| && l.field.Uncore? then r.socket(l.holder.socket, l.field)
    else CoreTasksLeave(m, r, |m.online|, l)
  }

  /** The caller's own reads touch none of the summed fields. */
  lemma CollectedIsWhatTheTasksAdd(m: Machine, r: Readings, uncore: bool, l: Loc)
    requires ValidMachine(m) && Summable(m, r, l.field)
    ensures Get(Collected(m, r, uncore), l) == Shares(m, ReadBy(r, uncore), Kinds(m, uncore), l)
  {
    var cfg, kinds := CallConfig(m, r, uncore), Kinds(m, uncore);
    var codes := Q.Codes(cfg);
    var taskCodes := codes[..|kinds|];
    KindsAreDistinct(m, uncore);
    TasksAddTheirShares(m, r, uncore, kinds, taskCodes, l);
    assert codes[..|codes| - 1] == taskCodes && codes[|codes| - 1] == CallerCode(m, r, uncore);
    RunKeeps(CallerCode(m, r, uncore), Cpu(Q.RunAll(taskCodes, map[]), 0), l);
  }

  lemma CollectedValues(m: Machine, r: Readings, uncore: bool, l: Loc)
    requires ValidMachine(m) && Summable(m, r, l.field)
    ensures Get(Collected(m, r, uncore), l) == CollectedValue(m, ReadBy(r, uncore), l)
  {
    CollectedIsWhatTheTasksAdd(m, r, uncore, l);
    CoreShares(m, ReadBy(r, uncore), |m.online|, l);
    if uncore {
      SocketShares(m, r, CoreKinds(m, |m.online|), |m.refCore|, l);
    } else {
      assert Kinds(m, false) == CoreKinds(m, |m.online|);
    }
  }

  // ------------------------------------------------------------------- the fold

  /** Which members `dst += src` sums: a core state has only basic counters. */
  predicate SummedFrom(src: Holder, f: Field) {
    BasicSummed(f) || (UncoreSummed(f) && !src.CoreState? && !src.RefCoreState?)
  }

  /** BasicCounterState::operator += and UncoreCounterState::operator +=: every
      summed member grows by the other record's, everything else stays. */
  method AddAssign(mem: Memory<Loc>, dst: Holder, src: Holder) returns (result: Memory<Loc>)
    ensures forall l :: Get(result, l) ==
                        if l.holder == dst && SummedFrom(src, l.field)
                        then Plus(Get(mem, l), Get(mem, Loc(src, l.field)))
                        else Get(mem, l)
  {
    var sources := set k | k in mem.Keys && k.holder == src :: Loc(dst, k.field);
    result := map l | l in mem.Keys + sources ::
      if l.holder == dst && SummedFrom(src, l.field) then Plus(Get(mem, l), Get(mem, Loc(src, l.field)))
      else Get(mem, l);
    assert forall l: Loc :: l.holder == dst && Loc(src, l.field) in mem.Keys ==> l in sources;
  }

  /** A location after the first `n` cores have been folded into their sockets. */
  function AfterCores(m: Machine, mem: Memory<Loc>, n: nat, l: Loc): u64
    requires n <= |m.online| == |m.socket|
  {
    if n == 0 then Get(mem, l)
    else if m.online[n - 1] && l.holder == SocketState(m.socket[n - 1]) && SummedFrom(CoreState(n - 1), l.field) then
      Plus(AfterCores(m, mem, n - 1, l), AfterCores(m, mem, n - 1, Loc(CoreState(n - 1), l.field)))
    else AfterCores(m, mem, n - 1, l)
  }

  /** And after the first `n` sockets have been folded into the system. */
  function AfterSockets(m: Machine, mem: Memory<Loc>, n: nat, l: Loc): u64
    requires |m.online| == |m.socket|
  {
    if n == 0 then AfterCores(m, mem, |m.online|, l)
    else if l.holder == SystemState && SummedFrom(SocketState(n - 1), l.field) then
      Plus(AfterSockets(m, mem, n - 1, l), AfterSockets(m, mem, n - 1, Loc(SocketState(n - 1), l.field)))
    else AfterSockets(m, mem, n - 1, l)
  }

  /** The loops after the waits in getAllCounterStates. */
  method AggregateStates(m: Machine, collected: Memory<Loc>) returns (mem: Memory<Loc>)
    requires ValidMachine(m)
    ensures forall l :: Get(mem, l) == AfterSockets(m, collected, |m.refCore|, l)
  {
    mem := collected;
    for core := 0 to |m.online|
      invariant forall l :: Get(mem, l) == AfterCores(m, collected, core, l)
    {
      if m.online[core] {
        mem := AddAssign(mem, SocketState(m.socket[core]), CoreState(core));
      }
    }
    for s := 0 to |m.refCore|
      invariant forall l :: Get(mem, l) == AfterSockets(m, collected, s, l)
    {
      mem := AddAssign(mem, SystemState, SocketState(s));
    }
  }

  /** A member of coreStates, socketStates or systemState when the call returns. */
  function AllCounterStates(m: Machine, r: Readings, uncore: bool, l: Loc): u64
    requires ValidMachine(m)
  {
    AfterSockets(m, Collected(m, r, uncore), |m.refCore|, l)
  }

  lemma {:induction false} AfterCoresKeeps(m: Machine, mem: Memory<Loc>, n: nat, l: Loc)
    requires n <= |m.online| == |m.socket|
    requires !l.holder.SocketState? || !BasicSummed(l.field)
    ensures AfterCores(m, mem, n, l) == Get(mem, l)
  {
    if n > 0 {
      AfterCoresKeeps(m, mem, n - 1, l);
    }
  }

  lemma {:induction false} AfterCoresSums(m: Machine, r: Readings, uncore: bool, n: nat, s: nat, f: Field)
    requires ValidMachine(m) && n <= |m.online| && s < |m.refCore| && Summable(m, r, f) && BasicSummed(f)
    ensures AfterCores(m, Collected(m, r, uncore), n, Loc(SocketState(s), f))
         == CoreTotal(m, ReadBy(r, uncore), f, OnSocket(s), n)
  {
    if n == 0 {
      CollectedValues(m, r, uncore, Loc(SocketState(s), f));
    } else {
      AfterCoresSums(m, r, uncore, n - 1, s, f);
      if m.online[n - 1] {
        AfterCoresKeeps(m, Collected(m, r, uncore), n - 1, Loc(CoreState(n - 1), f));
        CollectedValues(m, r, uncore, Loc(CoreState(n - 1), f));
      }
    }
  }

  lemma SocketsAfterCores(m: Machine, r: Readings, uncore: bool, s: nat, f: Field)
    requires ValidMachine(m) && s < |m.refCore| && Summable(m, r, f)
    ensures AfterCores(m, Collected(m, r, uncore), |m.online|, Loc(SocketState(s), f))
         == SocketValue(m, ReadBy(r, uncore), f, s)
  {
    if BasicSummed(f) {
      AfterCoresSums(m, r, uncore, |m.online|, s, f);
    } else {
      AfterCoresKeeps(m, Collected(m, r, uncore), |m.online|, Loc(SocketState(s), f));
      CollectedValues(m, r, uncore, Loc(SocketState(s), f));
    }
  }

  lemma {:induction false} AfterSocketsKeeps(m: Machine, mem: Memory<Loc>, n: nat, l: Loc)
    requires |m.online| == |m.socket| && l.holder != SystemState
    ensures AfterSockets(m, mem, n, l) == AfterCores(m, mem, |m.online|, l)
  {
    if n > 0 {
      AfterSocketsKeeps(m, mem, n - 1, l);
    }
  }

  lemma {:induction false} SystemAfterSockets(m: Machine, r: Readings, uncore: bool, n: nat, f: Field)
    requires ValidMachine(m) && n <= |m.refCore| && Summable(m, r, f)
    ensures AfterSockets(m, Collected(m, r, uncore), n, Loc(SystemState, f)) == SystemValue(m, ReadBy(r, uncore), f, n)
  {
    var collected := Collected(m, r, uncore);
    if n == 0 {
      AfterCoresKeeps(m, collected, |m.online|, Loc(SystemState, f));
      CollectedValues(m, r, uncore, Loc(SystemState, f));
    } else {
      SystemAfterSockets(m, r, uncore, n - 1, f);
      AfterSocketsKeeps(m, collected, n - 1, Loc(SocketState(n - 1), f));
      SocketsAfterCores(m, r, uncore, n - 1, f);
    }
  }

  /** The snapshot in closed form: each socket is the sum over its online cores
      (and its own registers), the system is the sum over the sockets. */
  lemma SnapshotValues(m: Machine, r: Readings, uncore: bool, f: Field)
    requires ValidMachine(m) && Summable(m, r, f)
    ensures forall s :: 0 <= s < |m.refCore| ==>
      AllCounterStates(m, r, uncore, Loc(SocketState(s), f)) == SocketValue(m, ReadBy(r, uncore), f, s)
    ensures AllCounterStates(m, r, uncore, Loc(SystemState, f)) == SystemValue(m, ReadBy(r, uncore), f, |m.refCore|)
  {
    forall s | 0 <= s < |m.refCore|
      ensures AllCounterStates(m, r, uncore, Loc(SocketState(s), f)) == SocketValue(m, ReadBy(r, uncore), f, s)
    {
      SocketsAfterCores(m, r, uncore, s, f);
      AfterSocketsKeeps(m, Collected(m, r, uncore), |m.refCore|, Loc(SocketState(s), f));
    }
    SystemAfterSockets(m, r, uncore, |m.refCore|, f);
  }

  lemma {:induction false} TotalWithoutUncore(m: Machine, r: Readings, f: Field, scope: Scope, n: nat)
    requires n <= |m.online| == |m.socket|
    ensures CoreTotal(m, WithoutUncore(r), f, scope, n) == if f.PackageCState? then 0 else CoreTotal(m, r, f, scope, n)
  {
    if n > 0 {
      TotalWithoutUncore(m, r, f, scope, n - 1);
    }
  }

  lemma {:induction false} SystemWithoutUncore(m: Machine, r: Readings, f: Field, n: nat)
    requires |m.online| == |m.socket|
    ensures SystemValue(m, WithoutUncore(r), f, n) == if UncoreSummed(f) then 0 else SystemValue(m, r, f, n)
  {
    if n > 0 {
      SystemWithoutUncore(m, r, f, n - 1);
      TotalWithoutUncore(m, r, f, OnSocket(n - 1), |m.online|);
    }
  }

  /** Called without the uncore reads, the snapshot has the same core counters, and 0 for
      the package C-states and what is read per socket. */
  lemma SnapshotWithoutUncore(m: Machine, r: Readings, f: Field)
    requires ValidMachine(m) && Summable(m, r, f)
    ensures forall s :: 0 <= s < |m.refCore| ==>
      AllCounterStates(m, r, false, Loc(SocketState(s), f))
      == if UncoreSummed(f) then 0 else AllCounterStates(m, r, true, Loc(SocketState(s), f))
    ensures AllCounterStates(m, r, false, Loc(SystemState, f))
         == if UncoreSummed(f) then 0 else AllCounterStates(m, r, true, Loc(SystemState, f))
  {
    SnapshotValues(m, r, false, f);
    SnapshotValues(m, r, true, f);
    forall s | 0 <= s < |m.refCore| {
      TotalWithoutUncore(m, r, f, OnSocket(s), |m.online|);
    }
    SystemWithoutUncore(m, r, f, |m.refCore|);
  }

  // ----------------------------------------------------------- the direct reads

  /** `result.readAndAggregate(MSR[core])` on a SocketCounterState or a
      SystemCounterState: basic counters, then package C-states. */
  function DirectCoreCode(m: Machine, r: Readings, core: nat): Program<Loc> {
    CoreReadCode(r, core, ResultState)
    + MsrCode(m.coreMsrs, {}, ResultState, FromCore(r, core))
    + PackageCode(ResultState, FromCore(r, core), MAX_C_STATE + 1)
  }

  /** The cores in scope among the first `n`, read one after another. */
  function DirectCores(m: Machine, r: Readings, scope: Scope, n: nat): Memory<Loc>
    requires n <= |m.online| == |m.socket|
  {
    if n == 0 then map[]
    else
      var before := DirectCores(m, r, scope, n - 1);
      if Counts(m, n - 1, scope) then Run(DirectCoreCode(m, r, n - 1), Cpu(before, 0)).mem else before
  }

  /** Then the first `n` sockets, those without a reference core skipped. */
  function DirectSockets(m: Machine, r: Readings, mem: Memory<Loc>, n: nat): Memory<Loc>
    requires n <= |m.refCore|
  {
    if n == 0 then mem
    else
      var before := DirectSockets(m, r, mem, n - 1);
      if m.refCore[n - 1] == -1 then before
      else Run(Codes(SocketCounterActions(n - 1), ResultState, FromSocket(r, n - 1)), Cpu(before, 0)).mem
  }

  function SystemCounterState(m: Machine, r: Readings): Memory<Loc>
    requires ValidMachine(m)
  {
    DirectSockets(m, r, DirectCores(m, r, Everywhere, |m.online|), |m.refCore|)[Loc(ResultState, ThermalHeadroom) := 0]
  }

  /** The uncore, energy and thermal reads of one socket. */
  function DirectSocketCode(m: Machine, r: Readings, socket: nat): Program<Loc> {
    SocketReadCode(r, socket, ResultState) + MsrCode(m.thermalMsrs, {}, ResultState, FromSocket(r, socket))
  }

  function SocketCounterState(m: Machine, r: Readings, socket: nat): Memory<Loc>
    requires ValidMachine(m)
  {
    Run(DirectSocketCode(m, r, socket), Cpu(DirectCores(m, r, OnSocket(socket), |m.online|), 0)).mem
  }

  lemma DirectCoreAdds(m: Machine, r: Readings, core: nat, cpu: Cpu<Loc>, f: Field)
    requires AddedPerCore(r, core, f) || UncoreSummed(f)
    ensures var l := Loc(ResultState, f);
      Get(Run(DirectCoreCode(m, r, core), cpu).mem, l)
      == if f.Uncore? then Get(cpu.mem, l) else Plus(Get(cpu.mem, l), r.core(core, f))
  {
    var l := Loc(ResultState, f);
    var source := FromCore(r, core);
    var readCode, msrs := CoreReadCode(r, core, ResultState), MsrCode(m.coreMsrs, {}, ResultState, source);
    RunAppends(readCode + msrs, PackageCode(ResultState, source, MAX_C_STATE + 1), cpu);
    RunAppends(readCode, msrs, cpu);
    BasicReadAdds(r, core, ResultState, cpu, l);
    MsrCodeIsLocal(m.coreMsrs, {}, ResultState, source);
    RunKeeps(msrs, Run(readCode, cpu), l);
    PackageEffect(ResultState, source, MAX_C_STATE + 1, Run(readCode + msrs, cpu), l);
  }

  lemma DirectCoresGrow(m: Machine, r: Readings, scope: Scope, n: nat, f: Field)
    requires 0 < n <= |m.online| == |m.socket| && Summable(m, r, f)
    ensures Get(DirectCores(m, r, scope, n), Loc(ResultState, f))
         == Plus(Get(DirectCores(m, r, scope, n - 1), Loc(ResultState, f)),
                 if !f.Uncore? && Counts(m, n - 1, scope) then r.core(n - 1, f) else 0)
  {
    if Counts(m, n - 1, scope) {
      DirectCoreAdds(m, r, n - 1, Cpu(DirectCores(m, r, scope, n - 1), 0), f);
    }
  }

  lemma {:induction false} DirectCoresSum(m: Machine, r: Readings, scope: Scope, n: nat, f: Field)
    requires n <= |m.online| == |m.socket| && Summable(m, r, f)
    ensures Get(DirectCores(m, r, scope, n), Loc(ResultState, f))
         == if f.Uncore? then 0 else CoreTotal(m, r, f, scope, n)
  {
    if n > 0 {
      DirectCoresSum(m, r, scope, n - 1, f);
      DirectCoresGrow(m, r, scope, n, f);
    }
  }

  /** The readings of the first `n` sockets that have (`online`) or lack a
      reference core. */
  function SocketTotal(m: Machine, r: Readings, f: Field, online: bool, n: nat): u64
    requires n <= |m.refCore|
  {
    if n == 0 then 0
    else Plus(SocketTotal(m, r, f, online, n - 1),
              if f.Uncore? && (m.refCore[n - 1] != -1) == online then r.socket(n - 1, f) else 0)
  }

  lemma DirectSocketsGrow(m: Machine, r: Readings, mem: Memory<Loc>, n: nat, f: Field)
    requires 0 < n <= |m.refCore| && Summable(m, r, f)
    ensures Get(DirectSockets(m, r, mem, n), Loc(ResultState, f))
         == Plus(Get(DirectSockets(m, r, mem, n - 1), Loc(ResultState, f)),
                 if f.Uncore? && m.refCore[n - 1] != -1 then r.socket(n - 1, f) else 0)
  {
    if m.refCore[n - 1] != -1 {
      SocketReadAdds(r, n - 1, SocketCounterActions(n - 1), ResultState, Cpu(DirectSockets(m, r, mem, n - 1), 0),
                     Loc(ResultState, f));
    }
  }

  lemma SocketTotalGrows(m: Machine, r: Readings, f: Field, n: nat, start: u64)
    requires 0 < n <= |m.refCore|
    ensures Plus(start, SocketTotal(m, r, f, true, n))
         == Plus(Plus(start, SocketTotal(m, r, f, true, n - 1)),
                 if f.Uncore? && m.refCore[n - 1] != -1 then r.socket(n - 1, f) else 0)
  {
    PlusAssociates(start, SocketTotal(m, r, f, true, n - 1),
                   if f.Uncore? && m.refCore[n - 1] != -1 then r.socket(n - 1, f) else 0);
  }

  lemma {:induction false} DirectSocketsSum(m: Machine, r: Readings, mem: Memory<Loc>, n: nat, f: Field)
    requires n <= |m.refCore| && Summable(m, r, f)
    ensures Get(DirectSockets(m, r, mem, n), Loc(ResultState, f))
         == Plus(Get(mem, Loc(ResultState, f)), SocketTotal(m, r, f, true, n))
  {
    if n > 0 {
      DirectSocketsSum(m, r, mem, n - 1, f);
      DirectSocketsGrow(m, r, mem, n, f);
      SocketTotalGrows(m, r, f, n, Get(mem, Loc(ResultState, f)));
    }
  }

  lemma {:induction false} NoSocketShareOfCoreFields(m: Machine, r: Readings, f: Field, online: bool, n: nat)
    requires n <= |m.refCore| && !f.Uncore?
    ensures SocketTotal(m, r, f, online, n) == 0
  {
    if n > 0 {
      NoSocketShareOfCoreFields(m, r, f, online, n - 1);
    }
  }

  /** What a direct read of the system amounts to: all online cores for the per-core
      fields and the package C-states, the sockets with a reference core for the rest. */
  function DirectSystemValue(m: Machine, r: Readings, f: Field): u64
    requires |m.online| == |m.socket|
  {
    if f.Uncore? then SocketTotal(m, r, f, true, |m.refCore|) else CoreTotal(m, r, f, Everywhere, |m.online|)
  }

  lemma SystemReadValue(m: Machine, r: Readings, f: Field)
    requires ValidMachine(m) && Summable(m, r, f)
    ensures Get(SystemCounterState(m, r), Loc(ResultState, f)) == DirectSystemValue(m, r, f)
  {
    DirectCoresSum(m, r, Everywhere, |m.online|, f);
    DirectSocketsSum(m, r, DirectCores(m, r, Everywhere, |m.online|), |m.refCore|, f);
    if !f.Uncore? {
      NoSocketShareOfCoreFields(m, r, f, true, |m.refCore|);
    }
  }

  /** Every summed field of the result is the sum over the online cores, or over the
      sockets with a reference core. */
  ghost predicate HoldsSystemValues(m: Machine, r: Readings, result: Memory<Loc>)
    requires ValidMachine(m)
  {
    forall f :: Summable(m, r, f) ==> Get(result, Loc(ResultState, f)) == DirectSystemValue(m, r, f)
  }

  lemma SystemReadValues(m: Machine, r: Readings)
    requires ValidMachine(m)
    ensures HoldsSystemValues(m, r, SystemCounterState(m, r))
  {
    forall f | Summable(m, r, f)
      ensures Get(SystemCounterState(m, r), Loc(ResultState, f)) == DirectSystemValue(m, r, f)
    {
      SystemReadValue(m, r, f);
    }
  }

  lemma SocketReadValue(m: Machine, r: Readings, s: nat, f: Field)
    requires ValidMachine(m) && Summable(m, r, f)
    ensures Get(SocketCounterState(m, r, s), Loc(ResultState, f)) == SocketValue(m, r, f, s)
  {
    var cpu, l := Cpu(DirectCores(m, r, OnSocket(s), |m.online|), 0), Loc(ResultState, f);
    var readCode := SocketReadCode(r, s, ResultState);
    DirectCoresSum(m, r, OnSocket(s), |m.online|, f);
    RunAppends(readCode, MsrCode(m.thermalMsrs, {}, ResultState, FromSocket(r, s)), cpu);
    MsrEffect(m.thermalMsrs, {}, ResultState, FromSocket(r, s), Run(readCode, cpu), l);
    SocketReadAdds(r, s, SocketActions(s), ResultState, cpu, l);
  }

  /** The loop over the cores that both getters start with. */
  method ReadCores(m: Machine, r: Readings, scope: Scope) returns (result: Memory<Loc>)
    requires ValidMachine(m)
    ensures result == DirectCores(m, r, scope, |m.online|)
  {
    result := map[];
    for core := 0 to |m.online|
      invariant result == DirectCores(m, r, scope, core)
    {
      if Counts(m, core, scope) {
        result := Run(DirectCoreCode(m, r, core), Cpu(result, 0)).mem;
      }
    }
  }

  /** The loop over the sockets that are online. */
  method ReadSockets(m: Machine, r: Readings, cores: Memory<Loc>) returns (result: Memory<Loc>)
    ensures result == DirectSockets(m, r, cores, |m.refCore|)
  {
    result := cores;
    for s := 0 to |m.refCore|
      invariant result == DirectSockets(m, r, cores, s)
    {
      if m.refCore[s] != -1 {
        result := Run(Codes(SocketCounterActions(s), ResultState, FromSocket(r, s)), Cpu(result, 0)).mem;
      }
    }
  }

  method GetSystemCounterState(m: Machine, r: Readings) returns (result: Memory<Loc>)
    requires ValidMachine(m)
    ensures result == SystemCounterState(m, r)
    ensures HoldsSystemValues(m, r, result)
  {
    result := ReadCores(m, r, Everywhere);
    result := ReadSockets(m, r, result);
    result := result[Loc(ResultState, ThermalHeadroom) := 0]; // not available for system
    SystemReadValues(m, r);
  }

  method GetSocketCounterState(m: Machine, r: Readings, socket: nat) returns (result: Memory<Loc>)
    requires ValidMachine(m)
    ensures result == SocketCounterState(m, r, socket)
    ensures forall f :: Summable(m, r, f) ==> Get(result, Loc(ResultState, f)) == SocketValue(m, r, f, socket)
  {
    result := ReadCores(m, r, OnSocket(socket));
    result := Run(DirectSocketCode(m, r, socket), Cpu(result, 0)).mem;
    forall f | Summable(m, r, f)
      ensures Get(result, Loc(ResultState, f)) == SocketValue(m, r, f, socket)
    {
      SocketReadValue(m, r, socket, f);
    }
  }

  // ------------------------------------------------------------ the two agree

  /** Summing socket by socket counts every online core once. */
  lemma {:induction false} CoresArePartitioned(m: Machine, r: Readings, f: Field, n: nat, sockets: nat)
    requires n <= |m.online| == |m.socket|
    ensures SumOverSockets(m, r, f, n, sockets) == SumBelow(m, r, f, n, sockets)
  {
    if n == 0 {
      NoCoresNoSum(m, r, f, sockets);
    } else {
      CoresArePartitioned(m, r, f, n - 1, sockets);
      OneMoreCore(m, r, f, n, sockets);
    }
  }

  function SumOverSockets(m: Machine, r: Readings, f: Field, n: nat, sockets: nat): u64
    requires n <= |m.online| == |m.socket|
  {
    if sockets == 0 then 0
    else Plus(SumOverSockets(m, r, f, n, sockets - 1), CoreTotal(m, r, f, OnSocket(sockets - 1), n))
  }

  /** The sum over the online cores whose socket number is below `sockets`. */
  function SumBelow(m: Machine, r: Readings, f: Field, n: nat, sockets: nat): u64
    requires n <= |m.online| == |m.socket|
  {
    if n == 0 then 0
    else Plus(SumBelow(m, r, f, n - 1, sockets),
              if m.online[n - 1] && m.socket[n - 1] < sockets then r.core(n - 1, f) else 0)
  }

  lemma {:induction false} NoCoresNoSum(m: Machine, r: Readings, f: Field, sockets: nat)
    requires |m.online| == |m.socket|
    ensures SumOverSockets(m, r, f, 0, sockets) == 0
  {
    if sockets > 0 {
      NoCoresNoSum(m, r, f, sockets - 1);
    }
  }

  lemma {:induction false} OneMoreCore(m: Machine, r: Readings, f: Field, n: nat, sockets: nat)
    requires 0 < n <= |m.online| == |m.socket|
    ensures SumOverSockets(m, r, f, n, sockets)
         == Plus(SumOverSockets(m, r, f, n - 1, sockets),
                 if m.online[n - 1] && m.socket[n - 1] < sockets then r.core(n - 1, f) else 0)
  {
    if sockets > 0 {
      OneMoreCore(m, r, f, n, sockets - 1);
      var core := r.core(n - 1, f);
      var s, total := SumOverSockets(m, r, f, n - 1, sockets - 1), CoreTotal(m, r, f, OnSocket(sockets - 1), n - 1);
      PlusAssociates(s, total, core);
      PlusSwaps(s, core, total);
    }
  }

  lemma {:induction false} SumBelowIsEverywhere(m: Machine, r: Readings, f: Field, n: nat)
    requires ValidMachine(m) && n <= |m.online|
    ensures SumBelow(m, r, f, n, |m.refCore|) == CoreTotal(m, r, f, Everywhere, n)
  {
    if n > 0 {
      SumBelowIsEverywhere(m, r, f, n - 1);
    }
  }

  lemma {:induction false} SystemValueOfCores(m: Machine, r: Readings, f: Field, n: nat)
    requires |m.online| == |m.socket| && !f.Uncore?
    ensures SystemValue(m, r, f, n) == SumOverSockets(m, r, f, |m.online|, n)
  {
    if n > 0 {
      SystemValueOfCores(m, r, f, n - 1);
    }
  }

  lemma {:induction false} SystemValueOfSockets(m: Machine, r: Readings, f: Field, n: nat)
    requires |m.online| == |m.socket| && n <= |m.refCore| && f.Uncore?
    ensures SystemValue(m, r, f, n) == Plus(SocketTotal(m, r, f, true, n), SocketTotal(m, r, f, false, n))
  {
    if n > 0 {
      SystemValueOfSockets(m, r, f, n - 1);
      var a, b, v := SocketTotal(m, r, f, true, n - 1), SocketTotal(m, r, f, false, n - 1), r.socket(n - 1, f);
      PlusAssociates(a, b, v);
      PlusSwaps(a, b, v);
    }
  }

  /** The snapshot of a socket is the direct read of that socket. */
  lemma SocketSnapshotIsDirectRead(m: Machine, r: Readings, s: nat, f: Field)
    requires ValidMachine(m) && s < |m.refCore| && Summable(m, r, f)
    ensures AllCounterStates(m, r, true, Loc(SocketState(s), f))
         == Get(SocketCounterState(m, r, s), Loc(ResultState, f))
  {
    SnapshotValues(m, r, true, f);
    SocketReadValue(m, r, s, f);
  }

  /** The snapshot of the system is the direct read of the system plus what the
      sockets without a reference core read; they are equal exactly when that is
      0, in particular when every socket has a reference core. */
  lemma SystemSnapshotIsDirectRead(m: Machine, r: Readings, f: Field)
    requires ValidMachine(m) && Summable(m, r, f)
    ensures var snapshot := AllCounterStates(m, r, true, Loc(SystemState, f));
      var direct := Get(SystemCounterState(m, r), Loc(ResultState, f));
      var skipped := SocketTotal(m, r, f, false, |m.refCore|);
      && snapshot == Plus(direct, skipped)
      && (snapshot == direct <==> skipped == 0)
      && ((forall s :: 0 <= s < |m.refCore| ==> m.refCore[s] != -1) ==> skipped == 0)
  {
    SnapshotValues(m, r, true, f);
    SystemReadValue(m, r, f);
    if f.Uncore? {
      SystemValueOfSockets(m, r, f, |m.refCore|);
      if forall s :: 0 <= s < |m.refCore| ==> m.refCore[s] != -1 {
        NothingSkipped(m, r, f, |m.refCore|);
      }
    } else {
      NoSocketShareOfCoreFields(m, r, f, false, |m.refCore|);
      SystemValueOfCores(m, r, f, |m.refCore|);
      CoresArePartitioned(m, r, f, |m.online|, |m.refCore|);
      SumBelowIsEverywhere(m, r, f, |m.online|);
    }
  }

  lemma {:induction false} NothingSkipped(m: Machine, r: Readings, f: Field, n: nat)
    requires n <= |m.refCore| && forall s :: 0 <= s < |m.refCore| ==> m.refCore[s] != -1
    ensures SocketTotal(m, r, f, false, n) == 0
  {
    if n > 0 {
      NothingSkipped(m, r, f, n - 1);
    }
  }

  ghost predicate SystemAgrees(m: Machine, r: Readings, f: Field)
    requires ValidMachine(m)
  {
    AllCounterStates(m, r, true, Loc(SystemState, f)) == Get(SystemCounterState(m, r), Loc(ResultState, f))
  }

  /** Registers that read 0 except for those of socket `s`, which read 1. */
  function OnlySocketReads(s: nat): Readings {
    Readings((core: nat, f: Field) => 0, (socket: nat, f: Field) => if socket == s then 1 else 0, (i: nat) => 0)
  }

  lemma {:induction false} OneSocketSkipped(m: Machine, s: nat, f: Field, n: nat)
    requires s < |m.refCore| && m.refCore[s] == -1 && f.Uncore? && n <= |m.refCore|
    ensures SocketTotal(m, OnlySocketReads(s), f, false, n) == if s < n then 1 else 0
  {
    if n > 0 {
      OneSocketSkipped(m, s, f, n - 1);
    }
  }

  /** For the counters read per socket, snapshot and direct read of the system agree
      whatever the registers read if and only if every socket has a reference core; for
      all other summed fields they agree on any machine. */
  lemma SystemAgreesExactlyWhen(m: Machine, f: Field)
    requires ValidMachine(m)
    ensures f.Uncore? ==>
      ((forall r: Readings :: SystemAgrees(m, r, f)) <==> forall s :: 0 <= s < |m.refCore| ==> m.refCore[s] != -1)
    ensures !f.Uncore? ==> forall r: Readings :: Summable(m, r, f) ==> SystemAgrees(m, r, f)
  {
    forall r: Readings | Summable(m, r, f)
      ensures SystemAgrees(m, r, f) <==> SocketTotal(m, r, f, false, |m.refCore|) == 0
      ensures (forall s :: 0 <= s < |m.refCore| ==> m.refCore[s] != -1) || !f.Uncore? ==> SystemAgrees(m, r, f)
    {
      SystemSnapshotIsDirectRead(m, r, f);
      if !f.Uncore? {
        NoSocketShareOfCoreFields(m, r, f, false, |m.refCore|);
      }
    }
    if s :| 0 <= s < |m.refCore| && m.refCore[s] == -1 && f.Uncore? {
      OneSocketSkipped(m, s, f, |m.refCore|);
      assert !SystemAgrees(m, OnlySocketReads(s), f);
    }
  }

  // ------------------------------------------------- getUncoreCounterStates

  const TSC := Plain(InvariantTSC)

  /** Every socket has an online reference core on that socket, as topology
      discovery leaves it; the call indexes `topology` with it unconditionally. */
  ghost predicate RefCoresOnline(m: Machine) {
    && ValidMachine(m)
    && forall s :: 0 <= s < |m.refCore| ==>
         && 0 <= m.refCore[s] && m.online[m.refCore[s]] && m.socket[m.refCore[s]] == s
  }

  /** `refCoreStates[s].readAndAggregateTSC` and the uncore reads of socket `s`. */
  function RefReadCode(m: Machine, r: Readings, s: nat): Program<Loc>
    requires s < |m.refCore| && 0 <= m.refCore[s]
  {
    Codes([Added(TSC)], RefCoreState(s), FromCore(r, m.refCore[s])) + SocketReadCode(r, s, SocketState(s))
    + MsrCode(m.thermalMsrs, {}, SocketState(s), FromSocket(r, s))
  }

  /** The members of a socket's state that no fold sums. */
  predicate SetPerSocket(f: Field) {
    f.ThermalHeadroom? || f.MSRValue? || f.PPEnergyStatus?
  }

  /** What the uncore, energy and thermal reads leave in them. */
  function SetBySocket(m: Machine, r: Readings, s: nat, f: Field): u64 {
    if f.ThermalHeadroom? || (f.MSRValue? && f.index in m.thermalMsrs) || (f.PPEnergyStatus? && s == 0 && f.plane <= 1)
    then r.socket(s, f) else 0
  }

  predicate ReadPerReference(f: Field) {
    f == TSC || f.Uncore? || SetPerSocket(f)
  }

  /** What the first loop reads: the time stamp of each reference core, each socket's
      uncore counters, and the members that are set. */
  function RefReading(m: Machine, r: Readings, n: nat, l: Loc): u64
    requires RefCoresOnline(m) && n <= |m.refCore|
  {
    if l.holder.RefCoreState? && l.holder.socket < n && l.field == TSC then r.core(m.refCore[l.holder.socket], TSC)
    else if l.holder.SocketState? && l.holder.socket < n && l.field.Uncore? then r.socket(l.holder.socket, l.field)
    else if l.holder.SocketState? && l.holder.socket < n && SetPerSocket(l.field) then
      SetBySocket(m, r, l.holder.socket, l.field)
    else 0
  }

  ghost predicate ReferencesRead(m: Machine, r: Readings, n: nat, mem: Memory<Loc>)
    requires RefCoresOnline(m) && n <= |m.refCore|
  {
    forall l: Loc :: ReadPerReference(l.field) ==> Get(mem, l) == RefReading(m, r, n, l)
  }

  /** A location in the second loop, after `s` sockets and the first `n` cores of
      the next one. */
  function RefFold(m: Machine, mem: Memory<Loc>, s: nat, n: nat, l: Loc): u64
    requires n <= |m.online| == |m.socket|
    decreases s, n
  {
    if n > 0 then
      if Counts(m, n - 1, OnSocket(s)) && l.holder == SocketState(s) && SummedFrom(RefCoreState(s), l.field) then
        Plus(RefFold(m, mem, s, n - 1, l), RefFold(m, mem, s, n - 1, Loc(RefCoreState(s), l.field)))
      else RefFold(m, mem, s, n - 1, l)
    else if s > 0 then
      if l.holder == SystemState && SummedFrom(SocketState(s - 1), l.field) then
        Plus(RefFold(m, mem, s - 1, |m.online|, l),
             RefFold(m, mem, s - 1, |m.online|, Loc(SocketState(s - 1), l.field)))
      else RefFold(m, mem, s - 1, |m.online|, l)
    else Get(mem, l)
  }

  /** The second loop of getUncoreCounterStates. */
  method FoldReferenceCores(m: Machine, readings: Memory<Loc>) returns (mem: Memory<Loc>)
    requires ValidMachine(m)
    ensures forall l :: Get(mem, l) == RefFold(m, readings, |m.refCore|, 0, l)
  {
    mem := readings;
    for s := 0 to |m.refCore|
      invariant forall l :: Get(mem, l) == RefFold(m, readings, s, 0, l)
    {
      for core := 0 to |m.online|
        invariant forall l :: Get(mem, l) == RefFold(m, readings, s, core, l)
      {
        if m.socket[core] == s && m.online[core] {
          mem := AddAssign(mem, SocketState(s), RefCoreState(s));
        }
      }
      mem := AddAssign(mem, SystemState, SocketState(s));
    }
  }

  /** The first loop of getUncoreCounterStates. */
  method ReadReferenceCores(m: Machine, r: Readings) returns (mem: Memory<Loc>)
    requires RefCoresOnline(m)
    ensures ReferencesRead(m, r, |m.refCore|, mem)
  {
    mem := map[];
    for s := 0 to |m.refCore|
      invariant ReferencesRead(m, r, s, mem)
    {
      forall l: Loc | ReadPerReference(l.field)
        ensures Get(Run(RefReadCode(m, r, s), Cpu(mem, 0)).mem, l) == RefReading(m, r, s + 1, l)
      {
        RefReadNext(m, r, s, mem, l);
      }
      mem := Run(RefReadCode(m, r, s), Cpu(mem, 0)).mem;
    }
  }

  /** The reference core's time stamp, once for each of the socket's online cores
      among the first `n`. */
  function RefTscTotal(m: Machine, r: Readings, s: nat, n: nat): u64
    requires RefCoresOnline(m) && s < |m.refCore| && n <= |m.online|
  {
    if n == 0 then 0
    else Plus(RefTscTotal(m, r, s, n - 1), if Counts(m, n - 1, OnSocket(s)) then r.core(m.refCore[s], TSC) else 0)
  }

  lemma RefReadNext(m: Machine, r: Readings, s: nat, mem: Memory<Loc>, l: Loc)
    requires RefCoresOnline(m) && s < |m.refCore| && ReferencesRead(m, r, s, mem) && ReadPerReference(l.field)
    ensures Get(Run(RefReadCode(m, r, s), Cpu(mem, 0)).mem, l) == RefReading(m, r, s + 1, l)
  {
    if SetPerSocket(l.field) {
      RefReadSets(m, r, s, Cpu(mem, 0), l);
    } else {
      RefReadAdds(m, r, s, Cpu(mem, 0), l);
    }
  }

  lemma RefReadSets(m: Machine, r: Readings, s: nat, cpu: Cpu<Loc>, l: Loc)
    requires RefCoresOnline(m) && s < |m.refCore| && SetPerSocket(l.field) && Get(cpu.mem, l) == RefReading(m, r, s, l)
    ensures Get(Run(RefReadCode(m, r, s), cpu).mem, l)
         == if l.holder == SocketState(s) then SetBySocket(m, r, s, l.field) else Get(cpu.mem, l)
  {
    RefReadParts(m, r, s, cpu, l);
    TscReadAdds(r, s, m.refCore[s], cpu, l);
    var tsc := Codes([Added(TSC)], RefCoreState(s), FromCore(r, m.refCore[s]));
    SocketReadSets(r, s, SocketState(s), Run(tsc, cpu), l);
  }

  lemma SocketReadSets(r: Readings, s: nat, h: Holder, cpu: Cpu<Loc>, l: Loc)
    requires SetPerSocket(l.field) && (l.holder == h && l.field.PPEnergyStatus? ==> Get(cpu.mem, l) == 0)
    ensures Get(Run(SocketReadCode(r, s, h), cpu).mem, l)
         == if l.holder == h && (l.field.ThermalHeadroom? || (l.field.PPEnergyStatus? && s == 0 && l.field.plane <= 1))
            then r.socket(s, l.field) else Get(cpu.mem, l)
  {
    var actions := SocketActions(s);
    SocketActionsDistinct(s, actions);
    CodesEffect(actions, h, FromSocket(r, s), cpu, l);
    SocketReadHas(s, l.field);
    assert actions[|actions| - 1] == Assigned(ThermalHeadroom);
  }

  lemma RefReadAdds(m: Machine, r: Readings, s: nat, cpu: Cpu<Loc>, l: Loc)
    requires RefCoresOnline(m) && s < |m.refCore| && (l.field == TSC || l.field.Uncore?)
    ensures Get(Run(RefReadCode(m, r, s), cpu).mem, l)
         == if l.holder == RefCoreState(s) && l.field == TSC then Plus(Get(cpu.mem, l), r.core(m.refCore[s], TSC))
            else if l.holder == SocketState(s) && l.field.Uncore? then Plus(Get(cpu.mem, l), r.socket(s, l.field))
            else Get(cpu.mem, l)
  {
    RefReadParts(m, r, s, cpu, l);
    TscReadAdds(r, s, m.refCore[s], cpu, l);
    var tsc := Codes([Added(TSC)], RefCoreState(s), FromCore(r, m.refCore[s]));
    SocketReadAdds(r, s, SocketActions(s), SocketState(s), Run(tsc, cpu), l);
  }

  /** The MSRs aside the code is two reads, one after the other. */
  lemma RefReadParts(m: Machine, r: Readings, s: nat, cpu: Cpu<Loc>, l: Loc)
    requires s < |m.refCore| && 0 <= m.refCore[s]
    ensures var tsc := Codes([Added(TSC)], RefCoreState(s), FromCore(r, m.refCore[s]));
      Get(Run(RefReadCode(m, r, s), cpu).mem, l)
      == if l.holder == SocketState(s) && l.field.MSRValue? && l.field.index in m.thermalMsrs then r.socket(s, l.field)
         else Get(Run(SocketReadCode(r, s, SocketState(s)), Run(tsc, cpu)).mem, l)
  {
    var tsc := Codes([Added(TSC)], RefCoreState(s), FromCore(r, m.refCore[s]));
    var readCode := SocketReadCode(r, s, SocketState(s));
    RunAppends(tsc + readCode, MsrCode(m.thermalMsrs, {}, SocketState(s), FromSocket(r, s)), cpu);
    RunAppends(tsc, readCode, cpu);
    MsrEffect(m.thermalMsrs, {}, SocketState(s), FromSocket(r, s), Run(tsc + readCode, cpu), l);
  }

  lemma TscReadAdds(r: Readings, s: nat, core: nat, cpu: Cpu<Loc>, l: Loc)
    ensures Get(Run(Codes([Added(TSC)], RefCoreState(s), FromCore(r, core)), cpu).mem, l)
         == if l == Loc(RefCoreState(s), TSC) then Plus(Get(cpu.mem, l), r.core(core, TSC)) else Get(cpu.mem, l)
  {
    CodesEffect([Added(TSC)], RefCoreState(s), FromCore(r, core), cpu, l);
    assert [Added(TSC)][0] == Added(TSC);
  }

  lemma {:induction false} RefFoldKeepsRefCores(m: Machine, mem: Memory<Loc>, s: nat, n: nat, l: Loc)
    requires n <= |m.online| == |m.socket| && l.holder.RefCoreState?
    ensures RefFold(m, mem, s, n, l) == Get(mem, l)
    decreases s, n
  {
    if n > 0 {
      RefFoldKeepsRefCores(m, mem, s, n - 1, l);
    } else if s > 0 {
      RefFoldKeepsRefCores(m, mem, s - 1, |m.online|, l);
    }
  }

  /** The second loop leaves the members that are set alone. */
  lemma {:induction false} RefFoldKeepsSet(m: Machine, mem: Memory<Loc>, s: nat, n: nat, l: Loc)
    requires n <= |m.online| == |m.socket| && SetPerSocket(l.field)
    ensures RefFold(m, mem, s, n, l) == Get(mem, l)
    decreases s, n
  {
    if n > 0 {
      RefFoldKeepsSet(m, mem, s, n - 1, l);
    } else if s > 0 {
      RefFoldKeepsSet(m, mem, s - 1, |m.online|, l);
    }
  }

  lemma {:induction false} RefFoldSockets(m: Machine, r: Readings, mem: Memory<Loc>, s: nat, n: nat, k: nat, f: Field)
    requires RefCoresOnline(m) && ReferencesRead(m, r, |m.refCore|, mem) && (f == TSC || f.Uncore?)
    requires s <= |m.refCore| && n <= |m.online| && (s == |m.refCore| ==> n == 0) && k < |m.refCore|
    ensures RefFold(m, mem, s, n, Loc(SocketState(k), f))
         == if f.Uncore? then r.socket(k, f)
            else if k < s then RefTscTotal(m, r, k, |m.online|) else if k == s then RefTscTotal(m, r, k, n) else 0
    decreases s, n
  {
    if n > 0 {
      RefFoldSockets(m, r, mem, s, n - 1, k, f);
      RefFoldKeepsRefCores(m, mem, s, n - 1, Loc(RefCoreState(s), TSC));
    } else if s > 0 {
      RefFoldSockets(m, r, mem, s - 1, |m.online|, k, f);
    }
  }

  /** All cores of a socket read the same time stamp. */
  ghost predicate OneTscPerSocket(m: Machine, r: Readings)
    requires RefCoresOnline(m)
  {
    forall s, c :: 0 <= s < |m.refCore| && 0 <= c < |m.online| && Counts(m, c, OnSocket(s)) ==>
      r.core(c, TSC) == r.core(m.refCore[s], TSC)
  }

  lemma {:induction false} RefTscIsCoreTsc(m: Machine, r: Readings, s: nat, n: nat)
    requires RefCoresOnline(m) && OneTscPerSocket(m, r) && s < |m.refCore| && n <= |m.online|
    ensures RefTscTotal(m, r, s, n) == CoreTotal(m, r, TSC, OnSocket(s), n)
  {
    if n > 0 {
      RefTscIsCoreTsc(m, r, s, n - 1);
    }
  }

  lemma {:induction false} RefFoldSystem(m: Machine, r: Readings, mem: Memory<Loc>, s: nat, n: nat, f: Field)
    requires RefCoresOnline(m) && ReferencesRead(m, r, |m.refCore|, mem) && OneTscPerSocket(m, r)
    requires f == TSC || f.Uncore?
    requires s <= |m.refCore| && n <= |m.online| && (s == |m.refCore| ==> n == 0)
    ensures RefFold(m, mem, s, n, Loc(SystemState, f)) == SystemValue(m, r, f, s)
    decreases s, n
  {
    if n > 0 {
      RefFoldSystem(m, r, mem, s, n - 1, f);
    } else if s > 0 {
      RefFoldSystem(m, r, mem, s - 1, |m.online|, f);
      RefFoldSockets(m, r, mem, s - 1, |m.online|, s - 1, f);
      RefTscIsCoreTsc(m, r, s - 1, |m.online|);
    }
  }

  /** When all cores of a socket read the same time stamp, getUncoreCounterStates
      reports the same invariant TSC as getAllCounterStates, for each socket and
      for the system; its uncore counters agree in the same way. */
  lemma UncoreStatesAgreeWithSnapshot(m: Machine, r: Readings, mem: Memory<Loc>, f: Field)
    requires RefCoresOnline(m) && ReferencesRead(m, r, |m.refCore|, mem) && OneTscPerSocket(m, r)
    requires f == TSC || f.Uncore?
    ensures forall s :: 0 <= s < |m.refCore| ==>
      RefFold(m, mem, |m.refCore|, 0, Loc(SocketState(s), f)) == AllCounterStates(m, r, true, Loc(SocketState(s), f))
    ensures RefFold(m, mem, |m.refCore|, 0, Loc(SystemState, f)) == AllCounterStates(m, r, true, Loc(SystemState, f))
  {
    SnapshotValues(m, r, true, f);
    forall s | 0 <= s < |m.refCore|
      ensures RefFold(m, mem, |m.refCore|, 0, Loc(SocketState(s), f)) == SocketValue(m, r, f, s)
    {
      RefFoldSockets(m, r, mem, |m.refCore|, 0, s, f);
      RefTscIsCoreTsc(m, r, s, |m.online|);
    }
    RefFoldSystem(m, r, mem, |m.refCore|, 0, f);
  }

  method GetUncoreCounterStates(m: Machine, r: Readings) returns (mem: Memory<Loc>)
    requires RefCoresOnline(m)
    ensures OneTscPerSocket(m, r) ==> forall f :: f == TSC || f.Uncore? ==>
      && (forall s :: 0 <= s < |m.refCore| ==>
            Get(mem, Loc(SocketState(s), f)) == AllCounterStates(m, r, true, Loc(SocketState(s), f)))
      && Get(mem, Loc(SystemState, f)) == AllCounterStates(m, r, true, Loc(SystemState, f))
    ensures forall s, f :: 0 <= s < |m.refCore| && SetPerSocket(f) ==>
      Get(mem, Loc(SocketState(s), f)) == SetBySocket(m, r, s, f)
  {
    var readings := ReadReferenceCores(m, r);
    mem := FoldReferenceCores(m, readings);
    if OneTscPerSocket(m, r) {
      forall f | f == TSC || f.Uncore?
        ensures Get(mem, Loc(SystemState, f)) == AllCounterStates(m, r, true, Loc(SystemState, f))
        ensures forall s :: 0 <= s < |m.refCore| ==>
          Get(mem, Loc(SocketState(s), f)) == AllCounterStates(m, r, true, Loc(SocketState(s), f))
      {
        UncoreStatesAgreeWithSnapshot(m, r, readings, f);
      }
    }
    forall s, f | 0 <= s < |m.refCore| && SetPerSocket(f)
      ensures Get(mem, Loc(SocketState(s), f)) == SetBySocket(m, r, s, f)
    {
      RefFoldKeepsSet(m, readings, |m.refCore|, 0, Loc(SocketState(s), f));
      assert ReadPerReference(Loc(SocketState(s), f).field);
    }
  }
}
