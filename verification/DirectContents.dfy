/** What PCM::getSystemCounterState and getSocketCounterState leave in the members that are
    not sums, and where it differs from the snapshot: the occupancy of the L3 cache and the
    energy of the power planes. */
module DirectContents {
  import opened Words
  import opened SharedMemory
  import opened CounterStates
  import opened Snapshot
  import opened Aggregation
  import opened SnapshotContents

  /** The members of interest here. */
  predicate NotSummed(f: Field) {
    f.L3Occupancy? || SetPerSocket(f)
  }

  /** What every core read sets anew. */
  predicate SetByCore(m: Machine, f: Field) {
    f.L3Occupancy? || f.ThermalHeadroom? || (f.MSRValue? && f.index in m.coreMsrs)
  }

  /** The reading of the last core in scope, 0 if there is none. */
  function OfLastCore(m: Machine, r: Readings, scope: Scope, n: nat, f: Field): u64
    requires n <= |m.online| == |m.socket|
  {
    if n == 0 then 0
    else if Counts(m, n - 1, scope) then r.core(n - 1, f)
    else OfLastCore(m, r, scope, n - 1, f)
  }

  lemma DirectCoreSets(m: Machine, r: Readings, core: nat, cpu: Cpu<Loc>, f: Field)
    requires NotSummed(f)
    ensures var l := Loc(ResultState, f);
      Get(Run(DirectCoreCode(m, r, core), cpu).mem, l)
      == if SetByCore(m, f) then r.core(core, f) else Get(cpu.mem, l)
  {
    var l, source := Loc(ResultState, f), FromCore(r, core);
    var readCode, msrs := CoreReadCode(r, core, ResultState), MsrCode(m.coreMsrs, {}, ResultState, source);
    RunAppends(readCode + msrs, PackageCode(ResultState, source, MAX_C_STATE + 1), cpu);
    RunAppends(readCode, msrs, cpu);
    CoreReadSets(r, core, cpu, f);
    MsrEffect(m.coreMsrs, {}, ResultState, source, Run(readCode, cpu), l);
    PackageEffect(ResultState, source, MAX_C_STATE + 1, Run(readCode + msrs, cpu), l);
  }

  lemma CoreReadSets(r: Readings, core: nat, cpu: Cpu<Loc>, f: Field)
    requires NotSummed(f)
    ensures var l := Loc(ResultState, f);
      Get(Run(CoreReadCode(r, core, ResultState), cpu).mem, l)
      == if f.L3Occupancy? || f.ThermalHeadroom? then r.core(core, f) else Get(cpu.mem, l)
  {
    var actions := BasicActions(r, core);
    BasicActionsDistinct(r, core);
    CoreReadHasOnly(r, core);
    CodesEffect(actions, ResultState, FromCore(r, core), cpu, Loc(ResultState, f));
    assert actions[CORE_COUNTERS + 2] == Assigned(L3Occupancy);
    assert actions[CORE_COUNTERS + 3] == Assigned(ThermalHeadroom);
  }

  lemma {:induction false} DirectCoresLeave(m: Machine, r: Readings, scope: Scope, n: nat, f: Field)
    requires n <= |m.online| == |m.socket| && NotSummed(f)
    ensures Get(DirectCores(m, r, scope, n), Loc(ResultState, f))
         == if SetByCore(m, f) then OfLastCore(m, r, scope, n, f) else 0
  {
    if n > 0 {
      DirectCoresLeave(m, r, scope, n - 1, f);
      if Counts(m, n - 1, scope) {
        DirectCoreSets(m, r, n - 1, Cpu(DirectCores(m, r, scope, n - 1), 0), f);
      }
    }
  }

  /** A direct read of a socket shows the occupancy of its last online core, the headroom
      and the MSRs of its package, the MSRs of its last core, and for socket 0 the energy of
      the power planes. */
  lemma DirectSocketContent(m: Machine, r: Readings, s: nat, f: Field)
    requires ValidMachine(m) && NotSummed(f)
    ensures Get(SocketCounterState(m, r, s), Loc(ResultState, f))
         == if || f.ThermalHeadroom? || (f.MSRValue? && f.index in m.thermalMsrs)
               || (f.PPEnergyStatus? && s == 0 && f.plane <= 1)
            then r.socket(s, f)
            else if f.L3Occupancy? || (f.MSRValue? && f.index in m.coreMsrs)
            then OfLastCore(m, r, OnSocket(s), |m.online|, f)
            else 0
  {
    var cpu, l := Cpu(DirectCores(m, r, OnSocket(s), |m.online|), 0), Loc(ResultState, f);
    var readCode := SocketReadCode(r, s, ResultState);
    DirectCoresLeave(m, r, OnSocket(s), |m.online|, f);
    RunAppends(readCode, MsrCode(m.thermalMsrs, {}, ResultState, FromSocket(r, s)), cpu);
    MsrEffect(m.thermalMsrs, {}, ResultState, FromSocket(r, s), Run(readCode, cpu), l);
    if f.L3Occupancy? {
      SocketReadAdds(r, s, SocketActions(s), ResultState, cpu, l);
    } else {
      SocketReadSets(r, s, ResultState, cpu, l);
    }
  }

  lemma SocketCountersKeep(r: Readings, s: nat, cpu: Cpu<Loc>, f: Field)
    requires NotSummed(f)
    ensures var l := Loc(ResultState, f);
      Get(Run(Codes(SocketCounterActions(s), ResultState, FromSocket(r, s)), cpu).mem, l)
      == if f.PPEnergyStatus? && s == 0 && f.plane <= 1 then Plus(Get(cpu.mem, l), r.socket(0, f)) else Get(cpu.mem, l)
  {
    var actions := SocketCounterActions(s);
    SocketActionsDistinct(s, actions);
    CodesEffect(actions, ResultState, FromSocket(r, s), cpu, Loc(ResultState, f));
    if f.PPEnergyStatus? && s == 0 && f.plane <= 1 {
      assert actions[SOCKET_COUNTERS + f.plane] == Added(f);
    }
  }

  lemma {:induction false} DirectSocketsLeave(m: Machine, r: Readings, mem: Memory<Loc>, n: nat, f: Field)
    requires n <= |m.refCore| && NotSummed(f) && (f.PPEnergyStatus? ==> Get(mem, Loc(ResultState, f)) == 0)
    ensures Get(DirectSockets(m, r, mem, n), Loc(ResultState, f))
         == if f.PPEnergyStatus? && f.plane <= 1 && n > 0 && m.refCore[0] != -1 then r.socket(0, f)
            else Get(mem, Loc(ResultState, f))
  {
    if n > 0 {
      DirectSocketsLeave(m, r, mem, n - 1, f);
      if m.refCore[n - 1] != -1 {
        SocketCountersKeep(r, n - 1, Cpu(DirectSockets(m, r, mem, n - 1), 0), f);
      }
    }
  }

  /** One of the system shows the occupancy and the MSRs of the last online core, no thermal
      headroom, and the energy of the power planes. */
  lemma DirectSystemContent(m: Machine, r: Readings, f: Field)
    requires ValidMachine(m) && NotSummed(f)
    ensures Get(SystemCounterState(m, r), Loc(ResultState, f))
         == if f.PPEnergyStatus? && f.plane <= 1 && |m.refCore| > 0 && m.refCore[0] != -1 then r.socket(0, f)
            else if f.L3Occupancy? || (f.MSRValue? && f.index in m.coreMsrs)
            then OfLastCore(m, r, Everywhere, |m.online|, f)
            else 0
  {
    DirectCoresLeave(m, r, Everywhere, |m.online|, f);
    DirectSocketsLeave(m, r, DirectCores(m, r, Everywhere, |m.online|), |m.refCore|, f);
  }

  // -------------------------------------------------------- where the snapshot differs

  ghost predicate Agrees(m: Machine, r: Readings, f: Field)
    requires ValidMachine(m)
  {
    AllCounterStates(m, r, true, Loc(SystemState, f)) == Get(SystemCounterState(m, r), Loc(ResultState, f))
  }

  /** Registers that read 0 except for those of core `c`, which read 1. */
  function OnlyCoreReads(c: nat): Readings {
    Readings((core: nat, f: Field) => if core == c then 1 else 0, (socket: nat, f: Field) => 0, (i: nat) => 0)
  }

  lemma {:induction false} TotalOfOne(m: Machine, c: nat, n: nat)
    requires n <= |m.online| == |m.socket| && c < |m.online| && m.online[c]
    ensures CoreTotal(m, OnlyCoreReads(c), L3Occupancy, Everywhere, n) == if c < n then 1 else 0
  {
    if n > 0 {
      TotalOfOne(m, c, n - 1);
    }
  }

  lemma {:induction false} LastIsAnother(m: Machine, c: nat, d: nat, n: nat)
    requires c < d < n <= |m.online| == |m.socket| && m.online[d]
    ensures OfLastCore(m, OnlyCoreReads(c), Everywhere, n, L3Occupancy) == 0
  {
    if !m.online[n - 1] {
      LastIsAnother(m, c, d, n - 1);
    }
  }

  lemma {:induction false} AtMostOneCore(m: Machine, r: Readings, n: nat)
    requires n <= |m.online| == |m.socket|
    requires forall c, d :: 0 <= c < d < n ==> !(m.online[c] && m.online[d])
    ensures CoreTotal(m, r, L3Occupancy, Everywhere, n) == OfLastCore(m, r, Everywhere, n, L3Occupancy)
    ensures (forall c :: 0 <= c < n ==> !m.online[c]) ==> OfLastCore(m, r, Everywhere, n, L3Occupancy) == 0
  {
    if n > 0 {
      AtMostOneCore(m, r, n - 1);
    }
  }

  /** Snapshot and direct read of the system show the same occupancy whatever the cores
      read if and only if at most one core is online: the snapshot has the sum. */
  lemma OccupancyAgreesExactlyWhen(m: Machine)
    requires ValidMachine(m)
    ensures (forall r: Readings :: Agrees(m, r, L3Occupancy))
       <==> (forall c, d :: 0 <= c < d < |m.online| ==> !(m.online[c] && m.online[d]))
  {
    forall r: Readings
      ensures Agrees(m, r, L3Occupancy) <==> CoreTotal(m, r, L3Occupancy, Everywhere, |m.online|)
                                             == OfLastCore(m, r, Everywhere, |m.online|, L3Occupancy)
    {
      DirectSystemContent(m, r, L3Occupancy);
      SystemHolds(m, r, true, L3Occupancy);
    }
    if c, d :| 0 <= c < d < |m.online| && m.online[c] && m.online[d] {
      TotalOfOne(m, c, |m.online|);
      LastIsAnother(m, c, d, |m.online|);
      assert !Agrees(m, OnlyCoreReads(c), L3Occupancy);
    } else {
      forall r: Readings
        ensures Agrees(m, r, L3Occupancy)
      {
        AtMostOneCore(m, r, |m.online|);
      }
    }
  }

  /** They show the same energy of a power plane exactly if socket 0 reads 0 or has no
      reference core: the fold of sockets into the system does not sum it. */
  lemma PowerPlaneAgreesExactlyWhen(m: Machine, r: Readings, plane: nat)
    requires ValidMachine(m) && plane <= 1 && |m.refCore| > 0
    ensures Agrees(m, r, PPEnergyStatus(plane))
       <==> m.refCore[0] == -1 || r.socket(0, PPEnergyStatus(plane)) == 0
  {
    DirectSystemContent(m, r, PPEnergyStatus(plane));
    SystemHolds(m, r, true, PPEnergyStatus(plane));
  }
}
