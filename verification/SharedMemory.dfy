/** Threads that share memory, at the granularity of one load, one store or one
    atomic addition. The instruction set is what the snapshot tasks of
    PCM::getAllCounterStates execute on `coreStates` and `socketStates`:
    `x += v` is a Load followed by a StoreSum, `x = v` a Store, and
    `atomic_fetch_add(&x, v)` one FetchAdd. */
module SharedMemory {
  import opened Words

  datatype Instr<L> =
    | Store(loc: L, val: u64)
    | Load(loc: L)
    | StoreSum(loc: L, val: u64)
    | FetchAdd(loc: L, val: u64)

  type Program<L> = seq<Instr<L>>

  type Memory<L> = map<L, u64>

  /** One thread's view: the shared memory and its private register. */
  datatype Cpu<L> = Cpu(mem: Memory<L>, tmp: u64)

  /** States are zero-initialised, so a location never written holds 0. */
  function Get<L>(m: Memory<L>, loc: L): u64 {
    if loc in m then m[loc] else 0
  }

  function Exec<L>(i: Instr<L>, cpu: Cpu<L>): Cpu<L> {
    match i
    case Store(loc, val) => cpu.(mem := cpu.mem[loc := val])
    case Load(loc) => cpu.(tmp := Get(cpu.mem, loc))
    case StoreSum(loc, val) => cpu.(mem := cpu.mem[loc := Plus(cpu.tmp, val)])
    case FetchAdd(loc, val) => cpu.(mem := cpu.mem[loc := Plus(Get(cpu.mem, loc), val)])
  }

  function Run<L>(p: Program<L>, cpu: Cpu<L>): Cpu<L> {
    if p == [] then cpu else Exec(p[|p| - 1], Run(p[..|p| - 1], cpu))
  }

  lemma {:induction false} RunAppends<L>(p: Program<L>, q: Program<L>, cpu: Cpu<L>)
    ensures Run(p + q, cpu) == Run(q, Run(p, cpu))
  {
    if q == [] {
      assert p + q == p;
    } else {
      assert (p + q)[..|p + q| - 1] == p + q[..|q| - 1];
      RunAppends(p, q[..|q| - 1], cpu);
    }
  }

  lemma RunOfOne<L>(i: Instr<L>, cpu: Cpu<L>)
    ensures Run([i], cpu) == Exec(i, cpu)
  {
    assert [i][..0] == [];
  }

  lemma RunOfTwo<L>(i: Instr<L>, j: Instr<L>, cpu: Cpu<L>)
    ensures Run([i, j], cpu) == Exec(j, Exec(i, cpu))
  {
    assert [i, j][..1] == [i];
    RunOfOne(i, cpu);
  }

  /** Two instructions of different threads may overlap in time without a data
      race: different locations, two atomic additions, or two loads. */
  predicate Compatible<L(==)>(i: Instr<L>, j: Instr<L>) {
    || i.loc != j.loc
    || (i.FetchAdd? && j.FetchAdd?)
    || (i.Load? && j.Load?)
  }

  ghost predicate AllCompatible<L>(i: Instr<L>, p: Program<L>) {
    forall k :: 0 <= k < |p| ==> Compatible(i, p[k])
  }

  ghost predicate DataRaceFree<L>(codes: seq<Program<L>>) {
    forall t, u :: 0 <= t < |codes| && 0 <= u < |codes| && t != u ==>
      forall k :: 0 <= k < |codes[t]| ==> AllCompatible(codes[t][k], codes[u])
  }

  /** Two compatible instructions of different threads commute. */
  lemma ExecsCommute<L>(i: Instr<L>, own: u64, j: Instr<L>, cpu: Cpu<L>)
    requires Compatible(i, j)
    ensures Exec(j, Cpu(Exec(i, Cpu(cpu.mem, own)).mem, cpu.tmp))
         == Cpu(Exec(i, Cpu(Exec(j, cpu).mem, own)).mem, Exec(j, cpu).tmp)
    ensures Exec(i, Cpu(Exec(j, cpu).mem, own)).tmp == Exec(i, Cpu(cpu.mem, own)).tmp
  {
    var first := Exec(j, Cpu(Exec(i, Cpu(cpu.mem, own)).mem, cpu.tmp)).mem;
    var second := Exec(i, Cpu(Exec(j, cpu).mem, own)).mem;
    if i.loc == j.loc && i.FetchAdd? {
      PlusSwaps(Get(cpu.mem, i.loc), i.val, j.val);
    }
    assert first == second;
  }

  /** An instruction of one thread commutes with a whole stretch of another. */
  lemma {:induction false} ExecCommutesWithRun<L>(i: Instr<L>, own: u64, p: Program<L>, cpu: Cpu<L>)
    requires AllCompatible(i, p)
    ensures Run(p, Cpu(Exec(i, Cpu(cpu.mem, own)).mem, cpu.tmp))
         == Cpu(Exec(i, Cpu(Run(p, cpu).mem, own)).mem, Run(p, cpu).tmp)
    ensures Exec(i, Cpu(Run(p, cpu).mem, own)).tmp == Exec(i, Cpu(cpu.mem, own)).tmp
  {
    if p != [] {
      var front := p[..|p| - 1];
      assert AllCompatible(i, front) by {
        assert forall k :: 0 <= k < |front| ==> front[k] == p[k];
      }
      ExecCommutesWithRun(i, own, front, cpu);
      ExecsCommute(i, own, p[|p| - 1], Run(front, cpu));
    }
  }

  /** Memory after the threads ran one after another, thread `t` stopping after
      its first `progress[t]` instructions. */
  function Serial<L>(codes: seq<Program<L>>, progress: seq<nat>, init: Memory<L>): Memory<L>
    requires |codes| == |progress|
    requires forall t :: 0 <= t < |codes| ==> progress[t] <= |codes[t]|
  {
    if codes == [] then init
    else
      var n := |codes| - 1;
      Run(codes[n][..progress[n]], Cpu(Serial(codes[..n], progress[..n], init), 0)).mem
  }

  /** The private register of thread `t` in that serial execution. */
  function SerialTmp<L>(codes: seq<Program<L>>, progress: seq<nat>, t: nat, init: Memory<L>): u64
    requires t < |codes| == |progress|
    requires forall u :: 0 <= u < |codes| ==> progress[u] <= |codes[u]|
  {
    Run(codes[t][..progress[t]], Cpu(Serial(codes[..t], progress[..t], init), 0)).tmp
  }

  /** The heart of the interleaving argument: when the shared memory equals the
      serial execution of the prefixes run so far, then one more instruction of
      any thread leads to the serial execution of the longer prefixes. */
  lemma {:induction false} StepKeepsSerial<L>(codes: seq<Program<L>>, progress: seq<nat>, t: nat, init: Memory<L>)
    requires Midway(codes, progress, t)
    ensures var next := progress[t := progress[t] + 1];
      Exec(codes[t][progress[t]], Cpu(Serial(codes, progress, init), SerialTmp(codes, progress, t, init)))
      == Cpu(Serial(codes, next, init), SerialTmp(codes, next, t, init))
  {
    var n := |codes| - 1;
    var next := progress[t := progress[t] + 1];
    if t == n {
      assert codes[n][..next[n]][..progress[n]] == codes[n][..progress[n]];
      assert next[..n] == progress[..n];
    } else {
      var i, own := codes[t][progress[t]], SerialTmp(codes, progress, t, init);
      MidwayPrefix(codes, progress, t, n, init);
      StepKeepsSerial(codes[..n], progress[..n], t, init);
      assert next[..n] == progress[..n][t := progress[t] + 1];
      MidwayCompatible(codes, progress, t, n);
      ExecCommutesWithRun(i, own, codes[n][..progress[n]], Cpu(Serial(codes[..n], progress[..n], init), 0));
    }
  }

  /** The register of every other thread is undisturbed by that instruction. */
  lemma StepKeepsOtherTmp<L>(codes: seq<Program<L>>, progress: seq<nat>, t: nat, u: nat, init: Memory<L>)
    requires Midway(codes, progress, t) && u < |codes| && u != t
    ensures SerialTmp(codes, progress[t := progress[t] + 1], u, init) == SerialTmp(codes, progress, u, init)
  {
    var next := progress[t := progress[t] + 1];
    if u < t {
      assert next[..u] == progress[..u];
    } else {
      MidwayPrefix(codes, progress, t, u, init);
      StepKeepsSerial(codes[..u], progress[..u], t, init);
      assert next[..u] == progress[..u][t := progress[t] + 1];
      MidwayCompatible(codes, progress, t, u);
      ExecCommutesWithRun(codes[t][progress[t]], SerialTmp(codes, progress, t, init),
                          codes[u][..progress[u]], Cpu(Serial(codes[..u], progress[..u], init), 0));
    }
  }

  /** Threads that do not race, `t` of them not finished yet. */
  ghost predicate Midway<L>(codes: seq<Program<L>>, progress: seq<nat>, t: nat) {
    && t < |codes| == |progress| && DataRaceFree(codes)
    && (forall u :: 0 <= u < |codes| ==> progress[u] <= |codes[u]|)
    && progress[t] < |codes[t]|
  }

  lemma MidwayPrefix<L>(codes: seq<Program<L>>, progress: seq<nat>, t: nat, n: nat, init: Memory<L>)
    requires Midway(codes, progress, t) && t < n <= |codes|
    ensures Midway(codes[..n], progress[..n], t)
    ensures SerialTmp(codes[..n], progress[..n], t, init) == SerialTmp(codes, progress, t, init)
    ensures progress[t] + 1 <= |codes[t]|
    ensures SerialTmp(codes[..n], progress[..n][t := progress[t] + 1], t, init)
         == SerialTmp(codes, progress[t := progress[t] + 1], t, init)
  {
    RaceFreePrefix(codes, n);
    assert codes[..n][..t] == codes[..t] && progress[..n][..t] == progress[..t];
    assert progress[..n][t := progress[t] + 1][..t] == progress[t := progress[t] + 1][..t];
  }

  lemma MidwayCompatible<L>(codes: seq<Program<L>>, progress: seq<nat>, t: nat, u: nat)
    requires Midway(codes, progress, t) && u < |codes| && u != t
    ensures AllCompatible(codes[t][progress[t]], codes[u][..progress[u]])
  {
    assert AllCompatible(codes[t][progress[t]], codes[u]);
  }

  lemma RaceFreePrefix<L>(codes: seq<Program<L>>, n: nat)
    requires n <= |codes| && DataRaceFree(codes)
    ensures DataRaceFree(codes[..n])
  {
    forall t, u | 0 <= t < n && 0 <= u < n && t != u
      ensures forall k :: 0 <= k < |codes[..n][t]| ==> AllCompatible(codes[..n][t][k], codes[..n][u])
    {
      assert codes[..n][t] == codes[t] && codes[..n][u] == codes[u];
    }
  }
}
