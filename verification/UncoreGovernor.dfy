/** The uncore frequency controller of GPGPU/script/power_util/read_gpu_power.py. */
module UncoreGovernor {

  /** The arguments of set_uncore_freq.sh: 0.8 GHz or 2.4 GHz. */
  datatype Command = Low | High

  /** The threshold the controller uses, whatever the command line asks for. */
  const GPU_POWER_TS := 100.0

  /** What the command line asks for by default. */
  const DEFAULT_OPTION := 70.0

  /** `ts` is the threshold. */
  predicate IsLow(ts: real, power: real) {
    power <= ts
  }

  // ------------------------------------------------------------ a stream of powers

  /** Whether the uncore frequency is to be high after a stream of powers. */
  function FlagAfter(ts: real, start: bool, powers: seq<real>): bool {
    if powers == [] then start else IsLow(ts, powers[|powers| - 1])
  }

  /** The power at `i` is on another side of the threshold than the flag before it. */
  predicate Flips(ts: real, start: bool, powers: seq<real>, i: nat)
    requires i < |powers|
  {
    IsLow(ts, powers[i]) != if i == 0 then start else IsLow(ts, powers[i - 1])
  }

  /** The commands a stream gives rise to: one at each flip. */
  function Commands(ts: real, start: bool, powers: seq<real>): seq<Command> {
    if powers == [] then []
    else
      var n := |powers| - 1;
      Commands(ts, start, powers[..n])
      + if Flips(ts, start, powers, n) then [if IsLow(ts, powers[n]) then High else Low] else []
  }

  function FlipsIn(ts: real, start: bool, powers: seq<real>): set<nat> {
    set i: nat | i < |powers| && Flips(ts, start, powers, i)
  }

  class Governor {
    const gpuPowerTs: real
    var highUncoreFreq: bool
    /** The commands issued so far. */
    var commands: seq<Command>
    var powerData: seq<seq<real>>

    /** The start of the script; `requested` is the threshold option. */
    constructor (requested: real)
      ensures gpuPowerTs == GPU_POWER_TS
      ensures highUncoreFreq && commands == [] && powerData == []
    {
      gpuPowerTs := GPU_POWER_TS;
      highUncoreFreq, commands, powerData := true, [], [];
    }

    method ScaleUncoreFreq(gpuPowers: seq<real>)
      modifies this`highUncoreFreq, this`commands
      ensures highUncoreFreq == FlagAfter(gpuPowerTs, old(highUncoreFreq), gpuPowers)
      ensures commands == old(commands) + Commands(gpuPowerTs, old(highUncoreFreq), gpuPowers)
    {
      ghost var start := highUncoreFreq;
      for i := 0 to |gpuPowers|
        invariant highUncoreFreq == FlagAfter(gpuPowerTs, start, gpuPowers[..i])
        invariant commands == old(commands) + Commands(gpuPowerTs, start, gpuPowers[..i])
      {
        ghost var next := gpuPowers[..i + 1];
        assert next[..i] == gpuPowers[..i];
        var p := gpuPowers[i];
        if p <= gpuPowerTs && !highUncoreFreq {
          commands := commands + [High];
          highUncoreFreq := true;
        } else if p > gpuPowerTs && highUncoreFreq {
          commands := commands + [Low];
          highUncoreFreq := false;
        }
      }
      assert gpuPowers[..|gpuPowers|] == gpuPowers;
    }

    /** The state after a stream, when `issued` were the commands before it. */
    ghost predicate Governed(start: bool, issued: seq<Command>, powers: seq<real>)
      reads this
    {
      highUncoreFreq == FlagAfter(gpuPowerTs, start, powers) && commands == issued + Commands(gpuPowerTs, start, powers)
    }

    method ScaleFurther(ghost start: bool, ghost issued: seq<Command>, ghost before: seq<real>, gpuPowers: seq<real>)
      requires Governed(start, issued, before)
      modifies this`highUncoreFreq, this`commands
      ensures Governed(start, issued, before + gpuPowers)
    {
      CommandsAppend(gpuPowerTs, start, before, gpuPowers);
      ScaleUncoreFreq(gpuPowers);
    }

    /** The sampling loop: one row and, if enabled, one scaling step per sample. */
    method MonitorGpuPower(samples: seq<seq<real>>, dynamicUncore: bool)
      modifies this
      ensures powerData == old(powerData) + samples
      ensures dynamicUncore ==> Governed(old(highUncoreFreq), old(commands), Stream(samples))
      ensures !dynamicUncore ==> highUncoreFreq == old(highUncoreFreq) && commands == old(commands)
    {
      ghost var start, issued := highUncoreFreq, commands;
      for k := 0 to |samples|
        invariant powerData == old(powerData) + samples[..k]
        invariant dynamicUncore ==> Governed(start, issued, Stream(samples[..k]))
        invariant !dynamicUncore ==> highUncoreFreq == start && commands == issued
      {
        assert samples[..k + 1][..k] == samples[..k];
        if dynamicUncore {
          ScaleFurther(start, issued, Stream(samples[..k]), samples[k]);
        }
        powerData := powerData + [samples[k]];
      }
      assert samples[..|samples|] == samples;
    }
  }

  /** All samples, one after another. */
  function Stream(samples: seq<seq<real>>): seq<real> {
    if samples == [] then [] else Stream(samples[..|samples| - 1]) + samples[|samples| - 1]
  }

  lemma {:induction false} CommandsAppend(ts: real, start: bool, a: seq<real>, b: seq<real>)
    ensures Commands(ts, start, a + b) == Commands(ts, start, a) + Commands(ts, FlagAfter(ts, start, a), b)
    ensures FlagAfter(ts, start, a + b) == FlagAfter(ts, FlagAfter(ts, start, a), b)
  {
    if b == [] {
      assert a + b == a;
    } else {
      var n := |b| - 1;
      assert (a + b)[..|a| + n] == a + b[..n];
      CommandsAppend(ts, start, a, b[..n]);
      assert Flips(ts, start, a + b, |a| + n) == Flips(ts, FlagAfter(ts, start, a), b, n);
    }
  }

  // ------------------------------------------------------------ what the commands do

  /** The commands alternate, and the flag always is what the last one asked for. From
      the initial state, where the flag is set, the first one asks for 0.8 GHz. */
  lemma {:induction false} CommandsAlternate(ts: real, start: bool, powers: seq<real>)
    ensures var c := Commands(ts, start, powers);
      && (forall i :: 0 <= i < |c| ==> c[i] == if (i % 2 == 0) == start then Low else High)
      && FlagAfter(ts, start, powers) == (if c == [] then start else c[|c| - 1] == High)
  {
    if powers != [] {
      CommandsAlternate(ts, start, powers[..|powers| - 1]);
    }
  }

  lemma FlipsGrow(ts: real, start: bool, powers: seq<real>, n: nat)
    requires n + 1 == |powers|
    ensures FlipsIn(ts, start, powers)
         == FlipsIn(ts, start, powers[..n]) + if Flips(ts, start, powers, n) then {n} else {}
  {
    forall i: nat | i < n
      ensures Flips(ts, start, powers, i) == Flips(ts, start, powers[..n], i)
    {
      assert powers[..n][i] == powers[i];
    }
  }

  /** There are as many commands as the stream has flips. */
  lemma {:induction false} OneCommandPerFlip(ts: real, start: bool, powers: seq<real>)
    ensures |Commands(ts, start, powers)| == |FlipsIn(ts, start, powers)|
  {
    if powers == [] {
      assert FlipsIn(ts, start, powers) == {};
    } else {
      var n := |powers| - 1;
      OneCommandPerFlip(ts, start, powers[..n]);
      FlipsGrow(ts, start, powers, n);
    }
  }

  /** After a non-empty sample the flag says whether the last GPU drew at most the
      threshold, whatever came before. */
  lemma FlagIsLastPower(ts: real, start: bool, before: seq<seq<real>>, sample: seq<real>)
    requires sample != []
    ensures FlagAfter(ts, start, Stream(before + [sample])) <==> sample[|sample| - 1] <= ts
  {
    assert (before + [sample])[..|before|] == before;
    CommandsAppend(ts, start, Stream(before), sample);
  }

  /** The controller itself goes by 100 W. */
  lemma ControllerGoesBy100W(start: bool, powers: seq<real>)
    requires powers != []
    ensures FlagAfter(GPU_POWER_TS, start, powers) <==> powers[|powers| - 1] <= 100.0
  {
  }

  // ------------------------------------------------------- the requested threshold

  /** A power that the two thresholds judge differently. */
  predicate Between(ts: real, power: real) {
    ts < power <= GPU_POWER_TS || GPU_POWER_TS < power <= ts
  }

  ghost predicate NoneBetween(ts: real, powers: seq<real>) {
    forall i :: 0 <= i < |powers| ==> !Between(ts, powers[i])
  }

  /** The flag is the one the requested threshold would give, after every power. */
  ghost predicate FlagsAsRequested(ts: real, start: bool, powers: seq<real>) {
    forall n :: 0 <= n <= |powers| ==> FlagAfter(ts, start, powers[..n]) == FlagAfter(GPU_POWER_TS, start, powers[..n])
  }

  /** And so are the commands issued so far. */
  ghost predicate CommandsAsRequested(ts: real, start: bool, powers: seq<real>) {
    forall n :: 0 <= n <= |powers| ==> Commands(ts, start, powers[..n]) == Commands(GPU_POWER_TS, start, powers[..n])
  }

  lemma {:induction false} SameJudgements(ts: real, start: bool, powers: seq<real>)
    requires NoneBetween(ts, powers)
    ensures FlagAfter(ts, start, powers) == FlagAfter(GPU_POWER_TS, start, powers)
    ensures Commands(ts, start, powers) == Commands(GPU_POWER_TS, start, powers)
  {
    if powers != [] {
      var n := |powers| - 1;
      SameJudgements(ts, start, powers[..n]);
      assert Flips(ts, start, powers, n) == Flips(GPU_POWER_TS, start, powers, n);
    }
  }

  /** The script acts as the requested threshold asks, in its flag or in its commands,
      if and only if no GPU ever draws a power between the two thresholds. */
  lemma RequestIsHonouredExactlyWhen(ts: real, start: bool, powers: seq<real>)
    ensures FlagsAsRequested(ts, start, powers) <==> NoneBetween(ts, powers)
    ensures CommandsAsRequested(ts, start, powers) <==> NoneBetween(ts, powers)
  {
    if NoneBetween(ts, powers) {
      forall n | 0 <= n <= |powers|
        ensures FlagAfter(ts, start, powers[..n]) == FlagAfter(GPU_POWER_TS, start, powers[..n])
        ensures Commands(ts, start, powers[..n]) == Commands(GPU_POWER_TS, start, powers[..n])
      {
        SameJudgements(ts, start, powers[..n]);
      }
    } else {
      var i :| 0 <= i < |powers| && Between(ts, powers[i]);
      var seen := powers[..i + 1];
      assert seen[i] == powers[i];
      CommandsAlternate(ts, start, seen);
      CommandsAlternate(GPU_POWER_TS, start, seen);
      assert FlagAfter(ts, start, seen) != FlagAfter(GPU_POWER_TS, start, seen);
      assert Commands(ts, start, seen) != Commands(GPU_POWER_TS, start, seen);
    }
  }

  /** With the option left at its default, a GPU that draws 80 W should bring the
      frequency down, and does not. */
  lemma DefaultOptionIsNotHonoured()
    ensures Commands(DEFAULT_OPTION, true, [80.0]) == [Low] && Commands(GPU_POWER_TS, true, [80.0]) == []
  {
    assert [80.0][..0] == [];
  }
}
