/** The freeze, program, reset and unfreeze protocol of UncorePMU, the snapshot
    between ServerUncorePMUs::freezeCounters and unfreezeCounters, and the removal
    of links whose PMU does not respond. */
module UncorePmu {
  import opened Bits
  import opened Options
  import opened Words

  // ------------------------------------------------------------------- the hardware

  const FRZ: nat := 0x100
  const FRZ_EN: nat := 0x1_0000
  const RSV: nat := 0x3_0000
  const RST_COUNTERS: nat := 2
  const SPR_FRZ: nat := 1
  const SPR_RST_CONTROL: nat := 0x100
  const SPR_RST_COUNTERS: nat := 0x200
  const VALID_BITS: nat := 0x2_0000 // one more than UNC_PMON_UNIT_CTL_VALID_BITS_MASK
  const MC_CH_PCI_PMON_CTL_EN: nat := 0x40_0000

  predicate Bit(word: nat, weight: nat)
    requires weight > 0
  {
    word / weight % 2 == 1
  }

  /** A register write: to the unit control register, with its effects, or to the
      control register of a counter. */
  datatype Write =
    | UnitControl(word: nat, freezes: bool, resetsControls: bool, resetsCounters: bool)
    | CounterControl(counter: nat, word: nat)

  /** What a word does in the unit control register. `spr` tells the layout, the one
      of Sapphire and Emerald Rapids or the older one; older units stop counting only
      if freezing is also enabled. */
  function Unit(spr: bool, word: nat): Write {
    if spr then UnitControl(word, Bit(word, 1), Bit(word, 0x100), Bit(word, 0x200))
    else UnitControl(word, Bit(word, 0x100) && Bit(word, 0x1_0000), Bit(word, 1), Bit(word, 2))
  }

  /** A PMU's counters and event selections. */
  datatype Box = Box(frozen: bool, controls: seq<nat>, values: seq<u64>)

  function Zeros(n: nat): (s: seq<nat>)
    ensures |s| == n && forall i :: 0 <= i < n ==> s[i] == 0
  {
    seq(n, _ => 0)
  }

  function Apply(b: Box, w: Write): Box {
    match w
    case UnitControl(_, freezes, resetsControls, resetsCounters) =>
      Box(freezes, if resetsControls then Zeros(|b.controls|) else b.controls,
          if resetsCounters then Zeros(|b.values|) else b.values)
    case CounterControl(c, word) =>
      if c < |b.controls| then b.(controls := b.controls[c := word]) else b
  }

  /** Time passes: the counters take any values unless the box is frozen. */
  function Tick(b: Box, values: seq<u64>): Box {
    if b.frozen || |values| != |b.values| then b else b.(values := values)
  }

  /** Writes with time passing after each, as the environment pleases. */
  function Run(b: Box, writes: seq<Write>, env: nat -> seq<u64>, t: nat): Box {
    if writes == [] then b
    else
      var n := |writes| - 1;
      Tick(Apply(Run(b, writes[..n], env, t), writes[n]), env(t + n))
  }

  lemma {:induction false} RunAppends(b: Box, p: seq<Write>, q: seq<Write>, env: nat -> seq<u64>, t: nat)
    ensures Run(b, p + q, env, t) == Run(Run(b, p, env, t), q, env, t + |p|)
  {
    if q == [] {
      assert p + q == p;
    } else {
      var n := |q| - 1;
      assert (p + q)[..|p + q| - 1] == p + q[..n];
      RunAppends(b, p, q[..n], env, t);
    }
  }

  lemma RunOfOne(b: Box, w: Write, env: nat -> seq<u64>, t: nat)
    ensures Run(b, [w], env, t) == Tick(Apply(b, w), env(t))
  {
    assert [w][..0] == [];
  }

  lemma RunOfTwo(b: Box, w: Write, w': Write, env: nat -> seq<u64>, t: nat)
    ensures Run(b, [w, w'], env, t) == Tick(Apply(Tick(Apply(b, w), env(t)), w'), env(t + 1))
  {
    assert [w, w'][..1] == [w];
    RunOfOne(b, w, env, t);
  }

  // ------------------------------------------------------------- what is written

  function InitWrites(spr: bool, extra: nat): seq<Write> {
    if spr then [Unit(spr, SPR_FRZ), Unit(spr, SPR_FRZ + SPR_RST_CONTROL)]
    else [Unit(spr, extra), Unit(spr, extra + FRZ)]
  }

  function Programmed(spr: bool, event: nat): nat {
    if spr then event else Or(MC_CH_PCI_PMON_CTL_EN, event)
  }

  /** The newer layout takes the event as it is; on the older one bit 22 enables the counter
      and all other bits are those of the event. */
  lemma ProgrammedWord(event: nat)
    ensures Programmed(true, event) == event
    ensures Programmed(false, event) == if event / 0x40_0000 % 2 == 1 then event else event + 0x40_0000
  {
    assert Pow2(22) == 0x40_0000 by {
      Pow2Adds(11, 11);
      assert Pow2(11) == 0x800;
    }
    OrWithBit(22, event);
  }

  /** One counter's control register; a null pointer is skipped. */
  function WritesOfOne(spr: bool, present: bool, c: nat, event: nat): seq<Write> {
    if !present then []
    else if spr then [CounterControl(c, event)]
    else [CounterControl(c, MC_CH_PCI_PMON_CTL_EN), CounterControl(c, Or(MC_CH_PCI_PMON_CTL_EN, event))]
  }

  /** The control registers of the first `n` counters. */
  function CounterWrites(spr: bool, present: seq<bool>, events: seq<nat>, n: nat): seq<Write>
    requires n <= |present| && n <= |events|
  {
    if n == 0 then []
    else
      CounterWrites(spr, present, events, n - 1) + WritesOfOne(spr, present[n - 1], n - 1, events[n - 1])
  }

  function ResetWrites(spr: bool, extra: nat): seq<Write> {
    if spr then [Unit(spr, SPR_FRZ + SPR_RST_COUNTERS), Unit(spr, 0)]
    else [Unit(spr, extra + FRZ + RST_COUNTERS), Unit(spr, extra)]
  }

  function Used(present: seq<bool>, events: seq<nat>): nat {
    if |events| < |present| then |events| else |present|
  }

  /** PCM::program: a null event list does nothing, and `extra` decides on the reset. */
  function ProgramWrites(spr: bool, present: seq<bool>, events: Option<seq<nat>>, extra: nat): seq<Write> {
    if events.None? then []
    else
      CounterWrites(spr, present, events.value, Used(present, events.value))
      + if extra != 0 then ResetWrites(spr, extra) else []
  }

  /** One PMU object. */
  class UncorePMU {
    const spr: bool
    const present: seq<bool>
    var hasUnitControl: bool
    /** The register writes so far, oldest first. */
    var written: seq<Write>

    predicate Valid()
      reads this
    {
      hasUnitControl
    }

    /** `xpiCheck` says whether a message was passed, `readback` what the unit control
        register reads after the first write. */
    method InitFreeze(extra: nat, xpiCheck: bool, readback: nat) returns (ok: bool)
      modifies this
      ensures ok == !(old(Valid()) && !spr && xpiCheck && extra % VALID_BITS != readback % VALID_BITS)
      ensures Valid() == (old(Valid()) && ok)
      ensures written == old(written) +
                         if !old(Valid()) then []
                         else if ok then InitWrites(spr, extra)
                         else [Unit(spr, extra)]
    {
      if !hasUnitControl {
        return true;
      }
      if spr {
        written := written + [Unit(spr, SPR_FRZ)];
        written := written + [Unit(spr, SPR_FRZ + SPR_RST_CONTROL)];
        return true;
      }
      written := written + [Unit(spr, extra)];
      if xpiCheck {
        if extra % VALID_BITS != readback % VALID_BITS {
          hasUnitControl := false;
          return false;
        }
      }
      written := written + [Unit(spr, extra + FRZ)];
      return true;
    }

    /** The reset dereferences the unit control register. */
    method Program(events: Option<seq<nat>>, extra: nat)
      requires events.Some? && extra != 0 ==> Valid()
      modifies this`written
      ensures written == old(written) + ProgramWrites(spr, present, events, extra)
    {
      if events.None? {
        return;
      }
      var c := 0;
      while c < |events.value| && c < |present|
        invariant c <= |events.value| && c <= |present|
        invariant written == old(written) + CounterWrites(spr, present, events.value, c)
      {
        ProgramOne(present[c], c, events.value[c]);
        c := c + 1;
      }
      if extra != 0 {
        ResetUnfreeze(extra);
      }
    }

    method ProgramOne(present: bool, c: nat, event: nat)
      modifies this`written
      ensures written == old(written) + WritesOfOne(spr, present, c, event)
    {
      if present {
        if spr {
          written := written + [CounterControl(c, event)];
        } else {
          written := written + [CounterControl(c, MC_CH_PCI_PMON_CTL_EN)];
          written := written + [CounterControl(c, Or(MC_CH_PCI_PMON_CTL_EN, event))];
        }
      }
    }

    /** Two writes: the first freezes the box and zeroes its counters, the second
        releases it; neither touches the event selections. */
    method ResetUnfreeze(extra: nat)
      requires Valid()
      modifies this`written
      ensures written == old(written) + ResetWrites(spr, extra)
      ensures EnablesFreeze(extra) ==> exists reset, release ::
        && written == old(written) + [reset, release]
        && Does(reset, true, false, true) && Does(release, false, false, false)
    {
      if EnablesFreeze(extra) {
        ResetWords(spr, extra);
      }
      if spr {
        written := written + [Unit(spr, SPR_FRZ + SPR_RST_COUNTERS)];
        written := written + [Unit(spr, 0)];
        return;
      }
      written := written + [Unit(spr, extra + FRZ + RST_COUNTERS)];
      written := written + [Unit(spr, extra)];
    }
  }

  /** UncorePMU::freeze and unfreeze each write one word; they dereference the unit
      control register. */
  function FreezeWord(spr: bool, extra: nat): Write {
    Unit(spr, if spr then SPR_FRZ else extra + FRZ)
  }

  function UnfreezeWord(spr: bool, extra: nat): Write {
    Unit(spr, if spr then 0 else extra)
  }

  // ---------------------------------------------------------- what the words mean

  /** The unit control words as numbers. */
  lemma WordsWritten(extra: nat)
    ensures InitWrites(false, extra)[0].word == extra && InitWrites(false, extra)[1].word == extra + 0x100
    ensures InitWrites(true, extra)[0].word == 1 && InitWrites(true, extra)[1].word == 0x101
    ensures ResetWrites(false, extra)[0].word == extra + 0x102 && ResetWrites(false, extra)[1].word == extra
    ensures ResetWrites(true, extra)[0].word == 0x201 && ResetWrites(true, extra)[1].word == 0
    ensures FreezeWord(false, extra).word == extra + 0x100 && UnfreezeWord(false, extra).word == extra
    ensures FreezeWord(true, extra).word == 1 && UnfreezeWord(true, extra).word == 0
  {
  }

  /** The values of `extra` in use are FRZ_EN and RSV: they enable freezing and leave
      the freeze and reset bits alone. */
  predicate EnablesFreeze(extra: nat) {
    Bit(extra, 0x1_0000) && !Bit(extra, 0x100) && !Bit(extra, 1) && !Bit(extra, 2)
  }

  lemma ExtrasInUse()
    ensures EnablesFreeze(FRZ_EN) && EnablesFreeze(RSV)
  {
  }

  lemma EvenIsNot255(q: nat, b: nat)
    requires b < 0x100 && (0x100 * q + b) % 2 == 0
    ensures b < 0xff
  {
  }

  lemma UpperBytes(x: nat)
    ensures x / 0x100 == 0x100 * (x / 0x1_0000) + x % 0x1_0000 / 0x100 && x % 0x1_0000 / 0x100 < 0x100
  {
    var q, r := x / 0x1_0000, x % 0x1_0000;
    assert x == 0x100 * (0x100 * q + r / 0x100) + r % 0x100;
  }

  lemma FreezeBitDoesNotCarry(x: nat)
    requires x / 0x100 % 2 == 0
    ensures (x + 0x100) / 0x1_0000 == x / 0x1_0000
  {
    UpperBytes(x);
    EvenIsNot255(x / 0x1_0000, x % 0x1_0000 / 0x100);
    DivModUnique(x + 0x100, 0x1_0000, x / 0x1_0000, x % 0x1_0000 + 0x100);
  }

  lemma FreezeBitIsSet(x: nat)
    requires x / 0x100 % 2 == 0
    ensures (x + 0x100) / 0x100 % 2 == 1
  {
    assert (x + 0x100) / 0x100 == x / 0x100 + 1;
  }

  lemma SetFreezeBit(x: nat)
    requires !Bit(x, 0x100)
    ensures Bit(x + FRZ, 0x100) && Bit(x + FRZ, 0x1_0000) == Bit(x, 0x1_0000)
    ensures Bit(x + FRZ, 1) == Bit(x, 1) && Bit(x + FRZ, 2) == Bit(x, 2)
  {
    FreezeBitIsSet(x);
    FreezeBitDoesNotCarry(x);
    LowBitsUnaffected(x);
  }

  lemma LowBitsUnaffected(x: nat)
    ensures Bit(x + FRZ, 1) == Bit(x, 1) && Bit(x + FRZ, 2) == Bit(x, 2)
  {
    assert (x + 0x100) / 2 == x / 2 + 0x80;
  }

  lemma SetResetBit(x: nat)
    requires !Bit(x, 2)
    ensures Bit(x + RST_COUNTERS, 2) && Bit(x + RST_COUNTERS, 1) == Bit(x, 1)
    ensures Bit(x + RST_COUNTERS, 0x100) == Bit(x, 0x100) && Bit(x + RST_COUNTERS, 0x1_0000) == Bit(x, 0x1_0000)
  {
    ResetBitIsSet(x);
    HighBitsUnaffected(x);
  }

  lemma ResetBitIsSet(x: nat)
    requires x / 2 % 2 == 0
    ensures (x + 2) / 2 % 2 == 1 && (x + 2) % 2 == x % 2
  {
    assert (x + 2) / 2 == x / 2 + 1;
  }

  lemma HighBitsUnaffected(x: nat)
    requires !Bit(x, 2)
    ensures (x + 2) / 0x100 == x / 0x100 && (x + 2) / 0x1_0000 == x / 0x1_0000
  {
    var w, y := (x + 2) / 4, x / 4;
    assert w == y by {
      assert (x + 2) / 2 == x / 2 + 1;
    }
    assert (x + 2) / 0x100 == w / 0x40 && x / 0x100 == y / 0x40;
    assert (x + 2) / 0x1_0000 == w / 0x4000 && x / 0x1_0000 == y / 0x4000;
  }

  /** A word with its effects spelled out. */
  predicate Does(w: Write, freezes: bool, resetsControls: bool, resetsCounters: bool) {
    && w.UnitControl?
    && w.freezes == freezes && w.resetsControls == resetsControls && w.resetsCounters == resetsCounters
  }

  lemma OldWords(extra: nat)
    requires EnablesFreeze(extra)
    ensures Does(Unit(false, extra), false, false, false)
    ensures Does(Unit(false, extra + FRZ), true, false, false)
    ensures Does(Unit(false, extra + FRZ + RST_COUNTERS), true, false, true)
  {
    SetFreezeBit(extra);
    SetResetBit(extra + FRZ);
  }

  lemma SprWords()
    ensures Does(Unit(true, SPR_FRZ), true, false, false)
    ensures Does(Unit(true, SPR_FRZ + SPR_RST_CONTROL), true, true, false)
    ensures Does(Unit(true, SPR_FRZ + SPR_RST_COUNTERS), true, false, true)
    ensures Does(Unit(true, 0), false, false, false)
  {
  }

  lemma InitWords(spr: bool, extra: nat)
    requires EnablesFreeze(extra)
    ensures var w := InitWrites(spr, extra);
      |w| == 2 && Does(w[0], spr, false, false) && Does(w[1], true, spr, false)
  {
    OldWords(extra);
    SprWords();
  }

  lemma ResetWords(spr: bool, extra: nat)
    requires EnablesFreeze(extra)
    ensures var w := ResetWrites(spr, extra);
      |w| == 2 && w == [w[0], w[1]] && Does(w[0], true, false, true) && Does(w[1], false, false, false)
  {
    OldWords(extra);
    SprWords();
  }

  lemma FreezeWords(spr: bool, extra: nat)
    requires EnablesFreeze(extra)
    ensures Does(FreezeWord(spr, extra), true, false, false) && Does(UnfreezeWord(spr, extra), false, false, false)
  {
    OldWords(extra);
    SprWords();
  }

  // ------------------------------------------------------------------ the protocol

  /** initFreeze leaves the box frozen, with its event selection cleared on the
      newer layout and kept on the older one. */
  lemma InitFreezes(b: Box, spr: bool, extra: nat, env: nat -> seq<u64>, t: nat)
    requires EnablesFreeze(extra)
    ensures var b' := Run(b, InitWrites(spr, extra), env, t);
      && b'.frozen && b'.controls == (if spr then Zeros(|b.controls|) else b.controls) && |b'.values| == |b.values|
    ensures spr ==> Run(b, [InitWrites(spr, extra)[0]], env, t).frozen
  {
    InitWords(spr, extra);
    var w := InitWrites(spr, extra);
    assert w == [w[0], w[1]];
    RunOfOne(b, w[0], env, t);
    RunOfTwo(b, w[0], w[1], env, t);
  }

  /** All writes are to the control registers of counters below `n`. */
  ghost predicate OnlyControls(writes: seq<Write>, n: nat) {
    forall i :: 0 <= i < |writes| ==> writes[i].CounterControl? && writes[i].counter < n
  }

  /** While the control registers are written a frozen box stays frozen and keeps its
      counts. */
  lemma {:induction false} ProgrammingKeepsFrozen(b: Box, writes: seq<Write>, n: nat, env: nat -> seq<u64>, t: nat)
    requires b.frozen && OnlyControls(writes, n)
    ensures var b' := Run(b, writes, env, t); b'.frozen && b'.values == b.values && |b'.controls| == |b.controls|
  {
    if writes != [] {
      ProgrammingKeepsFrozen(b, writes[..|writes| - 1], n, env, t);
    }
  }

  lemma OnlyControlsAppends(p: seq<Write>, q: seq<Write>, m: nat, n: nat)
    requires m <= n && OnlyControls(p, m) && OnlyControls(q, n)
    ensures OnlyControls(p + q, n)
  {
  }

  lemma {:induction false} CounterWritesAreControls(spr: bool, present: seq<bool>, events: seq<nat>, n: nat)
    requires n <= |present| && n <= |events|
    ensures OnlyControls(CounterWrites(spr, present, events, n), n)
  {
    if n > 0 {
      CounterWritesAreControls(spr, present, events, n - 1);
      OnlyControlsAppends(CounterWrites(spr, present, events, n - 1),
                          WritesOfOne(spr, present[n - 1], n - 1, events[n - 1]), n - 1, n);
    }
  }

  /** The control registers with the events of the first `n` counters set. */
  function WithEvents(spr: bool, controls: seq<nat>, present: seq<bool>, events: seq<nat>, n: nat): (result: seq<nat>)
    requires n <= |present| == |controls| && n <= |events|
    ensures |result| == |controls|
  {
    if n == 0 then controls
    else
      var before := WithEvents(spr, controls, present, events, n - 1);
      if present[n - 1] then before[n - 1 := Programmed(spr, events[n - 1])] else before
  }

  /** The control registers afterwards, counter by counter. */
  lemma {:induction false} WithEventsAt(spr: bool, controls: seq<nat>, present: seq<bool>, events: seq<nat>, n: nat,
                                        c: nat)
    requires n <= |present| == |controls| && n <= |events| && c < |controls|
    ensures WithEvents(spr, controls, present, events, n)[c]
         == if c < n && present[c] then Programmed(spr, events[c]) else controls[c]
  {
    if n > 0 {
      WithEventsAt(spr, controls, present, events, n - 1, c);
    }
  }

  lemma OneCounterIsProgrammed(b: Box, spr: bool, c: nat, event: nat, env: nat -> seq<u64>, t: nat)
    requires b.frozen && c < |b.controls|
    ensures Run(b, WritesOfOne(spr, true, c, event), env, t).controls == b.controls[c := Programmed(spr, event)]
  {
    if spr {
      RunOfOne(b, CounterControl(c, event), env, t);
    } else {
      RunOfTwo(b, CounterControl(c, MC_CH_PCI_PMON_CTL_EN), CounterControl(c, Or(MC_CH_PCI_PMON_CTL_EN, event)),
               env, t);
    }
  }

  lemma OneMoreIsProgrammed(b: Box, front: seq<Write>, spr: bool, c: nat, event: nat, env: nat -> seq<u64>, t: nat)
    requires b.frozen && OnlyControls(front, c) && c < |b.controls|
    ensures |Run(b, front, env, t).controls| == |b.controls|
    ensures Run(b, front + WritesOfOne(spr, true, c, event), env, t).controls
         == Run(b, front, env, t).controls[c := Programmed(spr, event)]
  {
    ProgrammingKeepsFrozen(b, front, c, env, t);
    OneCounterIsProgrammed(Run(b, front, env, t), spr, c, event, env, t + |front|);
    RunAppends(b, front, WritesOfOne(spr, true, c, event), env, t);
  }

  lemma {:induction false} EventsAreProgrammed(b: Box, spr: bool, present: seq<bool>, events: seq<nat>, n: nat,
                                               env: nat -> seq<u64>, t: nat)
    requires b.frozen && |b.controls| == |present| && n <= |present| && n <= |events|
    ensures Run(b, CounterWrites(spr, present, events, n), env, t).controls
         == WithEvents(spr, b.controls, present, events, n)
  {
    if n > 0 {
      EventsAreProgrammed(b, spr, present, events, n - 1, env, t);
      NextEventIsProgrammed(b, spr, present, events, n, env, t);
    }
  }

  lemma NextEventIsProgrammed(b: Box, spr: bool, present: seq<bool>, events: seq<nat>, n: nat,
                              env: nat -> seq<u64>, t: nat)
    requires b.frozen && |b.controls| == |present| && 0 < n <= |present| && n <= |events|
    ensures var before := Run(b, CounterWrites(spr, present, events, n - 1), env, t).controls;
      && |before| == |present|
      && Run(b, CounterWrites(spr, present, events, n), env, t).controls
         == if present[n - 1] then before[n - 1 := Programmed(spr, events[n - 1])] else before
  {
    var front := CounterWrites(spr, present, events, n - 1);
    CounterWritesAreControls(spr, present, events, n - 1);
    if present[n - 1] {
      OneMoreIsProgrammed(b, front, spr, n - 1, events[n - 1], env, t);
    } else {
      ProgrammingKeepsFrozen(b, front, n - 1, env, t);
      assert CounterWrites(spr, present, events, n) == front;
    }
  }

  lemma ResetZeroes(b: Box, spr: bool, extra: nat, env: nat -> seq<u64>, t: nat)
    requires EnablesFreeze(extra)
    ensures var reset := ResetWrites(spr, extra);
      var b' := Run(b, [reset[0]], env, t);
      && b' == Box(true, b.controls, Zeros(|b.values|))
      && Apply(b', reset[1]) == Box(false, b.controls, Zeros(|b.values|))
      && !Run(b, reset, env, t).frozen
  {
    ResetWords(spr, extra);
    var reset := ResetWrites(spr, extra);
    RunOfOne(b, reset[0], env, t);
    RunOfTwo(b, reset[0], reset[1], env, t);
  }

  lemma ResetAfter(b: Box, front: seq<Write>, spr: bool, extra: nat, env: nat -> seq<u64>, t: nat)
    requires EnablesFreeze(extra)
    ensures |ResetWrites(spr, extra)| == 2
    ensures var reset, mid := ResetWrites(spr, extra), Run(b, front, env, t);
      && Run(b, front + [reset[0]], env, t).frozen
      && Apply(Run(b, front + [reset[0]], env, t), reset[1]) == Box(false, mid.controls, Zeros(|mid.values|))
  {
    RunAppends(b, front, [ResetWrites(spr, extra)[0]], env, t);
    ResetZeroes(Run(b, front, env, t), spr, extra, env, t + |front|);
  }

  /** initFreeze and then program with a nonzero `extra`. */
  function ProtocolWrites(spr: bool, present: seq<bool>, events: seq<nat>, extra: nat): seq<Write> {
    InitWrites(spr, extra) + ProgramWrites(spr, present, Some(events), extra)
  }

  /** How many writes it takes until the box is frozen. */
  function FirstFreeze(spr: bool): nat {
    if spr then 1 else 2
  }

  /** The protocol in three parts: `init`, then control writes, then the reset. */
  lemma WhileProgramming(b: Box, spr: bool, extra: nat, controls: seq<Write>, n: nat, env: nat -> seq<u64>, t: nat)
    requires EnablesFreeze(extra) && OnlyControls(controls, n)
    ensures var b' := Run(b, InitWrites(spr, extra) + controls, env, t);
      && b' == Run(Run(b, InitWrites(spr, extra), env, t), controls, env, t + 2)
      && b'.frozen && |b'.values| == |b.values|
  {
    InitFreezes(b, spr, extra, env, t);
    RunAppends(b, InitWrites(spr, extra), controls, env, t);
    ProgrammingKeepsFrozen(Run(b, InitWrites(spr, extra), env, t), controls, n, env, t + 2);
  }

  lemma ThreeParts(b: Box, init: seq<Write>, controls: seq<Write>, reset: seq<Write>, i: nat, env: nat -> seq<u64>,
                   t: nat)
    requires |init| == |reset| == 2 && i < |init + (controls + reset)|
    ensures var w := init + (controls + reset); var n := |controls|;
      && (i == 1 ==> w[..i] == [init[0]])
      && (2 <= i <= 2 + n ==> w[..i] == init + controls[..i - 2])
      && (i == 3 + n ==> w[..i] == init + controls + [reset[0]] && w[i] == reset[1])
  {
    var w := init + (controls + reset);
    if i == 3 + |controls| {
      assert w == init + controls + [reset[0]] + [reset[1]];
    }
  }

  /** Whatever happens between the writes, the box is frozen from its first freeze
      write until the last write of the protocol. */
  lemma FrozenUntilTheLastWrite(b: Box, spr: bool, present: seq<bool>, events: seq<nat>, extra: nat, i: nat,
                                env: nat -> seq<u64>, t: nat)
    requires EnablesFreeze(extra) && extra != 0
    ensures FirstFreeze(spr) <= i < |ProtocolWrites(spr, present, events, extra)| ==>
      Run(b, ProtocolWrites(spr, present, events, extra)[..i], env, t).frozen
  {
    if !(FirstFreeze(spr) <= i < |ProtocolWrites(spr, present, events, extra)|) {
      return;
    }
    var n := Used(present, events);
    var init, controls, reset :=
      InitWrites(spr, extra), CounterWrites(spr, present, events, n), ResetWrites(spr, extra);
    CounterWritesAreControls(spr, present, events, n);
    ThreeParts(b, init, controls, reset, i, env, t);
    if i == 1 {
      InitFreezes(b, spr, extra, env, t);
    } else if i <= 2 + |controls| {
      WhileProgramming(b, spr, extra, controls[..i - 2], n, env, t);
    } else {
      ResetAfter(b, init + controls, spr, extra, env, t);
    }
  }

  lemma AfterProgramming(b: Box, spr: bool, present: seq<bool>, events: seq<nat>, extra: nat, env: nat -> seq<u64>,
                         t: nat)
    requires EnablesFreeze(extra) && |b.controls| == |present|
    ensures var n := Used(present, events);
      var b' := Run(b, InitWrites(spr, extra) + CounterWrites(spr, present, events, n), env, t);
      && |b'.values| == |b.values|
      && b'.controls == WithEvents(spr, if spr then Zeros(|b.controls|) else b.controls, present, events, n)
  {
    var n := Used(present, events);
    CounterWritesAreControls(spr, present, events, n);
    InitFreezes(b, spr, extra, env, t);
    WhileProgramming(b, spr, extra, CounterWrites(spr, present, events, n), n, env, t);
    EventsAreProgrammed(Run(b, InitWrites(spr, extra), env, t), spr, present, events, n, env, t + 2);
  }

  lemma ProtocolEnds(spr: bool, present: seq<bool>, events: seq<nat>, extra: nat)
    requires extra != 0
    ensures var w, reset := ProtocolWrites(spr, present, events, extra), ResetWrites(spr, extra);
      && |w| >= 2 && |reset| == 2
      && w[..|w| - 1]
         == InitWrites(spr, extra) + CounterWrites(spr, present, events, Used(present, events)) + [reset[0]]
      && w[|w| - 1] == reset[1]
  {
    var reset := ResetWrites(spr, extra);
    var front := InitWrites(spr, extra) + CounterWrites(spr, present, events, Used(present, events)) + [reset[0]];
    assert reset == [reset[0], reset[1]];
    assert ProtocolWrites(spr, present, events, extra) == front + [reset[1]];
  }

  /** The last write releases it with all counters zero and the chosen events
      programmed; a counter without event or register has none on the newer layout
      and keeps the one it had on the older. */
  lemma LastWriteReleases(b: Box, spr: bool, present: seq<bool>, events: seq<nat>, extra: nat, env: nat -> seq<u64>,
                          t: nat)
    requires EnablesFreeze(extra) && extra != 0 && |b.controls| == |present|
    ensures var writes := ProtocolWrites(spr, present, events, extra);
      var last := |writes| - 1;
      var start := if spr then Zeros(|b.controls|) else b.controls;
      Apply(Run(b, writes[..last], env, t), writes[last])
      == Box(false, WithEvents(spr, start, present, events, Used(present, events)), Zeros(|b.values|))
  {
    var front := InitWrites(spr, extra) + CounterWrites(spr, present, events, Used(present, events));
    AfterProgramming(b, spr, present, events, extra, env, t);
    ProtocolEnds(spr, present, events, extra);
    ResetAfter(b, front, spr, extra, env, t);
  }

  /** So afterwards each counter that has a register and an event counts that event, the
      others none on the newer layout and what they did before on the older. */
  lemma CountersAreProgrammed(b: Box, spr: bool, present: seq<bool>, events: seq<nat>, extra: nat,
                              env: nat -> seq<u64>, t: nat, c: nat)
    requires EnablesFreeze(extra) && extra != 0 && |b.controls| == |present| && c < |present|
    ensures var writes := ProtocolWrites(spr, present, events, extra);
      var b' := Apply(Run(b, writes[..|writes| - 1], env, t), writes[|writes| - 1]);
      && |b'.controls| == |present|
      && b'.controls[c] == if c < |events| && present[c] then Programmed(spr, events[c])
                           else if spr then 0 else b.controls[c]
  {
    LastWriteReleases(b, spr, present, events, extra, env, t);
    WithEventsAt(spr, if spr then Zeros(|b.controls|) else b.controls, present, events, Used(present, events), c);
  }

  /** Writes come in pairs to the same counter, the first of which enables it with no event. */
  ghost predicate EnabledFirst(w: seq<Write>) {
    && |w| % 2 == 0
    && forall i :: 0 <= i < |w| && i % 2 == 0 ==>
         && w[i].CounterControl? && w[i + 1].CounterControl?
         && w[i].counter == w[i + 1].counter && w[i].word == 0x40_0000
  }

  lemma EnabledFirstAppends(p: seq<Write>, c: nat, word: nat)
    requires EnabledFirst(p)
    ensures EnabledFirst(p + [CounterControl(c, 0x40_0000), CounterControl(c, word)])
  {
  }

  /** So it is on the older layout: a counter is given its event only right after that. */
  lemma {:induction false} EnabledBeforeTheEvent(present: seq<bool>, events: seq<nat>, n: nat)
    requires n <= |present| && n <= |events|
    ensures EnabledFirst(CounterWrites(false, present, events, n))
  {
    if n > 0 {
      EnabledBeforeTheEvent(present, events, n - 1);
      var front := CounterWrites(false, present, events, n - 1);
      if present[n - 1] {
        EnabledFirstAppends(front, n - 1, Or(MC_CH_PCI_PMON_CTL_EN, events[n - 1]));
      } else {
        assert front + [] == front;
      }
    }
  }

  /** A frozen box is released by PCM::program exactly if there is an event list and
      `extra` is not 0; otherwise it stays frozen with the counts it had. */
  lemma ReleasedExactlyWhen(b: Box, spr: bool, present: seq<bool>, events: Option<seq<nat>>, extra: nat,
                            env: nat -> seq<u64>, t: nat)
    requires b.frozen && (extra == 0 || EnablesFreeze(extra))
    ensures var b' := Run(b, ProgramWrites(spr, present, events, extra), env, t);
      && (!b'.frozen <==> events.Some? && extra != 0)
      && (b'.frozen ==> b'.values == b.values)
  {
    if events.Some? {
      var n := Used(present, events.value);
      var controls := CounterWrites(spr, present, events.value, n);
      CounterWritesAreControls(spr, present, events.value, n);
      ProgrammingKeepsFrozen(b, controls, n, env, t);
      if extra == 0 {
        assert controls + [] == controls;
      } else {
        RunAppends(b, controls, ResetWrites(spr, extra), env, t);
        ResetZeroes(Run(b, controls, env, t), spr, extra, env, t + |controls|);
      }
    }
  }
}
