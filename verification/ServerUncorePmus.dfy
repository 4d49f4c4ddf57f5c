/** ServerUncorePMUs: reading all uncore counters of a socket between freezeCounters
    and unfreezeCounters, and dropping the links that programXPI found disabled. */
module ServerUncorePmus {
  import opened Options
  import opened UncorePmu
  import opened Words

  // ------------------------------------------------------------------ the snapshot

  /** The values the environment offers the counters of a box at some time. */
  type Environment = (nat, nat) -> seq<u64>

  function TickAll(boxes: seq<Box>, env: Environment, t: nat): (result: seq<Box>)
    ensures |result| == |boxes| && forall i :: 0 <= i < |boxes| ==> result[i] == Tick(boxes[i], env(t, i))
  {
    seq(|boxes|, i requires 0 <= i < |boxes| => Tick(boxes[i], env(t, i)))
  }

  ghost predicate SameSizes(a: seq<Box>, b: seq<Box>) {
    |a| == |b| && forall i :: 0 <= i < |a| ==> |a[i].values| == |b[i].values|
  }

  /** The words that freeze the boxes, each in its own layout. */
  function WordsToFreeze(spr: seq<bool>, extra: nat): (words: seq<Write>)
    ensures |words| == |spr|
  {
    seq(|spr|, i requires 0 <= i < |spr| => FreezeWord(spr[i], extra))
  }

  function WordsToUnfreeze(spr: seq<bool>, extra: nat): (words: seq<Write>)
    ensures |words| == |spr|
  {
    seq(|spr|, i requires 0 <= i < |spr| => UnfreezeWord(spr[i], extra))
  }

  /** Box `i` is sent a word while time passes for all boxes. */
  function Written(boxes: seq<Box>, i: nat, w: Write, env: Environment, t: nat): (result: seq<Box>)
    requires i < |boxes|
    ensures |result| == |boxes|
  {
    TickAll(boxes[i := Apply(boxes[i], w)], env, t)
  }

  /** The boxes after the first `n` have been sent their words, one after another. */
  function Writing(boxes: seq<Box>, words: seq<Write>, env: Environment, t: nat, n: nat): (result: seq<Box>)
    requires n <= |boxes| == |words|
    ensures |result| == |boxes|
  {
    if n == 0 then boxes
    else Written(Writing(boxes, words, env, t, n - 1), n - 1, words[n - 1], env, t + n - 1)
  }

  lemma {:induction false} WritingKeepsSizes(boxes: seq<Box>, words: seq<Write>, env: Environment, t: nat, n: nat)
    requires n <= |boxes| == |words|
    ensures SameSizes(Writing(boxes, words, env, t, n), boxes)
  {
    if n > 0 {
      WritingKeepsSizes(boxes, words, env, t, n - 1);
    }
  }

  lemma {:induction false} WritingFreezes(boxes: seq<Box>, words: seq<Write>, freezes: bool, env: Environment, t: nat,
                                          n: nat)
    requires n <= |boxes| == |words| && forall i :: 0 <= i < |words| ==> Does(words[i], freezes, false, false)
    ensures forall i :: 0 <= i < n ==> Writing(boxes, words, env, t, n)[i].frozen == freezes
  {
    if n > 0 {
      WritingFreezes(boxes, words, freezes, env, t, n - 1);
    }
  }

  /** All boxes at the moment the last of them has been sent its freeze word. */
  function Freezing(boxes: seq<Box>, spr: seq<bool>, extra: nat, env: Environment, t: nat): (result: seq<Box>)
    requires |boxes| == |spr|
    ensures SameSizes(result, boxes)
  {
    WritingKeepsSizes(boxes, WordsToFreeze(spr, extra), env, t, |spr|);
    Writing(boxes, WordsToFreeze(spr, extra), env, t, |spr|)
  }

  lemma FreezingFreezes(boxes: seq<Box>, spr: seq<bool>, extra: nat, env: Environment, t: nat)
    requires |boxes| == |spr| && EnablesFreeze(extra)
    ensures AllFrozen(Freezing(boxes, spr, extra, env, t))
  {
    var words := WordsToFreeze(spr, extra);
    forall i | 0 <= i < |words|
      ensures Does(words[i], true, false, false)
    {
      FreezeWords(spr[i], extra);
    }
    WritingFreezes(boxes, words, true, env, t, |spr|);
  }

  lemma UnfreezingReleases(boxes: seq<Box>, spr: seq<bool>, extra: nat, env: Environment, t: nat)
    requires |boxes| == |spr| && EnablesFreeze(extra)
    ensures forall i :: 0 <= i < |spr| ==> !Writing(boxes, WordsToUnfreeze(spr, extra), env, t, |spr|)[i].frozen
  {
    var words := WordsToUnfreeze(spr, extra);
    forall i | 0 <= i < |words|
      ensures Does(words[i], false, false, false)
    {
      FreezeWords(spr[i], extra);
    }
    WritingFreezes(boxes, words, false, env, t, |spr|);
  }

  ghost predicate AllFrozen(boxes: seq<Box>) {
    forall i :: 0 <= i < |boxes| ==> boxes[i].frozen
  }

  lemma FrozenBoxesStandStill(boxes: seq<Box>, env: Environment, t: nat)
    requires AllFrozen(boxes)
    ensures TickAll(boxes, env, t) == boxes
  {
  }

  /** The uncore PMUs of one socket, all with a unit control register. */
  class ServerUncorePMUs {
    const spr: seq<bool>
    const skx: bool
    /** What freezeCounters and unfreezeCounters pass, by processor model. */
    const extra: nat := if skx then RSV else FRZ_EN
    const env: Environment
    var boxes: seq<Box>
    var time: nat

    ghost predicate Valid()
      reads this
    {
      |boxes| == |spr|
    }

    /** On the older layout freezing is enabled with bit 16, on Skylake servers with the
        reserved bit 17 set too. */
    lemma WordsByModel()
      ensures FreezeWord(false, extra).word == if skx then 0x3_0100 else 0x1_0100
      ensures UnfreezeWord(false, extra).word == if skx then 0x3_0000 else 0x1_0000
    {
      WordsWritten(extra);
    }

    method WriteRegister(i: nat, w: Write)
      requires Valid() && i < |boxes|
      modifies this
      ensures Valid() && time == old(time) + 1
      ensures boxes == Written(old(boxes), i, w, env, old(time))
    {
      boxes := Written(boxes, i, w, env, time);
      time := time + 1;
    }

    method ReadCounter(i: nat, c: nat) returns (value: u64)
      requires Valid() && i < |boxes| && c < |boxes[i].values|
      modifies this
      ensures Valid() && time == old(time) + 1
      ensures boxes == TickAll(old(boxes), env, old(time))
      ensures value == old(boxes[i].values[c])
    {
      value := boxes[i].values[c];
      boxes := TickAll(boxes, env, time);
      time := time + 1;
    }

    method FreezeCounters()
      requires Valid()
      modifies this
      ensures Valid()
      ensures boxes == Freezing(old(boxes), spr, extra, env, old(time))
    {
      WriteAll(WordsToFreeze(spr, extra));
    }

    /** The loop over all PMUs. */
    method WriteAll(words: seq<Write>)
      requires Valid() && |words| == |boxes|
      modifies this
      ensures Valid() && boxes == Writing(old(boxes), words, env, old(time), |words|)
    {
      for i := 0 to |boxes|
        invariant Valid() && |boxes| == |words| == |old(boxes)| && time == old(time) + i
        invariant boxes == Writing(old(boxes), words, env, old(time), i)
      {
        WriteRegister(i, words[i]);
      }
    }

    method UnfreezeCounters()
      requires Valid()
      modifies this
      ensures Valid() && forall i :: 0 <= i < |boxes| ==> !boxes[i].frozen
    {
      ExtrasInUse();
      UnfreezingReleases(boxes, spr, extra, env, time);
      WriteAll(WordsToUnfreeze(spr, extra));
    }

    /** The reads of getServerUncoreCounterState, in any order of boxes and counters.
        Whatever the counters do in the meantime, every value read is the one at a
        single moment: when the last box has been frozen. */
    method ReadFrozen(order: seq<(nat, nat)>) returns (result: seq<u64>)
      requires Valid()
      requires forall k :: 0 <= k < |order| ==> order[k].0 < |boxes| && order[k].1 < |boxes[order[k].0].values|
      modifies this
      ensures |result| == |order|
      ensures var moment := Freezing(old(boxes), spr, extra, env, old(time));
        forall k :: 0 <= k < |order| ==>
          order[k].0 < |moment| && order[k].1 < |moment[order[k].0].values| &&
          result[k] == moment[order[k].0].values[order[k].1]
      ensures forall i :: 0 <= i < |boxes| ==> !boxes[i].frozen
    {
      FreezeCounters();
      ghost var moment := boxes;
      ExtrasInUse();
      FreezingFreezes(old(boxes), spr, extra, env, old(time));
      result := [];
      for k := 0 to |order|
        invariant Valid() && boxes == moment && |result| == k
        invariant forall j :: 0 <= j < k ==> result[j] == moment[order[j].0].values[order[j].1]
      {
        FrozenBoxesStandStill(boxes, env, time);
        var value := ReadCounter(order[k].0, order[k].1);
        result := result + [value];
      }
      UnfreezeCounters();
    }
  }

  // --------------------------------------------------------------- disabled links

  /** The check of initFreeze passes: always on the newer layout, otherwise if the
      register reads back what was written. */
  predicate Responds(pmu: UncorePMU, extra: nat, readback: nat) {
    pmu.spr || extra % VALID_BITS == readback % VALID_BITS
  }

  /** The low 17 bits are compared: a register that reads back 0, as a disabled link's does,
      fails the check for both values of `extra` in use. */
  lemma DisabledLinksDoNotRespond(pmu: UncorePMU, readback: nat)
    requires !pmu.spr
    ensures Responds(pmu, FRZ_EN, readback) <==> readback % 0x2_0000 == 0x1_0000
    ensures Responds(pmu, RSV, readback) <==> readback % 0x2_0000 == 0x1_0000
    ensures !Responds(pmu, FRZ_EN, 0) && !Responds(pmu, RSV, 0)
  {
  }

  /** A link that does not respond gets the first write only. */
  function LinkWrites(pmu: UncorePMU, events: seq<nat>, extra: nat, readback: nat): seq<Write> {
    if Responds(pmu, extra, readback) then ProtocolWrites(pmu.spr, pmu.present, events, extra)
    else [Unit(pmu.spr, extra)]
  }

  /** The links that respond, in their order. */
  function Responding(pmus: seq<UncorePMU>, extra: nat, readbacks: seq<nat>): seq<UncorePMU>
    requires |readbacks| == |pmus|
  {
    if pmus == [] then []
    else
      (if Responds(pmus[0], extra, readbacks[0]) then [pmus[0]] else [])
      + Responding(pmus[1..], extra, readbacks[1..])
  }

  /** The members of `keep`, in their order. */
  function Select<T(==)>(s: seq<T>, keep: set<T>): seq<T> {
    if s == [] then [] else (if s[0] in keep then [s[0]] else []) + Select(s[1..], keep)
  }

  lemma {:induction false} SelectAppends<T>(p: seq<T>, q: seq<T>, keep: set<T>)
    ensures Select(p + q, keep) == Select(p, keep) + Select(q, keep)
  {
    if p == [] {
      assert p + q == q;
    } else {
      var head := if p[0] in keep then [p[0]] else [];
      assert (p + q)[0] == p[0] && (p + q)[1..] == p[1..] + q;
      SelectAppends(p[1..], q, keep);
      assert head + (Select(p[1..], keep) + Select(q, keep)) == (head + Select(p[1..], keep)) + Select(q, keep);
    }
  }

  lemma ErasingUnselected<T>(s: seq<T>, i: nat, keep: set<T>)
    requires i < |s| && s[i] !in keep
    ensures Select(s[..i] + s[i + 1..], keep) == Select(s, keep)
  {
    SelectAppends(s[..i], s[i + 1..], keep);
    SelectAppends(s[..i], s[i..], keep);
    assert s[..i] + s[i..] == s && s[i..][1..] == s[i + 1..];
  }

  lemma {:induction false} SelectEverything<T>(s: seq<T>, keep: set<T>)
    requires forall j :: 0 <= j < |s| ==> s[j] in keep
    ensures Select(s, keep) == s
  {
    if s != [] {
      SelectEverything(s[1..], keep);
    }
  }

  lemma {:induction false} SelectedAreKept<T>(s: seq<T>, keep: set<T>)
    ensures forall j :: 0 <= j < |Select(s, keep)| ==> Select(s, keep)[j] in keep
  {
    if s != [] {
      SelectedAreKept(s[1..], keep);
    }
  }

  lemma {:induction false} SelectedAreResponding(pmus: seq<UncorePMU>, extra: nat, readbacks: seq<nat>,
                                                 keep: set<UncorePMU>)
    requires |readbacks| == |pmus|
    requires forall j :: 0 <= j < |pmus| ==> (pmus[j] in keep <==> Responds(pmus[j], extra, readbacks[j]))
    ensures Select(pmus, keep) == Responding(pmus, extra, readbacks)
  {
    if pmus != [] {
      assert forall j :: 0 <= j < |pmus| - 1 ==> pmus[1..][j] == pmus[j + 1] && readbacks[1..][j] == readbacks[j + 1];
      SelectedAreResponding(pmus[1..], extra, readbacks[1..], keep);
    }
  }

  class Links {
    var xpiPMUs: seq<UncorePMU>

    /** Erasing the first invalid PMU and starting over leaves the valid ones. */
    method CleanupQPIHandles(ghost valid: set<UncorePMU>)
      requires forall j :: 0 <= j < |xpiPMUs| ==> (xpiPMUs[j] in valid <==> xpiPMUs[j].Valid())
      modifies this
      ensures xpiPMUs == Select(old(xpiPMUs), valid)
      decreases |xpiPMUs|
    {
      var i := 0;
      while i < |xpiPMUs|
        invariant i <= |xpiPMUs| && xpiPMUs == old(xpiPMUs)
        invariant forall j :: 0 <= j < i ==> xpiPMUs[j].Valid()
      {
        if !xpiPMUs[i].Valid() {
          ErasingUnselected(xpiPMUs, i, valid);
          xpiPMUs := xpiPMUs[..i] + xpiPMUs[i + 1..];
          CleanupQPIHandles(valid);
          return;
        }
        i := i + 1;
      }
      SelectEverything(xpiPMUs, valid);
    }

    method ProgramLink(pmu: UncorePMU, events: seq<nat>, extra: nat, readback: nat)
      requires extra != 0 && pmu.Valid()
      modifies pmu
      ensures pmu.Valid() <==> Responds(pmu, extra, readback)
      ensures pmu.written == old(pmu.written) + LinkWrites(pmu, events, extra, readback)
    {
      var ok := pmu.InitFreeze(extra, true, readback);
      if ok {
        pmu.Program(Some(events), extra);
      }
    }

    /** Initialises and programs every link, then drops those that did not respond:
        what is left are the responding links in their order, all with their unit
        control register. */
    method ProgramXPI(events: seq<nat>, extra: nat, readbacks: seq<nat>)
      requires extra != 0 && |readbacks| == |xpiPMUs|
      requires forall i :: 0 <= i < |xpiPMUs| ==> xpiPMUs[i].Valid()
      requires forall i, j :: 0 <= i < j < |xpiPMUs| ==> xpiPMUs[i] != xpiPMUs[j]
      modifies this, xpiPMUs
      ensures xpiPMUs == Responding(old(xpiPMUs), extra, readbacks)
      ensures forall i :: 0 <= i < |xpiPMUs| ==> xpiPMUs[i].Valid()
      ensures forall i :: 0 <= i < |old(xpiPMUs)| ==>
        var pmu := old(xpiPMUs)[i];
        pmu.written == old(pmu.written) + LinkWrites(pmu, events, extra, readbacks[i])
    {
      ProgramLinks(events, extra, readbacks);
      ghost var valid := set p | p in xpiPMUs && p.Valid();
      SelectedAreResponding(xpiPMUs, extra, readbacks, valid);
      SelectedAreKept(xpiPMUs, valid);
      CleanupQPIHandles(valid);
    }

    /** The loop over the links. */
    method ProgramLinks(events: seq<nat>, extra: nat, readbacks: seq<nat>)
      requires extra != 0 && |readbacks| == |xpiPMUs|
      requires forall i :: 0 <= i < |xpiPMUs| ==> xpiPMUs[i].Valid()
      requires forall i, j :: 0 <= i < j < |xpiPMUs| ==> xpiPMUs[i] != xpiPMUs[j]
      modifies xpiPMUs
      ensures forall i :: 0 <= i < |xpiPMUs| ==>
        && (xpiPMUs[i].Valid() <==> Responds(xpiPMUs[i], extra, readbacks[i]))
        && xpiPMUs[i].written == old(xpiPMUs[i].written) + LinkWrites(xpiPMUs[i], events, extra, readbacks[i])
    {
      for i := 0 to |xpiPMUs|
        invariant forall j :: i <= j < |xpiPMUs| ==> xpiPMUs[j].Valid() && xpiPMUs[j].written == old(xpiPMUs[j].written)
        invariant forall j :: 0 <= j < i ==> (xpiPMUs[j].Valid() <==> Responds(xpiPMUs[j], extra, readbacks[j]))
        invariant forall j :: 0 <= j < i ==>
          xpiPMUs[j].written == old(xpiPMUs[j].written) + LinkWrites(xpiPMUs[j], events, extra, readbacks[j])
      {
        ProgramLink(xpiPMUs[i], events, extra, readbacks[i]);
      }
    }
  }
}
