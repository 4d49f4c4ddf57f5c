/** The asynchronous sampler: one writer thread that moves the "after" buffer into
    the "before" buffer and reads fresh states, and any number of client threads
    in the getters, all under CounterMutex. */
module AsynchronSampler {
  import opened Options

  /** One buffer slot. `Reading(k, i)` is what update round `k` read for slot `i`;
      rounds 0 and -1 are the two reads of the constructor. `Moved` is a state that
      has been moved from, `Unset` a default-constructed SystemCounterState. */
  datatype Sample = Reading(round: int, slot: nat) | Unset | Moved

  /** Slots in the order UpdateCounters visits them: the cores, the sockets, the
      system. */
  datatype Layout = Layout(cores: nat, sockets: nat) {
    function Slots(): nat {
      cores + sockets + 1
    }

    predicate IsSystem(slot: nat) {
      slot == cores + sockets
    }
  }

  /** What round `k` leaves in the "after" buffer: the constructor reads every
      core and socket twice but never the system. */
  function Stored(layout: Layout, k: int, slot: nat): Sample {
    if layout.IsSystem(slot) && k <= 0 then Unset else Reading(k, slot)
  }

  /** Writer program counter: outside the mutex, about to move slot `i`, about to
      assign the fresh state of slot `i`, about to unlock. */
  datatype Writer = Outside | Moving(slot: nat) | Fetching(slot: nat) | Leaving

  /** A getter: outside, holding the mutex, having read the before state, having
      read both. */
  datatype Reader =
    | Away | Inside(slot: nat) | HasBefore(slot: nat, before: Sample)
    | HasBoth(slot: nat, before: Sample, after: Sample)

  datatype Owner = Nobody | TheWriter | Client(id: nat)

  /** A value a getter has returned, with the number of completed rounds when it
      took the mutex. */
  datatype Result = Result(slot: nat, before: Sample, after: Sample, round: nat)

  datatype State = State(
    before: seq<Sample>, after: seq<Sample>, rounds: nat,
    owner: Owner, writer: Writer, readers: seq<Reader>, results: seq<Result>)

  datatype Step =
    | WriterLocks | WriterMoves | WriterFetches | WriterUnlocks
    | ReaderLocks(id: nat, slot: nat) | ReaderReadsBefore(id: nat) | ReaderReadsAfter(id: nat) | ReaderUnlocks(id: nat)

  predicate Shape(layout: Layout, s: State) {
    && |s.before| == |s.after| == layout.Slots()
    && (s.writer.Moving? || s.writer.Fetching? ==> s.writer.slot < layout.Slots())
    && (forall r :: 0 <= r < |s.readers| && !s.readers[r].Away? ==> s.readers[r].slot < layout.Slots())
  }

  predicate Enabled(layout: Layout, s: State, step: Step) {
    && Shape(layout, s)
    && match step
       case WriterLocks => s.writer.Outside? && s.owner == Nobody
       case WriterMoves => s.writer.Moving?
       case WriterFetches => s.writer.Fetching?
       case WriterUnlocks => s.writer.Leaving?
       case ReaderLocks(r, slot) => r < |s.readers| && slot < layout.Slots() && s.readers[r].Away? && s.owner == Nobody
       case ReaderReadsBefore(r) => r < |s.readers| && s.readers[r].Inside?
       case ReaderReadsAfter(r) => r < |s.readers| && s.readers[r].HasBefore?
       case ReaderUnlocks(r) => r < |s.readers| && s.readers[r].HasBoth?
  }

  function Next(layout: Layout, s: State, step: Step): State
    requires Enabled(layout, s, step)
  {
    match step
    case WriterLocks => s.(owner := TheWriter, writer := Moving(0))
    case WriterMoves =>
      var i := s.writer.slot;
      s.(before := s.before[i := s.after[i]], after := s.after[i := Moved], writer := Fetching(i))
    case WriterFetches =>
      var i := s.writer.slot;
      s.(after := s.after[i := Reading(s.rounds + 1, i)],
         writer := if i + 1 < layout.Slots() then Moving(i + 1) else Leaving)
    case WriterUnlocks => s.(owner := Nobody, writer := Outside, rounds := s.rounds + 1)
    case ReaderLocks(r, slot) => s.(owner := Client(r), readers := s.readers[r := Inside(slot)])
    case ReaderReadsBefore(r) =>
      var i := s.readers[r].slot;
      s.(readers := s.readers[r := HasBefore(i, s.before[i])])
    case ReaderReadsAfter(r) =>
      var i := s.readers[r].slot;
      s.(readers := s.readers[r := HasBoth(i, s.readers[r].before, s.after[i])])
    case ReaderUnlocks(r) =>
      var reader := s.readers[r];
      s.(owner := Nobody, readers := s.readers[r := Away],
         results := s.results + [Result(reader.slot, reader.before, reader.after, s.rounds)])
  }

  function After(layout: Layout, s: State, schedule: seq<Step>): Option<State> {
    if schedule == [] then Some(s)
    else
      var before := After(layout, s, schedule[..|schedule| - 1]);
      var step := schedule[|schedule| - 1];
      if before.Some? && Enabled(layout, before.value, step) then Some(Next(layout, before.value, step)) else None
  }

  /** The object as its constructor leaves it, the threads not started yet. */
  ghost predicate Initial(layout: Layout, s: State) {
    && Shape(layout, s)
    && s.rounds == 0 && s.owner == Nobody && s.writer.Outside? && s.results == []
    && (forall r :: 0 <= r < |s.readers| ==> s.readers[r].Away?)
    && (forall i :: 0 <= i < layout.Slots() ==>
          s.before[i] == Stored(layout, -1, i) && s.after[i] == Stored(layout, 0, i))
  }

  // ---------------------------------------------------------------- invariant

  /** Slot `i` of both buffers holds rounds `k - 1` and `k`. */
  predicate SlotAt(layout: Layout, s: State, i: nat, k: nat)
    requires Shape(layout, s) && i < layout.Slots()
  {
    s.before[i] == Stored(layout, k - 1, i) && s.after[i] == Stored(layout, k, i)
  }

  /** How far the writer has got: slots below it are a round ahead of those above. */
  predicate SlotInv(layout: Layout, s: State, i: nat)
    requires Shape(layout, s) && i < layout.Slots()
  {
    match s.writer
    case Outside => SlotAt(layout, s, i, s.rounds)
    case Moving(j) => SlotAt(layout, s, i, if i < j then s.rounds + 1 else s.rounds)
    case Fetching(j) =>
      if i == j then s.before[i] == Stored(layout, s.rounds, i)
      else SlotAt(layout, s, i, if i < j then s.rounds + 1 else s.rounds)
    case Leaving => SlotAt(layout, s, i, s.rounds + 1)
  }

  ghost predicate LockInv(s: State) {
    && (s.owner == TheWriter <==> !s.writer.Outside?)
    && (forall r :: 0 <= r < |s.readers| ==> (s.owner == Client(r) <==> !s.readers[r].Away?))
  }

  /** A getter inside the mutex has so far seen the rounds of this moment. */
  ghost predicate ReaderInv(layout: Layout, s: State, r: nat)
    requires Shape(layout, s) && r < |s.readers|
  {
    match s.readers[r]
    case HasBefore(i, before) => before == Stored(layout, s.rounds - 1, i)
    case HasBoth(i, before, after) => before == Stored(layout, s.rounds - 1, i) && after == Stored(layout, s.rounds, i)
    case _ => true
  }

  /** Two consecutive update rounds, the same for whatever slot was asked for. */
  predicate Consecutive(layout: Layout, r: Result) {
    r.before == Stored(layout, r.round - 1, r.slot) && r.after == Stored(layout, r.round, r.slot)
  }

  ghost predicate ResultsInv(layout: Layout, s: State) {
    && (forall i :: 0 <= i < |s.results| ==> s.results[i].round <= s.rounds && Consecutive(layout, s.results[i]))
    && (forall i, j :: 0 <= i < j < |s.results| ==> s.results[i].round <= s.results[j].round)
  }

  ghost predicate Inv(layout: Layout, s: State) {
    && Shape(layout, s) && LockInv(s) && ResultsInv(layout, s)
    && (forall i :: 0 <= i < layout.Slots() ==> SlotInv(layout, s, i))
    && (forall r :: 0 <= r < |s.readers| ==> ReaderInv(layout, s, r))
  }

  lemma StepKeepsSlotInv(layout: Layout, s: State, step: Step, i: nat)
    requires Inv(layout, s) && Enabled(layout, s, step) && i < layout.Slots()
    requires Shape(layout, Next(layout, s, step))
    ensures SlotInv(layout, Next(layout, s, step), i)
  {
    assert SlotInv(layout, s, i);
  }

  /** The writer cannot be inside while a reader is: what a reader has seen stays
      current until it leaves. */
  lemma StepKeepsReaderInv(layout: Layout, s: State, step: Step, r: nat)
    requires Inv(layout, s) && Enabled(layout, s, step) && r < |s.readers|
    requires Shape(layout, Next(layout, s, step))
    ensures ReaderInv(layout, Next(layout, s, step), r)
  {
    assert ReaderInv(layout, s, r);
    if !s.readers[r].Away? {
      assert s.owner == Client(r);
      assert SlotInv(layout, s, s.readers[r].slot);
    }
  }

  lemma StepKeepsInv(layout: Layout, s: State, step: Step)
    requires Inv(layout, s) && Enabled(layout, s, step)
    ensures Inv(layout, Next(layout, s, step))
  {
    var s' := Next(layout, s, step);
    forall i | 0 <= i < layout.Slots()
      ensures SlotInv(layout, s', i)
    {
      StepKeepsSlotInv(layout, s, step, i);
    }
    forall r | 0 <= r < |s.readers|
      ensures ReaderInv(layout, s', r)
    {
      StepKeepsReaderInv(layout, s, step, r);
    }
    if step.ReaderUnlocks? {
      assert ReaderInv(layout, s, step.id);
    }
  }

  lemma {:induction false} RunKeepsInv(layout: Layout, s: State, schedule: seq<Step>)
    requires Inv(layout, s) && After(layout, s, schedule).Some?
    ensures Inv(layout, After(layout, s, schedule).value)
  {
    if schedule != [] {
      var front := schedule[..|schedule| - 1];
      RunKeepsInv(layout, s, front);
      StepKeepsInv(layout, After(layout, s, front).value, schedule[|schedule| - 1]);
    }
  }

  // ------------------------------------------------------------------ results

  /** Slot `i` holds the readings of the last two rounds; for the system they exist
      once two rounds have completed. */
  predicate Consistent(layout: Layout, s: State, i: nat)
    requires Shape(layout, s) && i < layout.Slots()
  {
    && (!layout.IsSystem(i) || s.rounds >= 2 ==> s.before[i] == Reading(s.rounds - 1, i))
    && (!layout.IsSystem(i) || s.rounds >= 1 ==> s.after[i] == Reading(s.rounds, i))
  }

  /** At every reachable point, whoever could enter a getter finds all cores and
      all sockets at one and the same pair of consecutive rounds, and the system
      too once two rounds have completed. */
  lemma BuffersAreConsistentUnderTheMutex(layout: Layout, s: State, schedule: seq<Step>)
    requires Initial(layout, s) && After(layout, s, schedule).Some?
    ensures var s' := After(layout, s, schedule).value;
      Shape(layout, s') && (s'.owner != TheWriter ==> forall i :: 0 <= i < layout.Slots() ==> Consistent(layout, s', i))
  {
    RunKeepsInv(layout, s, schedule);
    var s' := After(layout, s, schedule).value;
    forall i | s'.owner != TheWriter && 0 <= i < layout.Slots()
      ensures Consistent(layout, s', i)
    {
      assert SlotInv(layout, s', i);
    }
  }

  /** Every value a getter has returned pairs two consecutive rounds, and later
      getters never see older rounds than earlier ones. A client that calls
      several getters may see different rounds: the mutex is per call. */
  lemma GettersReturnConsecutiveRounds(layout: Layout, s: State, schedule: seq<Step>)
    requires Initial(layout, s) && After(layout, s, schedule).Some?
    ensures var results := After(layout, s, schedule).value.results;
      && (forall i :: 0 <= i < |results| ==>
            && (!layout.IsSystem(results[i].slot) || results[i].round >= 2 ==>
                  results[i].before == Reading(results[i].round - 1, results[i].slot)
                  && results[i].after == Reading(results[i].round, results[i].slot)))
      && (forall i, j :: 0 <= i < j < |results| ==> results[i].round <= results[j].round)
  {
    RunKeepsInv(layout, s, schedule);
    assert ResultsInv(layout, After(layout, s, schedule).value);
  }

  // ---------------------------------------------------------- what was asked for

  /** The slot that client `r` asked for in its last call. */
  function Asked(schedule: seq<Step>, r: nat): Option<nat> {
    if schedule == [] then None
    else
      var last := schedule[|schedule| - 1];
      if last.ReaderLocks? && last.id == r then Some(last.slot) else Asked(schedule[..|schedule| - 1], r)
  }

  /** How many rounds have been completed. */
  function Rounds(schedule: seq<Step>): nat {
    if schedule == [] then 0
    else Rounds(schedule[..|schedule| - 1]) + if schedule[|schedule| - 1].WriterUnlocks? then 1 else 0
  }

  /** A call that has returned: the slot asked for, and the rounds completed by then. */
  datatype Call = Call(slot: Option<nat>, round: nat)

  function Calls(schedule: seq<Step>): seq<Call> {
    if schedule == [] then []
    else
      var front, last := schedule[..|schedule| - 1], schedule[|schedule| - 1];
      Calls(front) + if last.ReaderUnlocks? then [Call(Asked(front, last.id), Rounds(front))] else []
  }

  /** Getters are in the slot they were asked for, and each call has left one result. */
  ghost predicate HistoryInv(s: State, schedule: seq<Step>) {
    && s.rounds == Rounds(schedule)
    && (forall r :: 0 <= r < |s.readers| && !s.readers[r].Away? ==> Asked(schedule, r) == Some(s.readers[r].slot))
    && |s.results| == |Calls(schedule)|
    && forall i :: 0 <= i < |s.results| ==> Call(Some(s.results[i].slot), s.results[i].round) == Calls(schedule)[i]
  }

  lemma StepKeepsHistoryInv(layout: Layout, s: State, front: seq<Step>, step: Step)
    requires HistoryInv(s, front) && Enabled(layout, s, step)
    ensures HistoryInv(Next(layout, s, step), front + [step])
  {
    var schedule := front + [step];
    assert schedule[..|schedule| - 1] == front;
    var s' := Next(layout, s, step);
    forall r | 0 <= r < |s'.readers| && !s'.readers[r].Away?
      ensures Asked(schedule, r) == Some(s'.readers[r].slot)
    {
      assert !s.readers[r].Away? ==> Asked(front, r) == Some(s.readers[r].slot);
    }
  }

  lemma {:induction false} RunKeepsHistoryInv(layout: Layout, s: State, schedule: seq<Step>)
    requires Initial(layout, s) && After(layout, s, schedule).Some?
    ensures HistoryInv(After(layout, s, schedule).value, schedule)
  {
    if schedule != [] {
      var front, last := schedule[..|schedule| - 1], schedule[|schedule| - 1];
      RunKeepsHistoryInv(layout, s, front);
      StepKeepsHistoryInv(layout, After(layout, s, front).value, front, last);
      assert schedule == front + [last];
    }
  }

  /** Every call that has returned has left one result, in order, and nothing else has:
      the readings of the slot asked for, of the last completed round and the one before.
      The system has readings from its first round on. */
  lemma GettersReturnWhatWasAskedFor(layout: Layout, s: State, schedule: seq<Step>)
    requires Initial(layout, s) && After(layout, s, schedule).Some?
    ensures var results, calls := After(layout, s, schedule).value.results, Calls(schedule);
      && |results| == |calls|
      && forall i :: 0 <= i < |calls| ==>
           && calls[i].slot == Some(results[i].slot) && calls[i].round == results[i].round
           && (results[i].slot != layout.cores + layout.sockets || calls[i].round >= 2 ==>
                 results[i].before == Reading(calls[i].round - 1, results[i].slot))
           && (results[i].slot != layout.cores + layout.sockets || calls[i].round >= 1 ==>
                 results[i].after == Reading(calls[i].round, results[i].slot))
  {
    RunKeepsHistoryInv(layout, s, schedule);
    RunKeepsInv(layout, s, schedule);
    assert ResultsInv(layout, After(layout, s, schedule).value);
  }

  /** Before the second round completes the system pair is not a pair of readings:
      the "before" state is the default one. */
  lemma EarlySystemGetterSeesDefault(layout: Layout, s: State, schedule: seq<Step>, i: nat)
    requires Initial(layout, s) && After(layout, s, schedule).Some?
    requires i < |After(layout, s, schedule).value.results|
    ensures var r := After(layout, s, schedule).value.results[i];
      layout.IsSystem(r.slot) ==> (r.before == Unset <==> r.round < 2)
  {
    RunKeepsInv(layout, s, schedule);
    assert Consecutive(layout, After(layout, s, schedule).value.results[i]);
  }

  // -------------------------------------------------- one round, as the loop does it

  /** The buffers of the object. */
  class CounterBuffers {
    const layout: Layout
    const cstates1: array<Sample>
    const cstates2: array<Sample>
    const skstates1: array<Sample>
    const skstates2: array<Sample>
    var sstate1: Sample
    var sstate2: Sample

    ghost predicate Valid()
      reads this
    {
      && cstates1.Length == cstates2.Length == layout.cores
      && skstates1.Length == skstates2.Length == layout.sockets
      && cstates1 != cstates2 && cstates1 != skstates1 && cstates1 != skstates2
      && cstates2 != skstates1 && cstates2 != skstates2 && skstates1 != skstates2
    }

    /** The two buffers, slot by slot. */
    ghost function Before(): seq<Sample>
      requires Valid()
      reads this, cstates1, skstates1
    {
      cstates1[..] + skstates1[..] + [sstate1]
    }

    ghost function Fresh(): seq<Sample>
      requires Valid()
      reads this, cstates2, skstates2
    {
      cstates2[..] + skstates2[..] + [sstate2]
    }

    constructor (layout: Layout)
      ensures Valid() && this.layout == layout
      ensures |Before()| == |Fresh()| == layout.Slots()
      ensures forall i :: 0 <= i < layout.Slots() ==>
        Before()[i] == Stored(layout, -1, i) && Fresh()[i] == Stored(layout, 0, i)
    {
      this.layout := layout;
      cstates1 := new Sample[layout.cores](i => Reading(-1, if i >= 0 then i else 0));
      cstates2 := new Sample[layout.cores](i => Reading(0, if i >= 0 then i else 0));
      skstates1 := new Sample[layout.sockets](i => Reading(-1, if i >= 0 then layout.cores + i else 0));
      skstates2 := new Sample[layout.sockets](i => Reading(0, if i >= 0 then layout.cores + i else 0));
      sstate1, sstate2 := Unset, Unset;
    }

    /** One pass of UpdateCounters through the critical section: the whole "after"
        buffer becomes the "before" buffer and round `k` replaces it. */
    method UpdateCounters(k: nat)
      requires Valid()
      modifies this, cstates1, cstates2, skstates1, skstates2
      ensures Valid()
      ensures Before() == old(Fresh())
      ensures |Fresh()| == layout.Slots() && forall i :: 0 <= i < layout.Slots() ==> Fresh()[i] == Reading(k, i)
    {
      for core := 0 to layout.cores
        invariant Valid() && sstate2 == old(sstate2) && skstates2[..] == old(skstates2[..])
        invariant cstates1[..core] == old(cstates2[..core]) && cstates2[core..] == old(cstates2[core..])
        invariant forall i :: 0 <= i < core ==> cstates2[i] == Reading(k, i)
      {
        cstates1[core] := cstates2[core];
        cstates2[core] := Reading(k, core);
      }
      for socket := 0 to layout.sockets
        invariant Valid() && sstate2 == old(sstate2)
        invariant cstates1[..] == old(cstates2[..])
        invariant forall i :: 0 <= i < layout.cores ==> cstates2[i] == Reading(k, i)
        invariant skstates1[..socket] == old(skstates2[..socket]) && skstates2[socket..] == old(skstates2[socket..])
        invariant forall i :: 0 <= i < socket ==> skstates2[i] == Reading(k, layout.cores + i)
      {
        skstates1[socket] := skstates2[socket];
        skstates2[socket] := Reading(k, layout.cores + socket);
      }
      sstate1 := sstate2;
      sstate2 := Reading(k, layout.cores + layout.sockets);
    }
  }
}
