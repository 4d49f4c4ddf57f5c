/** Where PCM::programCoreCounters puts the Linux perf events of one core, and where
    PCM::readPerfData finds them. */
module PerfLayout {
  import opened Words

  const PERF_MAX_CUSTOM_COUNTERS := 8
  const PERF_MAX_COUNTERS := 20
  const PERF_GEN_EVENT_0_POS := 3
  const PERF_TOPDOWN_SLOTS_POS := PERF_GEN_EVENT_0_POS + PERF_MAX_CUSTOM_COUNTERS
  const CORE_FIXED_COUNTER_NUM_USED := 3

  datatype TopDown =
    Slots | FrontendBound | BadSpeculation | BackendBound | Retiring | MemBound | FetchLat | BrMispred | HeavyOps

  type FixedCounter = i: nat | i < 3
  type GenericCounter = i: nat | i < PERF_MAX_CUSTOM_COUNTERS

  datatype Event = Fixed(counter: FixedCounter) | Generic(index: GenericCounter) | OfTopDown(event: TopDown)

  /** The PERF_..._POS enumerators: the slot of an event's handle. */
  function Pos(e: Event): (p: nat)
    ensures p < PERF_MAX_COUNTERS
  {
    match e
    case Fixed(i) => i
    case Generic(i) => PERF_GEN_EVENT_0_POS + i
    case OfTopDown(Slots) => PERF_TOPDOWN_SLOTS_POS
    case OfTopDown(FrontendBound) => PERF_TOPDOWN_SLOTS_POS + 1
    case OfTopDown(BadSpeculation) => PERF_TOPDOWN_SLOTS_POS + 2
    case OfTopDown(BackendBound) => PERF_TOPDOWN_SLOTS_POS + 3
    case OfTopDown(Retiring) => PERF_TOPDOWN_SLOTS_POS + 4
    case OfTopDown(MemBound) => PERF_TOPDOWN_SLOTS_POS + 5
    case OfTopDown(FetchLat) => PERF_TOPDOWN_SLOTS_POS + 6
    case OfTopDown(BrMispred) => PERF_TOPDOWN_SLOTS_POS + 7
    case OfTopDown(HeavyOps) => PERF_TOPDOWN_SLOTS_POS + 8
  }

  /** The order in which the top-down events are programmed; it is not the order of
      the enumerators. */
  function TopDownEvents(level2: bool): (events: seq<TopDown>)
    ensures |events| == if level2 then 9 else 5
  {
    [Slots, BadSpeculation, BackendBound, FrontendBound, Retiring]
    + if level2 then [MemBound, FetchLat, BrMispred, HeavyOps] else []
  }

  /** Each event is in the list once; at level 2 all are. */
  lemma TopDownEventsAreDistinct(level2: bool, j: nat, k: nat)
    requires j < k < |TopDownEvents(level2)|
    ensures TopDownEvents(level2)[j] != TopDownEvents(level2)[k]
  {
  }

  lemma NewPosition(level2: bool, k: nat)
    requires k < |TopDownEvents(level2)|
    ensures forall j :: 0 <= j < k ==>
      Pos(OfTopDown(TopDownEvents(level2)[j])) != Pos(OfTopDown(TopDownEvents(level2)[k]))
  {
    forall j | 0 <= j < k {
      TopDownEventsAreDistinct(level2, j, k);
    }
  }

  /** Without level 2 these five are. */
  lemma Level1Events(x: TopDown)
    ensures x in TopDownEvents(false)
       <==> x.Slots? || x.FrontendBound? || x.BadSpeculation? || x.BackendBound? || x.Retiring?
  {
    var s := TopDownEvents(false);
    match x
    case Slots => assert s[0] == x;
    case BadSpeculation => assert s[1] == x;
    case BackendBound => assert s[2] == x;
    case FrontendBound => assert s[3] == x;
    case Retiring => assert s[4] == x;
    case _ =>
  }

  lemma AllTopDownEvents(x: TopDown)
    ensures x in TopDownEvents(true)
  {
    var s := TopDownEvents(true);
    match x
    case Slots => assert s[0] == x;
    case BadSpeculation => assert s[1] == x;
    case BackendBound => assert s[2] == x;
    case FrontendBound => assert s[3] == x;
    case Retiring => assert s[4] == x;
    case MemBound => assert s[5] == x;
    case FetchLat => assert s[6] == x;
    case BrMispred => assert s[7] == x;
    case HeavyOps => assert s[8] == x;
  }

  /** The events of the first group: the fixed ones, then `used` generic ones. */
  function MainEvents(used: nat): (events: seq<Event>)
    requires used <= PERF_MAX_CUSTOM_COUNTERS
    ensures |events| == CORE_FIXED_COUNTER_NUM_USED + used
    ensures forall i :: 0 <= i < 3 ==> events[i] == Fixed(i)
    ensures forall i :: 0 <= i < used ==> events[PERF_GEN_EVENT_0_POS + i] == Generic(i)
  {
    [Fixed(0), Fixed(1), Fixed(2)] + seq(used, i requires 0 <= i < used => Generic(i))
  }

  /** The perf state of one core. Events are opened in groups; a read of a group
      returns the members' counts in the order they were opened. */
  class CorePerf {
    var perfEventHandle: seq<int>
    var perfTopDownPos: seq<int>
    /** The groups the kernel keeps, by the handle of their leader. */
    var groups: map<int, seq<Event>>
    var nextHandle: int

    ghost predicate Valid()
      reads this
    {
      && |perfEventHandle| == |perfTopDownPos| == PERF_MAX_COUNTERS
      && nextHandle > 0 && forall h :: h in groups ==> 0 < h < nextHandle
    }

    constructor ()
      ensures Valid() && groups == map[] && perfEventHandle == seq(PERF_MAX_COUNTERS, _ => -1)
    {
      perfEventHandle := seq(PERF_MAX_COUNTERS, _ => -1);
      perfTopDownPos := seq(PERF_MAX_COUNTERS, _ => 0);
      groups := map[];
      nextHandle := 1;
    }

    /** perf_event_open: a new group, or a new last member of an existing one. `opens`
        says whether the system call succeeds. */
    method ProgramPerfEvent(e: Event, leader: int, opens: bool) returns (ok: bool)
      requires Valid() && (leader == -1 || leader in groups)
      modifies this`perfEventHandle, this`groups, this`nextHandle
      ensures Valid() && ok == opens
      ensures ok ==> 0 < perfEventHandle[Pos(e)] == old(nextHandle) && nextHandle == old(nextHandle) + 1
      ensures ok ==> perfEventHandle == old(perfEventHandle)[Pos(e) := old(nextHandle)]
      ensures ok ==> groups == if leader == -1 then old(groups)[old(nextHandle) := [e]]
                               else old(groups)[leader := old(groups)[leader] + [e]]
    {
      if !opens {
        perfEventHandle := perfEventHandle[Pos(e) := -1];
        return false;
      }
      perfEventHandle := perfEventHandle[Pos(e) := nextHandle];
      if leader == -1 {
        groups := groups[nextHandle := [e]];
      } else {
        groups := groups[leader := groups[leader] + [e]];
      }
      nextHandle := nextHandle + 1;
      return true;
    }

    /** The group whose leader's handle is in slot `pos`. */
    ghost predicate GroupAt(pos: nat, members: seq<Event>)
      requires pos < PERF_MAX_COUNTERS
      reads this
    {
      && |perfEventHandle| == PERF_MAX_COUNTERS
      && perfEventHandle[pos] in groups && groups[perfEventHandle[pos]] == members
    }

    /** The fixed and generic events, all in the group of the first. */
    method ProgramMain(used: nat, opens: Event -> bool) returns (ok: bool)
      requires Valid() && used <= PERF_MAX_CUSTOM_COUNTERS
      modifies this`perfEventHandle, this`groups, this`nextHandle
      ensures Valid()
      ensures ok ==> GroupAt(0, MainEvents(used))
      ensures ok <==> forall i :: 0 <= i < |MainEvents(used)| ==> opens(MainEvents(used)[i])
    {
      var events := MainEvents(used);
      ok := ProgramPerfEvent(events[0], -1, opens(events[0]));
      if !ok {
        return;
      }
      var leader := perfEventHandle[0];
      var k := 1;
      while k < |events|
        invariant 1 <= k <= |events| && Valid() && leader in groups && perfEventHandle[0] == leader
        invariant groups[leader] == events[..k]
        invariant forall i :: 0 <= i < k ==> opens(events[i])
      {
        ok := ProgramPerfEvent(events[k], leader, opens(events[k]));
        if !ok {
          return;
        }
        assert events[..k + 1] == events[..k] + [events[k]];
        k := k + 1;
      }
      assert events[..k] == events;
    }

    /** The top-down events, all in the group of the slots event; each is given the
        next position in the read buffer. */
    method ProgramTopDown(used: nat, level2: bool, opens: Event -> bool) returns (ok: bool)
      requires Valid() && used <= PERF_MAX_CUSTOM_COUNTERS && GroupAt(0, MainEvents(used))
      modifies this
      ensures Valid()
      ensures ok ==> GroupAt(0, MainEvents(used)) && GroupAt(PERF_TOPDOWN_SLOTS_POS, AsEvents(TopDownEvents(level2)))
      ensures ok ==> PositionsFollow(used, TopDownEvents(level2), |TopDownEvents(level2)|)
    {
      var events := TopDownEvents(level2);
      var readPos := CORE_FIXED_COUNTER_NUM_USED + used;
      var leader := -1;
      ok := true;
      for k := 0 to |events|
        invariant Valid() && GroupAt(0, MainEvents(used)) && readPos == CORE_FIXED_COUNTER_NUM_USED + used + k
        invariant k == 0 ==> leader == -1
        invariant k > 0 ==>
          leader == perfEventHandle[PERF_TOPDOWN_SLOTS_POS] != perfEventHandle[0]
            && GroupAt(PERF_TOPDOWN_SLOTS_POS, AsEvents(events[..k]))
        invariant PositionsFollow(used, events, k)
      {
        ok := ProgramPerfEvent(OfTopDown(events[k]), leader, opens(OfTopDown(events[k])));
        if !ok {
          return;
        }
        AsEventsGrows(events, k);
        NewPosition(level2, k);
        leader := perfEventHandle[PERF_TOPDOWN_SLOTS_POS];
        perfTopDownPos := perfTopDownPos[Pos(OfTopDown(events[k])) := readPos];
        readPos := readPos + 1;
      }
      assert events[..|events|] == events;
    }

    ghost predicate PositionsFollow(used: nat, events: seq<TopDown>, n: nat)
      requires n <= |events|
      reads this
    {
      && |perfTopDownPos| == PERF_MAX_COUNTERS
      && forall k :: 0 <= k < n ==> perfTopDownPos[Pos(OfTopDown(events[k]))] == CORE_FIXED_COUNTER_NUM_USED + used + k
    }

    /** readPerfDataHelper: zeros without a leader, otherwise the group's counts if
        there are as many as expected, and the buffer as it was if not. */
    method ReadGroup(leaderPos: nat, numCounters: nat, counts: Event -> u64, outData: seq<u64>) returns (data: seq<u64>)
      requires Valid() && leaderPos < PERF_MAX_COUNTERS && numCounters <= PERF_MAX_COUNTERS == |outData|
      requires perfEventHandle[leaderPos] >= 0 ==> perfEventHandle[leaderPos] in groups
      ensures |data| == PERF_MAX_COUNTERS
      ensures perfEventHandle[leaderPos] >= 0 && |groups[perfEventHandle[leaderPos]]| == numCounters ==>
        data == Counts(groups[perfEventHandle[leaderPos]], counts) + outData[numCounters..]
      ensures perfEventHandle[leaderPos] >= 0 && |groups[perfEventHandle[leaderPos]]| != numCounters ==> data == outData
      ensures perfEventHandle[leaderPos] < 0 ==> forall i :: 0 <= i < PERF_MAX_COUNTERS ==> data[i] == 0
    {
      if perfEventHandle[leaderPos] < 0 {
        return seq(PERF_MAX_COUNTERS, _ => 0);
      }
      var members := groups[perfEventHandle[leaderPos]];
      if |members| != numCounters {
        return outData;
      }
      data := Counts(members, counts) + outData[numCounters..];
    }

    /** PCM::readPerfData outside task mode, into a buffer of zeros. */
    method ReadPerfData(used: nat, topDown: bool, level2: bool, counts: Event -> u64) returns (outData: seq<u64>)
      requires Valid() && used <= PERF_MAX_CUSTOM_COUNTERS && GroupAt(0, MainEvents(used)) && perfEventHandle[0] >= 0
      requires topDown ==>
        GroupAt(PERF_TOPDOWN_SLOTS_POS, AsEvents(TopDownEvents(level2))) && perfEventHandle[PERF_TOPDOWN_SLOTS_POS] >= 0
      requires topDown ==> PositionsFollow(used, TopDownEvents(level2), |TopDownEvents(level2)|)
      ensures |outData| == PERF_MAX_COUNTERS
      ensures forall i: FixedCounter :: outData[i] == counts(Fixed(i))
      ensures forall i :: 0 <= i < used ==> outData[PERF_GEN_EVENT_0_POS + i] == counts(Generic(i))
      ensures topDown ==> forall x :: x in TopDownEvents(level2) ==>
        0 <= perfTopDownPos[Pos(OfTopDown(x))] < |outData|
          && outData[perfTopDownPos[Pos(OfTopDown(x))]] == counts(OfTopDown(x))
      ensures RestIs(used, topDown, level2, counts, outData)
    {
      var main := CORE_FIXED_COUNTER_NUM_USED + used;
      outData := ReadGroup(0, main, counts, seq(PERF_MAX_COUNTERS, _ => 0));
      MainSlots(used, counts, outData);
      if topDown {
        var num := if level2 then 9 else 5;
        var topDownData := ReadGroup(PERF_TOPDOWN_SLOTS_POS, num, counts, seq(PERF_MAX_COUNTERS, _ => 0));
        TopDownSlots(used, level2, counts, outData, topDownData);
        outData := Copied(topDownData[..num], outData, main);
        FoundAtPositions(used, level2, counts, outData);
      }
    }

    lemma FoundAtPositions(used: nat, level2: bool, counts: Event -> u64, outData: seq<u64>)
      requires used <= PERF_MAX_CUSTOM_COUNTERS && |outData| == PERF_MAX_COUNTERS
      requires PositionsFollow(used, TopDownEvents(level2), |TopDownEvents(level2)|)
      requires RestIs(used, true, level2, counts, outData)
      ensures forall x :: x in TopDownEvents(level2) ==>
        0 <= perfTopDownPos[Pos(OfTopDown(x))] < |outData|
          && outData[perfTopDownPos[Pos(OfTopDown(x))]] == counts(OfTopDown(x))
    {
      forall x | x in TopDownEvents(level2)
        ensures 0 <= perfTopDownPos[Pos(OfTopDown(x))] < |outData|
        ensures outData[perfTopDownPos[Pos(OfTopDown(x))]] == counts(OfTopDown(x))
      {
        var k :| 0 <= k < |TopDownEvents(level2)| && TopDownEvents(level2)[k] == x;
        assert outData[CORE_FIXED_COUNTER_NUM_USED + used + k] == counts(OfTopDown(x));
      }
    }

    /** Programming a core and reading it back: where the reader looks for an event,
        there is that event's count. */
    method ProgramAndRead(used: nat, topDown: bool, level2: bool, opens: Event -> bool, counts: Event -> u64)
      returns (ok: bool, outData: seq<u64>)
      requires Valid() && used <= PERF_MAX_CUSTOM_COUNTERS
      modifies this
      ensures ok ==> |outData| == PERF_MAX_COUNTERS == |perfTopDownPos|
      ensures ok ==> forall i: FixedCounter :: outData[i] == counts(Fixed(i))
      ensures ok ==> forall i :: 0 <= i < used ==> outData[PERF_GEN_EVENT_0_POS + i] == counts(Generic(i))
      ensures ok && topDown ==> forall x: TopDown ::
        level2 || x.Slots? || x.FrontendBound? || x.BadSpeculation? || x.BackendBound? || x.Retiring? ==>
        0 <= perfTopDownPos[Pos(OfTopDown(x))] < |outData|
          && outData[perfTopDownPos[Pos(OfTopDown(x))]] == counts(OfTopDown(x))
      ensures ok ==> RestIs(used, topDown, level2, counts, outData)
    {
      outData := [];
      ok := ProgramMain(used, opens);
      if ok && topDown {
        ok := ProgramTopDown(used, level2, opens);
      }
      if ok {
        outData := ReadPerfData(used, topDown, level2, counts);
        forall x: TopDown
          ensures level2 ==> x in TopDownEvents(level2)
          ensures !level2 ==>
            (x in TopDownEvents(false)
             <==> x.Slots? || x.FrontendBound? || x.BadSpeculation? || x.BackendBound? || x.Retiring?)
        {
          AllTopDownEvents(x);
          Level1Events(x);
        }
      }
    }
  }

  /** std::copy into the middle of a buffer. */
  function Copied(data: seq<u64>, buffer: seq<u64>, at: nat): (result: seq<u64>)
    requires at + |data| <= |buffer|
    ensures |result| == |buffer|
    ensures forall p :: 0 <= p < |buffer| ==>
      result[p] == if at <= p < at + |data| then data[p - at] else buffer[p]
  {
    buffer[..at] + data + buffer[at + |data|..]
  }

  /** The slots after the `used` generic counters: the top-down counts in programming
      order, if there are any, then zeros. A reader that takes all generic counters
      the processor has finds these for the ones that are not in use. */
  ghost predicate RestIs(used: nat, topDown: bool, level2: bool, counts: Event -> u64, outData: seq<u64>) {
    var main, events := CORE_FIXED_COUNTER_NUM_USED + used, TopDownEvents(level2);
    && |outData| == PERF_MAX_COUNTERS
    && forall p :: main <= p < |outData| ==>
      outData[p] == if topDown && p - main < |events| then counts(OfTopDown(events[p - main])) else 0
  }

  ghost predicate UnusedReadZero(used: nat, max: nat, data: seq<u64>)
    requires max <= PERF_MAX_CUSTOM_COUNTERS && |data| == PERF_MAX_COUNTERS
  {
    forall p :: PERF_GEN_EVENT_0_POS + used <= p < PERF_GEN_EVENT_0_POS + max ==> data[p] == 0
  }

  /** Reading all `max` generic counters of the processor, of which `used` are in use:
      those that are not in use read as 0, whatever has been counted, exactly if there
      are none of them or no top-down events. */
  lemma UnusedCountersReadZeroExactlyWhen(used: nat, max: nat, topDown: bool, level2: bool)
    requires used <= max <= PERF_MAX_CUSTOM_COUNTERS
    ensures (forall counts, data :: RestIs(used, topDown, level2, counts, data) ==> UnusedReadZero(used, max, data))
       <==> !topDown || used == max
  {
    if topDown && used < max {
      var counts, main := (_: Event) => 1, CORE_FIXED_COUNTER_NUM_USED + used;
      var data: seq<u64> := seq(PERF_MAX_COUNTERS, p =>
        if main <= p < main + |TopDownEvents(level2)| then 1 else 0);
      assert RestIs(used, topDown, level2, counts, data);
      assert data[PERF_GEN_EVENT_0_POS + used] != 0 && !UnusedReadZero(used, max, data);
    }
  }

  function AsEvents(events: seq<TopDown>): (result: seq<Event>)
    ensures |result| == |events| && forall k :: 0 <= k < |events| ==> result[k] == OfTopDown(events[k])
  {
    seq(|events|, k requires 0 <= k < |events| => OfTopDown(events[k]))
  }

  lemma MainSlots(used: nat, counts: Event -> u64, data: seq<u64>)
    requires used <= PERF_MAX_CUSTOM_COUNTERS
    requires data == Counts(MainEvents(used), counts)
                     + seq(PERF_MAX_COUNTERS, _ => 0)[CORE_FIXED_COUNTER_NUM_USED + used..]
    ensures |data| == PERF_MAX_COUNTERS && RestIs(used, false, false, counts, data)
    ensures forall i: FixedCounter :: data[i] == counts(Fixed(i))
    ensures forall i :: 0 <= i < used ==> data[PERF_GEN_EVENT_0_POS + i] == counts(Generic(i))
  {
  }

  lemma TopDownSlots(used: nat, level2: bool, counts: Event -> u64, data: seq<u64>, topDownData: seq<u64>)
    requires used <= PERF_MAX_CUSTOM_COUNTERS && |data| == |topDownData| == PERF_MAX_COUNTERS
    requires RestIs(used, false, false, counts, data)
    requires topDownData[..|TopDownEvents(level2)|] == Counts(AsEvents(TopDownEvents(level2)), counts)
    ensures var copied :=
        Copied(topDownData[..|TopDownEvents(level2)|], data, CORE_FIXED_COUNTER_NUM_USED + used);
      && RestIs(used, true, level2, counts, copied)
      && forall p :: 0 <= p < CORE_FIXED_COUNTER_NUM_USED + used ==> copied[p] == data[p]
  {
  }

  lemma AsEventsGrows(events: seq<TopDown>, k: nat)
    requires k < |events|
    ensures AsEvents(events[..k + 1]) == AsEvents(events[..k]) + [OfTopDown(events[k])]
  {
  }

  function Counts(members: seq<Event>, counts: Event -> u64): (data: seq<u64>)
    ensures |data| == |members| && forall k :: 0 <= k < |members| ==> data[k] == counts(members[k])
  {
    seq(|members|, k requires 0 <= k < |members| => counts(members[k]))
  }
}
