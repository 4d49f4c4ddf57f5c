/** RMID allocation for L3 occupancy and memory bandwidth monitoring: PCM::initRDT,
    initQOSevent and cleanupRDT (Intel SDM Vol. 3B, section 17.18 in the numbering
    of 2019-2021). The cores' registers are words of the model. */
module Rdt {
  import opened Bits
  import opened Words
  import T = Topology

  const UPPER_HALF: u64 := 0xffff_ffff_0000_0000
  const RMID_MASK: u32 := 0x3ff // (1 << 10) - 1
  const EVENT_MASK: u64 := 0xff // (1 << 8) - 1
  const ALL_BUT_LOW_NIBBLE: u64 := 0xffff_ffff_ffff_fff0

  /** How many online cores of socket `s` there are below core `n`. */
  function Earlier(topology: seq<T.Entry>, s: int, n: nat): nat
    requires n <= |topology|
  {
    if n == 0 then 0 else Earlier(topology, s, n - 1) + if T.OnSocket(topology, n - 1, s) then 1 else 0
  }

  /** The RMID of an online core: descending from maxRMID - 1 on each socket, cut to
      ten bits. */
  function Rmid(topology: seq<T.Entry>, maxRmid: u32, core: nat): nat
    requires core < |topology|
  {
    (maxRmid - 1 - Earlier(topology, topology[core].socket, core)) % 1024
  }

  ghost predicate InRange(topology: seq<T.Entry>, numSockets: nat) {
    forall i :: 0 <= i < |topology| && T.Online(topology[i]) ==> 0 <= topology[i].socket < numSockets
  }

  // ------------------------------------------------------------- the word updates

  lemma Pow2Values()
    ensures Pow2(4) == 16 && Pow2(8) == 256 && Pow2(10) == 1024
    ensures Pow2(32) == 0x1_0000_0000 && Pow2(64) == TWO_TO_64
  {
    Pow2Of32();
    Pow2Adds(8, 2);
    Pow2Adds(32, 32);
  }

  lemma ClearLowHalf(w: u64)
    ensures And(w, UPPER_HALF) == w - w % 0x1_0000_0000
  {
    Pow2Values();
    AndHighMask(w, 32, 64);
  }

  lemma ClearLowNibble(w: u64)
    ensures And(w, ALL_BUT_LOW_NIBBLE) == w - w % 16
  {
    Pow2Values();
    AndHighMask(w, 4, 64);
  }

  lemma LowTenBits(w: u32)
    ensures And(w, RMID_MASK) == w % 1024
  {
    Pow2Values();
    AndLowMask(w, 10);
  }

  lemma LowByte(w: u64)
    ensures And(w, EVENT_MASK) == w % 256
  {
    Pow2Values();
    AndLowMask(w, 8);
  }

  lemma InsertLowHalf(w: u64, x: u32)
    ensures Or(w - w % 0x1_0000_0000, x) == w - w % 0x1_0000_0000 + x
  {
    Pow2Values();
    OrDisjoint(w - w % 0x1_0000_0000, x, 32);
  }

  /** The word initRDT writes to IA32_PQR_ASSOC. */
  function WithRmid(pqr: u64, rmid: u32): u64 {
    RmidReplacesLowHalf(pqr, rmid);
    Or(And(pqr, UPPER_HALF), And(rmid, RMID_MASK))
  }

  /** It keeps the upper half and has the RMID, cut to ten bits, below. */
  lemma RmidReplacesLowHalf(pqr: u64, rmid: u32)
    ensures Or(And(pqr, UPPER_HALF), And(rmid, RMID_MASK)) == pqr - pqr % 0x1_0000_0000 + rmid % 1024
  {
    ClearLowHalf(pqr);
    LowTenBits(rmid);
    InsertLowHalf(pqr, rmid % 1024);
  }

  /** The word initRDT writes to IA32_QM_EVTSEL. */
  function RmidAbove(rmid: u32): u64 {
    LowTenBits(rmid);
    And(rmid, RMID_MASK) * 0x1_0000_0000
  }

  /** The word initQOSevent writes to IA32_QM_EVTSEL. */
  function WithEvent(evtsel: u64, event: u64): u64 {
    WithEventIsWord(evtsel, event);
    Or(And(evtsel, ALL_BUT_LOW_NIBBLE), And(event, EVENT_MASK))
  }

  function SecondNibble(x: nat): nat {
    x / 16 % 16
  }

  lemma OrIsNibble(a: nat, b: nat)
    requires a < 16 && b < 16
    ensures Or(a, b) < 16
  {
    Pow2Values();
    OrIsBounded(a, b, 4);
  }

  /** An event replaces the low nibble of the register, and adds its bits to the
      second one. */
  lemma EventNibbles(evtsel: u64, event: u64)
    ensures WithEvent(evtsel, event)
         == evtsel - evtsel % 256 + 16 * Or(SecondNibble(evtsel), SecondNibble(event)) + event % 16
  {
    ClearLowNibble(evtsel);
    LowByte(event);
    ClearedWord(evtsel);
    EventByte(event);
    OrOfEqual(And(evtsel, ALL_BUT_LOW_NIBBLE), And(event, EVENT_MASK),
              16 * (16 * (evtsel / 256) + SecondNibble(evtsel)), 16 * SecondNibble(event) + event % 16);
    OrIntoSecondNibble(evtsel / 256, SecondNibble(evtsel), SecondNibble(event), event % 16);
  }

  lemma ClearedWord(w: u64)
    ensures w - w % 16 == 16 * (16 * (w / 256) + SecondNibble(w)) && w - w % 256 == 256 * (w / 256)
  {
    assert w / 16 == 16 * (w / 256) + SecondNibble(w);
  }

  lemma EventByte(event: u64)
    ensures event % 256 == 16 * SecondNibble(event) + event % 16
  {
    var q, b := event / 256, event % 256;
    assert event == 16 * (16 * q + b / 16) + b % 16;
  }

  lemma OrIntoSecondNibble(upper: nat, second: nat, event1: nat, event0: nat)
    requires second < 16 && event1 < 16 && event0 < 16
    ensures Or(16 * (16 * upper + second), 16 * event1 + event0) == 256 * upper + 16 * Or(second, event1) + event0
  {
    OrOfNibbles(16 * upper + second, event1, 0, event0);
    OrOfNibbles(upper, 0, second, event1);
    OrOfZero(event0);
    OrOfZero(upper);
  }

  /** The same, field by field. */
  lemma EventFields(evtsel: u64, event: u64)
    ensures var w := WithEvent(evtsel, event);
      && w / 256 == evtsel / 256 && w % 16 == event % 16
      && SecondNibble(w) == Or(SecondNibble(evtsel), SecondNibble(event))
  {
    EventNibbles(evtsel, event);
    OrIsNibble(SecondNibble(evtsel), SecondNibble(event));
    BytesSplit(evtsel / 256, Or(SecondNibble(evtsel), SecondNibble(event)), event % 16);
  }

  lemma BytesSplit(upper: nat, second: nat, first: nat)
    requires second < 16 && first < 16
    ensures var w := 256 * upper + 16 * second + first;
      w / 256 == upper && SecondNibble(w) == second && w % 16 == first
  {
    assert 256 * upper + 16 * second + first == 16 * (16 * upper + second) + first;
  }

  /** An event below 16 replaces the low nibble and nothing else. */
  lemma SmallEventReplacesNibble(evtsel: u64, event: u64)
    requires event < 16
    ensures WithEvent(evtsel, event) == evtsel - evtsel % 16 + event
  {
    ClearLowNibble(evtsel);
    LowByte(event);
    OrOfEqual(And(evtsel, ALL_BUT_LOW_NIBBLE), And(event, EVENT_MASK), 16 * (evtsel / 16), event);
    OrIntoLowNibble(evtsel / 16, event);
  }

  lemma OrIntoLowNibble(upper: nat, x: nat)
    requires x < 16
    ensures Or(16 * upper, x) == 16 * upper + x
  {
    Pow2Values();
    OrDisjoint(16 * upper, x, 4);
  }

  lemma OrWithNone(a: nat, b: nat)
    requires b == 0
    ensures Or(a, b) == a
  {
  }

  lemma {:induction false} AndIsSmaller(a: nat, b: nat)
    ensures And(a, b) <= a && And(a, b) <= b
  {
    if a != 0 && b != 0 {
      AndIsSmaller(a / 2, b / 2);
    }
  }

  lemma {:induction false} OrIsBounded(a: nat, b: nat, n: nat)
    requires a < Pow2(n) && b < Pow2(n)
    ensures Or(a, b) < Pow2(n)
  {
    if a != 0 && b != 0 {
      OrIsBounded(a / 2, b / 2, n - 1);
    }
  }

  lemma WithEventIsWord(evtsel: u64, event: u64)
    ensures Or(And(evtsel, ALL_BUT_LOW_NIBBLE), And(event, EVENT_MASK)) < TWO_TO_64
  {
    Pow2Values();
    AndIsSmaller(evtsel, ALL_BUT_LOW_NIBBLE);
    AndIsSmaller(event, EVENT_MASK);
    OrIsBounded(And(evtsel, ALL_BUT_LOW_NIBBLE), And(event, EVENT_MASK), 64);
  }

  // ----------------------------------------------------------------- the registers

  /** A core's two registers carry the same RMID, IA32_QM_EVTSEL no event yet, and
      IA32_PQR_ASSOC has kept its upper half. */
  predicate Tagged(before: u64, pqr: nat, evtsel: nat, rmid: nat) {
    && pqr == before - before % 0x1_0000_0000 + rmid
    && evtsel == rmid * 0x1_0000_0000
  }

  /** The next RMID to hand out on socket `s`, with the wrap-around of uint32. */
  function NextRmid(topology: seq<T.Entry>, maxRmid: u32, s: int, n: nat): u32
    requires n <= |topology|
  {
    (maxRmid - 1 - Earlier(topology, s, n)) % 0x1_0000_0000
  }

  lemma LowBitsOfWrapped(x: int)
    ensures x % 0x1_0000_0000 % 1024 == x % 1024
  {
  }

  lemma WrappedDecrement(x: int)
    ensures (x - 1) % 0x1_0000_0000 == if x % 0x1_0000_0000 == 0 then 0xffff_ffff else x % 0x1_0000_0000 - 1
  {
  }

  lemma RmidWords(pqr: u64, rmid: u32)
    ensures Tagged(pqr, WithRmid(pqr, rmid), RmidAbove(rmid), rmid % 1024)
  {
    LowTenBits(rmid);
    RmidReplacesLowHalf(pqr, rmid);
  }

  lemma NextIsRmid(topology: seq<T.Entry>, maxRmid: u32, core: nat)
    requires core < |topology|
    ensures NextRmid(topology, maxRmid, topology[core].socket, core) % 1024 == Rmid(topology, maxRmid, core)
  {
    LowBitsOfWrapped(maxRmid - 1 - Earlier(topology, topology[core].socket, core));
  }

  lemma NextRmidSteps(topology: seq<T.Entry>, maxRmid: u32, s: int, n: nat)
    requires n < |topology|
    ensures var rmid := NextRmid(topology, maxRmid, s, n);
      NextRmid(topology, maxRmid, s, n + 1)
      == if !T.OnSocket(topology, n, s) then rmid else if rmid == 0 then 0xffff_ffff else rmid - 1
  {
    WrappedDecrement(maxRmid - 1 - Earlier(topology, s, n));
  }

  /** The registers after initRDT has reached core `n`. */
  ghost predicate Initialised(topology: seq<T.Entry>, maxRmid: u32, n: nat,
                              pqr0: seq<u64>, evtsel0: seq<u64>, pqr: seq<u64>, evtsel: seq<u64>)
  {
    && |pqr0| == |evtsel0| == |pqr| == |evtsel| == |topology|
    && forall c :: 0 <= c < |topology| ==>
         if c < n && T.Online(topology[c]) then Tagged(pqr0[c], pqr[c], evtsel[c], Rmid(topology, maxRmid, c))
         else pqr[c] == pqr0[c] && evtsel[c] == evtsel0[c]
  }

  /** Core `n` is given the next RMID of its socket. */
  lemma InitialisedSteps(topology: seq<T.Entry>, maxRmid: u32, n: nat, pqr0: seq<u64>, evtsel0: seq<u64>,
                         pqr: seq<u64>, evtsel: seq<u64>, pqr': u64, evtsel': u64)
    requires n < |topology| && Initialised(topology, maxRmid, n, pqr0, evtsel0, pqr, evtsel)
    requires T.Online(topology[n])
    requires Tagged(pqr[n], pqr', evtsel', NextRmid(topology, maxRmid, topology[n].socket, n) % 1024)
    ensures Initialised(topology, maxRmid, n + 1, pqr0, evtsel0, pqr[n := pqr'], evtsel[n := evtsel'])
  {
    NextIsRmid(topology, maxRmid, n);
  }

  /** And after cleanupRDT has reached it: RMID 0 and event 0. */
  ghost predicate CleanedUp(topology: seq<T.Entry>, n: nat, pqr0: seq<u64>, evtsel0: seq<u64>, pqr: seq<u64>,
                            evtsel: seq<u64>) {
    && |pqr0| == |evtsel0| == |pqr| == |evtsel| == |topology|
    && forall c :: 0 <= c < |topology| ==>
         if c < n && T.Online(topology[c]) then Tagged(pqr0[c], pqr[c], evtsel[c], 0)
         else pqr[c] == pqr0[c] && evtsel[c] == evtsel0[c]
  }

  lemma TaggedWords(before: u64, pqr: nat, evtsel: nat, rmid: nat)
    requires rmid < 1024 && Tagged(before, pqr, evtsel, rmid)
    ensures pqr / 0x1_0000_0000 == before / 0x1_0000_0000 && pqr % 0x1_0000_0000 == rmid
    ensures evtsel / 0x1_0000_0000 == rmid && evtsel % 0x1_0000_0000 == 0
  {
    DivModUnique(pqr, 0x1_0000_0000, before / 0x1_0000_0000, rmid);
    DivModUnique(evtsel, 0x1_0000_0000, rmid, 0);
  }

  /** Half by half: initRDT leaves the RMID in the lower half of IA32_PQR_ASSOC and in the
      upper half of IA32_QM_EVTSEL, whose lower half has no event. */
  lemma HalvesInitialised(topology: seq<T.Entry>, maxRmid: u32, pqr0: seq<u64>, evtsel0: seq<u64>,
                          pqr: seq<u64>, evtsel: seq<u64>, c: nat)
    requires Initialised(topology, maxRmid, |topology|, pqr0, evtsel0, pqr, evtsel) && c < |topology|
    ensures T.Online(topology[c]) ==>
      && pqr[c] / 0x1_0000_0000 == pqr0[c] / 0x1_0000_0000 && pqr[c] % 0x1_0000_0000 == Rmid(topology, maxRmid, c)
      && evtsel[c] / 0x1_0000_0000 == Rmid(topology, maxRmid, c) && evtsel[c] % 0x1_0000_0000 == 0
    ensures !T.Online(topology[c]) ==> pqr[c] == pqr0[c] && evtsel[c] == evtsel0[c]
  {
    if T.Online(topology[c]) {
      TaggedWords(pqr0[c], pqr[c], evtsel[c], Rmid(topology, maxRmid, c));
    }
  }

  /** And cleanupRDT leaves neither RMID nor event. */
  lemma HalvesCleanedUp(topology: seq<T.Entry>, pqr0: seq<u64>, evtsel0: seq<u64>, pqr: seq<u64>, evtsel: seq<u64>,
                        c: nat)
    requires CleanedUp(topology, |topology|, pqr0, evtsel0, pqr, evtsel) && c < |topology|
    ensures T.Online(topology[c]) ==>
      && pqr[c] / 0x1_0000_0000 == pqr0[c] / 0x1_0000_0000 && pqr[c] % 0x1_0000_0000 == 0
      && evtsel[c] == 0
    ensures !T.Online(topology[c]) ==> pqr[c] == pqr0[c] && evtsel[c] == evtsel0[c]
  {
    if T.Online(topology[c]) {
      TaggedWords(pqr0[c], pqr[c], evtsel[c], 0);
    }
  }

  /** The next RMID of every socket, before core `n`. */
  ghost predicate RmidsAt(topology: seq<T.Entry>, maxRmid: u32, rmid: seq<u32>, n: nat)
    requires n <= |topology|
  {
    forall s :: 0 <= s < |rmid| ==> rmid[s] == NextRmid(topology, maxRmid, s, n)
  }

  lemma RmidsStep(topology: seq<T.Entry>, maxRmid: u32, rmid: seq<u32>, n: nat)
    requires n < |topology| && RmidsAt(topology, maxRmid, rmid, n)
    requires T.Online(topology[n]) ==> 0 <= topology[n].socket < |rmid|
    ensures !T.Online(topology[n]) ==> RmidsAt(topology, maxRmid, rmid, n + 1)
    ensures T.Online(topology[n]) ==>
      var s := topology[n].socket;
      && rmid[s] == NextRmid(topology, maxRmid, s, n)
      && RmidsAt(topology, maxRmid, rmid[s := if rmid[s] == 0 then 0xffff_ffff else rmid[s] - 1], n + 1)
  {
    forall s | 0 <= s < |rmid| {
      NextRmidSteps(topology, maxRmid, s, n);
    }
  }

  class Pcm {
    const topology: seq<T.Entry>
    const numSockets: nat
    var pqrAssoc: seq<u64>
    var qmEvtsel: seq<u64>

    ghost predicate Valid()
      reads this
    {
      |pqrAssoc| == |qmEvtsel| == |topology| && InRange(topology, numSockets)
    }

    method InitRDT(maxRmid: u32)
      requires Valid()
      modifies this
      ensures Valid()
      ensures Initialised(topology, maxRmid, |topology|, old(pqrAssoc), old(qmEvtsel), pqrAssoc, qmEvtsel)
    {
      var rmid: seq<u32> := seq(numSockets, _ => if maxRmid == 0 then 0xffff_ffff else maxRmid - 1);
      for core := 0 to |topology|
        invariant Valid() && |rmid| == numSockets
        invariant RmidsAt(topology, maxRmid, rmid, core)
        invariant Initialised(topology, maxRmid, core, old(pqrAssoc), old(qmEvtsel), pqrAssoc, qmEvtsel)
      {
        RmidsStep(topology, maxRmid, rmid, core);
        if T.Online(topology[core]) {
          var s := topology[core].socket;
          AssignRmid(core, rmid[s], maxRmid, old(pqrAssoc), old(qmEvtsel));
          rmid := rmid[s := if rmid[s] == 0 then 0xffff_ffff else rmid[s] - 1];
        }
      }
    }

    /** The two updates under the core's MSR lock. */
    method AssignRmid(core: nat, rmid: u32, ghost maxRmid: u32, ghost pqr0: seq<u64>, ghost evtsel0: seq<u64>)
      requires Valid() && core < |topology| && T.Online(topology[core])
      requires rmid == NextRmid(topology, maxRmid, topology[core].socket, core)
      requires Initialised(topology, maxRmid, core, pqr0, evtsel0, pqrAssoc, qmEvtsel)
      modifies this`pqrAssoc, this`qmEvtsel
      ensures Valid()
      ensures Initialised(topology, maxRmid, core + 1, pqr0, evtsel0, pqrAssoc, qmEvtsel)
    {
      RmidWords(pqrAssoc[core], rmid);
      InitialisedSteps(topology, maxRmid, core, pqr0, evtsel0, pqrAssoc, qmEvtsel,
                       WithRmid(pqrAssoc[core], rmid), RmidAbove(rmid));
      pqrAssoc := pqrAssoc[core := WithRmid(pqrAssoc[core], rmid)];
      qmEvtsel := qmEvtsel[core := RmidAbove(rmid)];
    }

    method InitQOSevent(event: u64, core: nat)
      requires Valid() && core < |topology|
      modifies this`qmEvtsel
      ensures Valid()
      ensures forall c :: 0 <= c < |topology| && c != core ==> qmEvtsel[c] == old(qmEvtsel[c])
      ensures !T.Online(topology[core]) ==> qmEvtsel[core] == old(qmEvtsel[core])
      ensures T.Online(topology[core]) ==>
        && qmEvtsel[core] / 256 == old(qmEvtsel[core]) / 256
        && qmEvtsel[core] % 16 == event % 16
        && SecondNibble(qmEvtsel[core]) == Or(SecondNibble(old(qmEvtsel[core])), SecondNibble(event))
    {
      if !T.Online(topology[core]) {
        return;
      }
      EventFields(qmEvtsel[core], event);
      qmEvtsel := qmEvtsel[core := WithEvent(qmEvtsel[core], event)];
    }

    method CleanupRDT()
      requires Valid()
      modifies this
      ensures Valid()
      ensures CleanedUp(topology, |topology|, old(pqrAssoc), old(qmEvtsel), pqrAssoc, qmEvtsel)
    {
      for core := 0 to |topology|
        invariant Valid()
        invariant CleanedUp(topology, core, old(pqrAssoc), old(qmEvtsel), pqrAssoc, qmEvtsel)
      {
        if T.Online(topology[core]) {
          ClearLowHalf(pqrAssoc[core]);
          pqrAssoc := pqrAssoc[core := And(pqrAssoc[core], UPPER_HALF)];
          qmEvtsel := qmEvtsel[core := 0];
        }
      }
    }
  }

  // -------------------------------------------------------------- who gets which

  /** The online cores of a socket are numbered 0, 1, 2, ... by Earlier. */
  lemma {:induction false} EarlierIsMonotone(topology: seq<T.Entry>, s: int, m: nat, n: nat)
    requires m <= n <= |topology|
    ensures Earlier(topology, s, m) <= Earlier(topology, s, n)
    ensures m < n && T.OnSocket(topology, m, s) ==> Earlier(topology, s, m) < Earlier(topology, s, n)
  {
    if m < n {
      EarlierIsMonotone(topology, s, m, n - 1);
    }
  }

  /** Every rank below the number of online cores of the socket is taken. */
  lemma {:induction false} CoreOfRank(topology: seq<T.Entry>, s: int, n: nat, rank: nat) returns (core: nat)
    requires n <= |topology| && rank < Earlier(topology, s, n)
    ensures core < n && T.OnSocket(topology, core, s) && Earlier(topology, s, core) == rank
  {
    if T.OnSocket(topology, n - 1, s) && Earlier(topology, s, n - 1) == rank {
      core := n - 1;
    } else {
      core := CoreOfRank(topology, s, n - 1, rank);
    }
  }

  function OnlineCores(topology: seq<T.Entry>, s: int): nat {
    Earlier(topology, s, |topology|)
  }

  ghost predicate AllDistinct(topology: seq<T.Entry>, maxRmid: u32, s: int) {
    forall c, d :: 0 <= c < d < |topology| && T.OnSocket(topology, c, s) && T.OnSocket(topology, d, s) ==>
      Rmid(topology, maxRmid, c) != Rmid(topology, maxRmid, d)
  }

  lemma ApartModulo(a: int, b: int)
    requires 0 < b - a < 1024
    ensures a % 1024 != b % 1024
  {
  }

  /** The online cores of a socket have distinct RMIDs exactly if there are at most
      1024 of them, the number of values the ten-bit mask leaves. */
  lemma RmidsAreDistinctExactlyWhen(topology: seq<T.Entry>, maxRmid: u32, s: int)
    ensures AllDistinct(topology, maxRmid, s) <==> OnlineCores(topology, s) <= 1024
  {
    if OnlineCores(topology, s) <= 1024 {
      forall c, d | 0 <= c < d < |topology| && T.OnSocket(topology, c, s) && T.OnSocket(topology, d, s)
        ensures Rmid(topology, maxRmid, c) != Rmid(topology, maxRmid, d)
      {
        EarlierIsMonotone(topology, s, c, d);
        EarlierIsMonotone(topology, s, d, |topology|);
        ApartModulo(maxRmid - 1 - Earlier(topology, s, d), maxRmid - 1 - Earlier(topology, s, c));
      }
    } else {
      var c := CoreOfRank(topology, s, |topology|, 0);
      var d := CoreOfRank(topology, s, |topology|, 1024);
      if d <= c {
        EarlierIsMonotone(topology, s, d, c);
      }
      assert Rmid(topology, maxRmid, c) == Rmid(topology, maxRmid, d);
    }
  }

  ghost predicate AllInHardwareRange(topology: seq<T.Entry>, maxRmid: u32, s: int) {
    forall c :: 0 <= c < |topology| && T.OnSocket(topology, c, s) ==> Rmid(topology, maxRmid, c) < maxRmid
  }

  /** All of them are RMIDs the processor has exactly if it has 1024 or more, or at
      least as many as there are online cores on the socket. */
  lemma RmidsExistExactlyWhen(topology: seq<T.Entry>, maxRmid: u32, s: int)
    ensures AllInHardwareRange(topology, maxRmid, s) <==> maxRmid >= 1024 || OnlineCores(topology, s) <= maxRmid
  {
    if maxRmid < 1024 {
      if OnlineCores(topology, s) <= maxRmid {
        forall c | 0 <= c < |topology| && T.OnSocket(topology, c, s)
          ensures Rmid(topology, maxRmid, c) < maxRmid
        {
          EarlierIsMonotone(topology, s, c, |topology|);
        }
      } else {
        var c := CoreOfRank(topology, s, |topology|, maxRmid);
        assert Rmid(topology, maxRmid, c) == 1023;
      }
    }
  }

  ghost predicate NoneIsZero(topology: seq<T.Entry>, maxRmid: u32, s: int) {
    forall c :: 0 <= c < |topology| && T.OnSocket(topology, c, s) ==> Rmid(topology, maxRmid, c) != 0
  }

  lemma MultipleBelow(x: int, rank: nat)
    ensures rank < x % 1024 ==> (x - rank) % 1024 != 0
    ensures rank == x % 1024 ==> (x - rank) % 1024 == 0
  {
  }

  /** No online core gets RMID 0, the one of unmonitored cores, exactly if the
      socket has fewer online cores than the ten-bit countdown has steps to 0; for
      maxRMID up to 1024, exactly if it has fewer than maxRMID. */
  lemma RmidZeroIsSparedExactlyWhen(topology: seq<T.Entry>, maxRmid: u32, s: int)
    ensures NoneIsZero(topology, maxRmid, s) <==> OnlineCores(topology, s) <= (maxRmid - 1) % 1024
    ensures 0 < maxRmid <= 1024 ==> (NoneIsZero(topology, maxRmid, s) <==> OnlineCores(topology, s) < maxRmid)
  {
    var left := (maxRmid - 1) % 1024;
    if OnlineCores(topology, s) <= left {
      forall c | 0 <= c < |topology| && T.OnSocket(topology, c, s)
        ensures Rmid(topology, maxRmid, c) != 0
      {
        EarlierIsMonotone(topology, s, c, |topology|);
        MultipleBelow(maxRmid - 1, Earlier(topology, s, c));
      }
    } else {
      var c := CoreOfRank(topology, s, |topology|, left);
      MultipleBelow(maxRmid - 1, left);
      assert Rmid(topology, maxRmid, c) == 0;
    }
  }

  // ------------------------------------------------------------ sequences of events

  /** IA32_QM_EVTSEL after a sequence of initQOSevent calls on one core. */
  function AfterEvents(evtsel: u64, events: seq<u64>): u64 {
    if events == [] then evtsel
    else WithEvent(AfterEvents(evtsel, events[..|events| - 1]), events[|events| - 1])
  }

  /** After initRDT and any sequence of initQOSevent calls with events below 16 the
      register holds that RMID and exactly the last event. */
  lemma {:induction false} RegisterHoldsLastEvent(rmid: nat, events: seq<u64>)
    requires rmid < 1024 && forall i :: 0 <= i < |events| ==> events[i] < 16
    ensures AfterEvents(rmid * 0x1_0000_0000, events)
         == rmid * 0x1_0000_0000 + if events == [] then 0 else events[|events| - 1]
  {
    if events != [] {
      var front, last := events[..|events| - 1], events[|events| - 1];
      RegisterHoldsLastEvent(rmid, front);
      SmallEventReplacesNibble(AfterEvents(rmid * 0x1_0000_0000, front), last);
      NibbleOf(rmid, if front == [] then 0 else front[|front| - 1]);
    }
  }

  lemma NibbleOf(rmid: nat, event: nat)
    requires event < 16
    ensures (rmid * 0x1_0000_0000 + event) % 16 == event
  {
  }

  /** The second nibbles of a sequence of events, ored together. */
  function SecondNibbles(events: seq<u64>): (n: nat)
    ensures n < 16
  {
    if events == [] then 0
    else
      OrIsNibble(SecondNibbles(events[..|events| - 1]), SecondNibble(events[|events| - 1]));
      Or(SecondNibbles(events[..|events| - 1]), SecondNibble(events[|events| - 1]))
  }

  function LastNibble(events: seq<u64>): nat {
    if events == [] then 0 else events[|events| - 1] % 16
  }

  lemma NibblesOf(rmid: nat, second: nat, first: nat)
    requires second < 16 && first < 16
    ensures var w := rmid * 0x1_0000_0000 + 16 * second + first;
      w % 256 == 16 * second + first && SecondNibble(w) == second
  {
    BytesSplit(rmid * 0x100_0000, second, first);
  }

  /** What any events at all leave in the register: the RMID, the first nibble of the
      last event, and in the second nibble whatever any event has set there. */
  lemma {:induction false} RegisterAfterEvents(rmid: nat, events: seq<u64>)
    requires rmid < 1024
    ensures AfterEvents(rmid * 0x1_0000_0000, events)
         == rmid * 0x1_0000_0000 + 16 * SecondNibbles(events) + LastNibble(events)
  {
    if events != [] {
      var front, last := events[..|events| - 1], events[|events| - 1];
      RegisterAfterEvents(rmid, front);
      NibblesOf(rmid, SecondNibbles(front), LastNibble(front));
      EventNibbles(AfterEvents(rmid * 0x1_0000_0000, front), last);
    }
  }

  lemma OrIsZero(a: nat, b: nat)
    ensures Or(a, b) == 0 <==> a == 0 && b == 0
  {
    if a != 0 && b != 0 {
      OrIsZero(a / 2, b / 2);
    }
  }

  lemma {:induction false} SecondNibblesAreClear(events: seq<u64>)
    ensures SecondNibbles(events) == 0 <==> forall i :: 0 <= i < |events| ==> SecondNibble(events[i]) == 0
  {
    if events != [] {
      var n := |events| - 1;
      SecondNibblesAreClear(events[..n]);
      OrIsZero(SecondNibbles(events[..n]), SecondNibble(events[n]));
      assert (forall i :: 0 <= i < |events| ==> SecondNibble(events[i]) == 0)
        <==> (forall i :: 0 <= i < n ==> SecondNibble(events[..n][i]) == 0) && SecondNibble(events[n]) == 0;
    }
  }

  /** After `before` the register records the event `last` exactly. */
  ghost predicate Recorded(rmid: nat, before: seq<u64>, last: u64)
    requires rmid < 1024
  {
    AfterEvents(rmid * 0x1_0000_0000, before + [last]) == rmid * 0x1_0000_0000 + last
  }

  lemma OneMoreEvent(before: seq<u64>, last: u64)
    ensures SecondNibbles(before + [last]) == Or(SecondNibbles(before), SecondNibble(last))
    ensures LastNibble(before + [last]) == last % 16
  {
    assert (before + [last])[..|before|] == before;
  }

  lemma RegisterAfterOneMore(rmid: nat, before: seq<u64>, last: u64)
    requires rmid < 1024
    ensures AfterEvents(rmid * 0x1_0000_0000, before + [last])
         == rmid * 0x1_0000_0000 + 16 * Or(SecondNibbles(before), SecondNibble(last)) + last % 16
  {
    OneMoreEvent(before, last);
    RegisterAfterEvents(rmid, before + [last]);
  }

  lemma RegisterAfterTwo(rmid: nat, first: u64, last: u64)
    requires rmid < 1024
    ensures AfterEvents(rmid * 0x1_0000_0000, [first, last])
         == rmid * 0x1_0000_0000 + 16 * Or(SecondNibble(first), SecondNibble(last)) + last % 16
  {
    OneMoreEvent([], first);
    OrOfZero(SecondNibble(first));
    assert [] + [first] == [first] && [first] + [last] == [first, last];
    RegisterAfterOneMore(rmid, [first], last);
  }

  lemma SameFields(w: nat, rmid: nat, second: nat, last: nat)
    requires last < 256 && w == rmid * 0x1_0000_0000 + 16 * second + last % 16
    ensures w == rmid * 0x1_0000_0000 + last <==> second == SecondNibble(last)
  {
    EventByte(last);
  }

  lemma RecordedIf(rmid: nat, before: seq<u64>, last: u64)
    requires rmid < 1024 && last < 256
    ensures Recorded(rmid, before, last) <==> Or(SecondNibbles(before), SecondNibble(last)) == SecondNibble(last)
  {
    RegisterAfterOneMore(rmid, before, last);
    SameFields(AfterEvents(rmid * 0x1_0000_0000, before + [last]), rmid,
               Or(SecondNibbles(before), SecondNibble(last)), last);
  }

  /** Every event that fits the eight-bit field is recorded exactly, whichever comes
      next, if and only if no event before it has used the second nibble, which the
      clearing mask leaves alone. The events the program sets, 1, 2 and 3, do not. */
  lemma NextEventIsRecordedExactlyWhen(rmid: nat, before: seq<u64>)
    requires rmid < 1024
    ensures (forall last: u64 :: last < 256 ==> Recorded(rmid, before, last))
       <==> (forall i :: 0 <= i < |before| ==> SecondNibble(before[i]) == 0)
  {
    SecondNibblesAreClear(before);
    if SecondNibbles(before) == 0 {
      forall last: u64 | last < 256
        ensures Recorded(rmid, before, last)
      {
        RecordedAfterClear(rmid, before, last);
      }
    } else {
      ZeroIsNotRecorded(rmid, before);
    }
  }

  lemma RecordedAfterClear(rmid: nat, before: seq<u64>, last: u64)
    requires rmid < 1024 && last < 256 && SecondNibbles(before) == 0
    ensures Recorded(rmid, before, last)
  {
    OrOfZero(SecondNibble(last));
    OrOfEqual(SecondNibbles(before), SecondNibble(last), 0, SecondNibble(last));
    RecordedIf(rmid, before, last);
  }

  lemma ZeroIsNotRecorded(rmid: nat, before: seq<u64>)
    requires rmid < 1024 && SecondNibbles(before) != 0
    ensures !Recorded(rmid, before, 0)
  {
    OrWithNone(SecondNibbles(before), SecondNibble(0));
    RecordedIf(rmid, before, 0);
  }

  /** Event 1 set after event 16 reads back as 17. */
  lemma LargeEventIsNotCleared(rmid: nat)
    requires rmid < 1024
    ensures AfterEvents(rmid * 0x1_0000_0000, [16, 1]) == rmid * 0x1_0000_0000 + 17
  {
    OrOfZero(1);
    RegisterAfterTwo(rmid, 16, 1);
  }

  /** From initRDT over any event sequence to cleanupRDT, the upper half of
      IA32_PQR_ASSOC is what it was. */
  lemma UpperHalfSurvives(before: u64, initialised: u64, evtsel: u64, rmid: nat, cleaned: u64, evtsel': u64)
    requires rmid < 1024 && Tagged(before, initialised, evtsel, rmid) && Tagged(initialised, cleaned, evtsel', 0)
    ensures before / 0x1_0000_0000 == initialised / 0x1_0000_0000 == cleaned / 0x1_0000_0000
    ensures initialised % 0x1_0000_0000 == rmid && cleaned % 0x1_0000_0000 == 0
  {
  }
}
