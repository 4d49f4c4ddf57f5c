/** The top-down slot accounting of BasicCounterState::readAndAggregate, with the
    shares computed exactly and rounded down, and the level-1 and level-2 ratios
    derived from two counter states. */
module TopDown {
  import opened Words

  datatype Level1 = Retiring | BadSpeculation | FrontendBound | BackendBound

  datatype Level2 = HeavyOps | BrMispred | FetchLat | MemBound

  /** The level-1 category that a level-2 category is part of. */
  function Parent(c: Level2): Level1 {
    match c
    case HeavyOps => Retiring
    case BrMispred => BadSpeculation
    case FetchLat => FrontendBound
    case MemBound => BackendBound
  }

  datatype Category = AtLevel1(level1: Level1) | AtLevel2(level2: Level2)

  /** Slot counts by category: the accumulators of one core (m->RetiringSlots[core]
      and so on), or the slot members of a counter state. */
  datatype Slots = Slots(
    retiring: nat, badSpeculation: nat, frontendBound: nat, backendBound: nat,
    heavyOps: nat, brMispred: nat, fetchLat: nat, memBound: nat, all: nat)
  {
    function Of(e: Level1): nat {
      match e
      case Retiring => retiring
      case BadSpeculation => badSpeculation
      case FrontendBound => frontendBound
      case BackendBound => backendBound
    }

    function Of2(c: Level2): nat {
      match c
      case HeavyOps => heavyOps
      case BrMispred => brMispred
      case FetchLat => fetchLat
      case MemBound => memBound
    }

    function In(k: Category): nat {
      match k
      case AtLevel1(e) => Of(e)
      case AtLevel2(c) => Of2(c)
    }

    function Total(): nat {
      retiring + badSpeculation + frontendBound + backendBound
    }
  }

  const NO_SLOTS := Slots(0, 0, 0, 0, 0, 0, 0, 0, 0)

  function Add(a: Slots, b: Slots): Slots {
    Slots(a.retiring + b.retiring, a.badSpeculation + b.badSpeculation,
          a.frontendBound + b.frontendBound, a.backendBound + b.backendBound,
          a.heavyOps + b.heavyOps, a.brMispred + b.brMispred,
          a.fetchLat + b.fetchLat, a.memBound + b.memBound, a.all + b.all)
  }

  /** PERF_METRICS and TOPDOWN_SLOTS, both zeroed by the read. */
  datatype Reading = Reading(perfMetrics: u64, slots: u64)

  /** The same once decoded. */
  datatype Metrics = Metrics(raw: Slots, slots: nat)

  /** The metric bytes. Level 2 is read only where the processor has it. */
  function Raw(level2: bool, perfMetrics: u64): Slots {
    var high := perfMetrics / 0x1_0000_0000;
    Slots(perfMetrics % 256, perfMetrics / 0x100 % 256, perfMetrics / 0x1_0000 % 256, perfMetrics / 0x100_0000 % 256,
          if level2 then high % 256 else 0, if level2 then high / 0x100 % 256 else 0,
          if level2 then high / 0x1_0000 % 256 else 0, if level2 then high / 0x100_0000 % 256 else 0, 0)
  }

  /** A register half holding four bytes, lowest first. */
  function Half(b0: nat, b1: nat, b2: nat, b3: nat): nat {
    b0 + 0x100 * b1 + 0x1_0000 * b2 + 0x100_0000 * b3
  }

  lemma DropHigher(a: nat, k: nat)
    ensures (a + 256 * k) % 256 == a % 256
  {
  }

  lemma HalfBytes(b0: nat, b1: nat, b2: nat, b3: nat)
    requires b0 < 256 && b1 < 256 && b2 < 256 && b3 < 256
    ensures var p := Half(b0, b1, b2, b3);
      && p < 0x1_0000_0000
      && p % 256 == b0 && p / 0x100 % 256 == b1 && p / 0x1_0000 % 256 == b2 && p / 0x100_0000 % 256 == b3
  {
    var p := Half(b0, b1, b2, b3);
    DropHigher(b0, b1 + 0x100 * b2 + 0x1_0000 * b3);
    assert p / 0x100 == b1 + 256 * (b2 + 0x100 * b3);
    DropHigher(b1, b2 + 0x100 * b3);
    assert p / 0x1_0000 == b2 + 256 * b3;
    DropHigher(b2, b3);
    assert p / 0x100_0000 == b3;
  }

  lemma LowerBytes(low: nat, high: nat)
    requires low < 0x1_0000_0000
    ensures var p := low + 0x1_0000_0000 * high;
      && p / 0x1_0000_0000 == high && p % 256 == low % 256
      && p / 0x100 % 256 == low / 0x100 % 256
      && p / 0x1_0000 % 256 == low / 0x1_0000 % 256
      && p / 0x100_0000 % 256 == low / 0x100_0000 % 256
  {
    var p := low + 0x1_0000_0000 * high;
    DropHigher(low, 0x100_0000 * high);
    assert p / 0x100 == low / 0x100 + 256 * (0x1_0000 * high);
    DropHigher(low / 0x100, 0x1_0000 * high);
    assert p / 0x1_0000 == low / 0x1_0000 + 256 * (0x100 * high);
    DropHigher(low / 0x1_0000, 0x100 * high);
    assert p / 0x100_0000 == low / 0x100_0000 + 256 * high;
    DropHigher(low / 0x100_0000, high);
  }

  /** Decoding finds every metric in its byte: retiring, bad speculation, front-end
      bound, back-end bound from bit 0 up, their level-2 parts from bit 32 up. */
  lemma RawFindsEveryByte(s: Slots)
    requires s.retiring < 256 && s.badSpeculation < 256 && s.frontendBound < 256 && s.backendBound < 256
    requires s.heavyOps < 256 && s.brMispred < 256 && s.fetchLat < 256 && s.memBound < 256 && s.all == 0
    ensures var low, high := Half(s.retiring, s.badSpeculation, s.frontendBound, s.backendBound),
                             Half(s.heavyOps, s.brMispred, s.fetchLat, s.memBound);
      && low + 0x1_0000_0000 * high < 0x1_0000_0000_0000_0000
      && Raw(true, low + 0x1_0000_0000 * high) == s
      && Raw(false, low + 0x1_0000_0000 * high)
         == Slots(s.retiring, s.badSpeculation, s.frontendBound, s.backendBound, 0, 0, 0, 0, 0)
  {
    HalfBytes(s.retiring, s.badSpeculation, s.frontendBound, s.backendBound);
    HalfBytes(s.heavyOps, s.brMispred, s.fetchLat, s.memBound);
    LowerBytes(Half(s.retiring, s.badSpeculation, s.frontendBound, s.backendBound),
               Half(s.heavyOps, s.brMispred, s.fetchLat, s.memBound));
  }

  function Share(metric: nat, total: nat, slots: nat): nat
    requires total > 0
  {
    metric * slots / total
  }

  /** What one reading adds to the accumulators: nothing but AllSlotsRaw when the
      level-1 metrics are all zero. */
  function Shares(raw: Slots, slots: nat): Slots {
    var total := raw.Total();
    if total == 0 then NO_SLOTS.(all := slots)
    else
      Slots(Share(raw.retiring, total, slots), Share(raw.badSpeculation, total, slots),
            Share(raw.frontendBound, total, slots), Share(raw.backendBound, total, slots),
            Share(raw.heavyOps, total, slots), Share(raw.brMispred, total, slots),
            Share(raw.fetchLat, total, slots), Share(raw.memBound, total, slots), slots)
  }

  /** The accumulators of a core after one more reading. */
  function Advanced(acc: Slots, raw: Slots, slots: nat): Slots {
    Add(acc, Shares(raw, slots))
  }

  /** What a reading hands to the counter state: the accumulators, except that with
      all-zero metrics the raw bytes are handed over instead. */
  function Handed(acc: Slots, raw: Slots): Slots {
    if raw.Total() != 0 then acc else raw.(all := acc.all)
  }

  /** The accumulators after a run of readings on one core. */
  function Accumulated(readings: seq<Metrics>): Slots {
    if readings == [] then NO_SLOTS
    else
      var last := readings[|readings| - 1];
      Advanced(Accumulated(readings[..|readings| - 1]), last.raw, last.slots)
  }

  /** What the last reading of a run hands to the counter state. */
  function Delivered(readings: seq<Metrics>): Slots
    requires readings != []
  {
    Handed(Accumulated(readings), readings[|readings| - 1].raw)
  }

  lemma NoShareOfNothing(total: nat, slots: nat)
    requires total > 0
    ensures Share(0, total, slots) == 0
  {
  }

  lemma NoLevel2Shares(raw: Slots, slots: nat)
    requires raw.heavyOps == 0 && raw.brMispred == 0 && raw.fetchLat == 0 && raw.memBound == 0
    ensures var s := Shares(raw, slots); s.heavyOps == 0 && s.brMispred == 0 && s.fetchLat == 0 && s.memBound == 0
  {
    if raw.Total() != 0 {
      NoShareOfNothing(raw.Total(), slots);
    }
  }

  /** The accumulators of all cores, as members of the PCM object. */
  class Pcm {
    const level2: bool
    var accumulated: seq<Slots>

    constructor (numCores: nat, level2: bool)
      ensures this.level2 == level2
      ensures accumulated == seq(numCores, _ => Accumulated([]))
    {
      this.level2 := level2;
      accumulated := seq(numCores, _ => NO_SLOTS);
    }

    /** The locked section of readAndAggregate. */
    method ReadSlots(core: nat, r: Reading) returns (delivered: Slots)
      requires core < |accumulated|
      modifies this`accumulated
      ensures accumulated
           == old(accumulated)[core := Advanced(old(accumulated[core]), Raw(level2, r.perfMetrics), r.slots)]
      ensures delivered == Handed(accumulated[core], Raw(level2, r.perfMetrics))
    {
      ghost var shares := Shares(Raw(level2, r.perfMetrics), r.slots);
      if !level2 {
        NoLevel2Shares(Raw(level2, r.perfMetrics), r.slots);
      }
      delivered := Raw(level2, r.perfMetrics);
      var total := delivered.Total();
      var acc := accumulated[core];
      if total != 0 {
        acc := acc.(
          frontendBound := acc.frontendBound + Share(delivered.frontendBound, total, r.slots),
          badSpeculation := acc.badSpeculation + Share(delivered.badSpeculation, total, r.slots),
          backendBound := acc.backendBound + Share(delivered.backendBound, total, r.slots),
          retiring := acc.retiring + Share(delivered.retiring, total, r.slots));
        if level2 {
          acc := acc.(
            memBound := acc.memBound + Share(delivered.memBound, total, r.slots),
            fetchLat := acc.fetchLat + Share(delivered.fetchLat, total, r.slots),
            brMispred := acc.brMispred + Share(delivered.brMispred, total, r.slots),
            heavyOps := acc.heavyOps + Share(delivered.heavyOps, total, r.slots));
        }
        delivered := acc;
      }
      acc := acc.(all := acc.all + r.slots);
      assert acc == Add(old(accumulated[core]), shares);
      delivered := delivered.(all := acc.all);
      accumulated := accumulated[core := acc];
    }
  }

  // ---------------------------------------------------------- one reading's share

  lemma Distribute4(a: nat, b: nat, c: nat, d: nat, t: nat)
    ensures (a + b + c + d) * t == a * t + b * t + c * t + d * t
  {
  }

  lemma TimesKeepsOrder(a: int, b: int, t: nat)
    requires a <= b
    ensures a * t <= b * t
  {
  }

  lemma Cancel(a: int, b: int, t: nat)
    requires a * t < b * t
    ensures a < b
  {
    if a >= b {
      TimesKeepsOrder(b, a, t);
    }
  }

  /** The four shares use up the slots except for at most three. */
  lemma SharesUseUpTheSlots(a: nat, b: nat, c: nat, d: nat, slots: nat)
    requires a + b + c + d > 0
    ensures var t := a + b + c + d;
      slots - 3 <= Share(a, t, slots) + Share(b, t, slots) + Share(c, t, slots) + Share(d, t, slots) <= slots
  {
    var t := a + b + c + d;
    var p, q, r, s := Share(a, t, slots), Share(b, t, slots), Share(c, t, slots), Share(d, t, slots);
    ShareIsFloor(a, t, slots);
    ShareIsFloor(b, t, slots);
    ShareIsFloor(c, t, slots);
    ShareIsFloor(d, t, slots);
    Distribute4(a, b, c, d, slots);
    Distribute4(p, q, r, s, t);
    assert (slots + 1) * t == slots * t + t && (p + q + r + s + 4) * t == (p + q + r + s) * t + 4 * t;
    Cancel(p + q + r + s, slots + 1, t);
    Cancel(slots, p + q + r + s + 4, t);
  }

  lemma ShareIsFloor(a: nat, t: nat, slots: nat)
    requires t > 0
    ensures Share(a, t, slots) * t <= a * slots < Share(a, t, slots) * t + t
  {
  }

  lemma SharesAreMonotone(child: nat, parent: nat, total: nat, slots: nat)
    requires total > 0 && child <= parent
    ensures Share(child, total, slots) <= Share(parent, total, slots)
  {
    ShareIsFloor(child, total, slots);
    ShareIsFloor(parent, total, slots);
    assert child * slots <= parent * slots;
    var q := Share(parent, total, slots);
    assert (q + 1) * total == q * total + total;
    Cancel(Share(child, total, slots), q + 1, total);
  }

  // ---------------------------------------------------------------- over a run

  /** The slots of the readings whose metrics were all zero: no category gets them. */
  function Lost(readings: seq<Metrics>): nat {
    if readings == [] then 0
    else
      var last := readings[|readings| - 1];
      Lost(readings[..|readings| - 1]) + if last.raw.Total() == 0 then last.slots else 0
  }

  /** How many readings rounded something down. */
  function Rounded(readings: seq<Metrics>): nat {
    if readings == [] then 0
    else Rounded(readings[..|readings| - 1]) + if readings[|readings| - 1].raw.Total() == 0 then 0 else 1
  }

  lemma SharesCoverTheSlots(raw: Slots, slots: nat)
    ensures raw.Total() == 0 ==> Shares(raw, slots).Total() == 0
    ensures raw.Total() != 0 ==> slots - 3 <= Shares(raw, slots).Total() <= slots
  {
    if raw.Total() != 0 {
      SharesUseUpTheSlots(raw.retiring, raw.badSpeculation, raw.frontendBound, raw.backendBound, slots);
    }
  }

  /** Over any run the four level-1 accumulators stay within AllSlotsRaw, and lag
      it by the slots of the all-zero readings and at most three per other
      reading. */
  lemma {:induction false} AccumulatorsCoverTheSlots(readings: seq<Metrics>)
    ensures var acc, lost := Accumulated(readings), Lost(readings);
      acc.Total() + lost <= acc.all <= acc.Total() + lost + 3 * Rounded(readings)
  {
    if readings != [] {
      AccumulatorsCoverTheSlots(readings[..|readings| - 1]);
      var last := readings[|readings| - 1];
      SharesCoverTheSlots(last.raw, last.slots);
    }
  }

  /** The share of a category as an exact fraction. */
  function ExactShare(raw: Slots, slots: nat, k: Category): real {
    if raw.Total() == 0 then 0.0 else (raw.In(k) * slots) as real / raw.Total() as real
  }

  function Exact(readings: seq<Metrics>, k: Category): real {
    if readings == [] then 0.0
    else
      var last := readings[|readings| - 1];
      Exact(readings[..|readings| - 1], k) + ExactShare(last.raw, last.slots, k)
  }

  lemma WholeQuotient(q: int, t: int)
    requires t > 0
    ensures (q * t) as real / t as real == q as real
  {
    assert (q * t) as real == q as real * t as real;
  }

  lemma RealTimesKeepsOrder(x: real, y: real, t: real)
    requires x <= y && t > 0.0
    ensures x * t <= y * t
  {
  }

  lemma QuotientIsStrict(a: int, b: int, t: int)
    requires t > 0 && a < b
    ensures a as real / t as real < b as real / t as real
  {
    var x, y := a as real / t as real, b as real / t as real;
    assert x * t as real == a as real && y * t as real == b as real;
    if x >= y {
      RealTimesKeepsOrder(y, x, t as real);
    }
  }

  lemma RealQuotient(q: int, r: int, t: int)
    requires t > 0 && 0 <= r < t
    ensures q as real <= (q * t + r) as real / t as real < q as real + 1.0
  {
    WholeQuotient(q, t);
    WholeQuotient(q + 1, t);
    assert (q + 1) * t == q * t + t;
    QuotientIsStrict(q * t + r, (q + 1) * t, t);
    if r > 0 {
      QuotientIsStrict(q * t, q * t + r, t);
    }
  }

  lemma FloorIsClose(x: nat, t: nat)
    requires t > 0
    ensures (x / t) as real <= x as real / t as real < (x / t) as real + 1.0
  {
    RealQuotient(x / t, x % t, t);
  }

  lemma ShareInCategory(raw: Slots, slots: nat, k: Category)
    ensures Shares(raw, slots).In(k) == if raw.Total() == 0 then 0 else Share(raw.In(k), raw.Total(), slots)
  {
  }

  lemma ShareIsClose(raw: Slots, slots: nat, k: Category)
    ensures var share := Shares(raw, slots).In(k) as real;
      share <= ExactShare(raw, slots, k) <= share + if raw.Total() == 0 then 0.0 else 1.0
  {
    ShareInCategory(raw, slots, k);
    if raw.Total() != 0 {
      FloorIsClose(raw.In(k) * slots, raw.Total());
    }
  }

  lemma AddInCategory(a: Slots, b: Slots, k: Category)
    ensures Add(a, b).In(k) == a.In(k) + b.In(k)
  {
  }

  /** Each accumulator, at either level, is its category's exact count (the metric times
      the slots over the sum of the level-1 metrics) but for at most one slot per reading,
      never above it. */
  lemma {:induction false} AccumulatorsAreClose(readings: seq<Metrics>, k: Category)
    ensures var acc := Accumulated(readings).In(k) as real;
      acc <= Exact(readings, k) <= acc + Rounded(readings) as real
  {
    if readings != [] {
      var front, last := readings[..|readings| - 1], readings[|readings| - 1];
      AccumulatorsAreClose(front, k);
      ShareIsClose(last.raw, last.slots, k);
      AddInCategory(Accumulated(front), Shares(last.raw, last.slots), k);
    }
  }

  /** AllSlotsRaw counts every slot of every reading. */
  lemma {:induction false} AllSlotsAreCounted(readings: seq<Metrics>)
    ensures Accumulated(readings).all == SlotsOf(readings)
  {
    if readings != [] {
      AllSlotsAreCounted(readings[..|readings| - 1]);
    }
  }

  function SlotsOf(readings: seq<Metrics>): nat {
    if readings == [] then 0 else SlotsOf(readings[..|readings| - 1]) + readings[|readings| - 1].slots
  }

  /** A read hands over the accumulators, or its own bytes if its level-1 metrics are all
      zero, and all slots so far. */
  lemma DeliveredValues(readings: seq<Metrics>, k: Category)
    requires readings != []
    ensures var last := readings[|readings| - 1].raw;
      Delivered(readings).In(k)
      == if last.retiring + last.badSpeculation + last.frontendBound + last.backendBound != 0
         then Accumulated(readings).In(k) else last.In(k)
    ensures Delivered(readings).all == SlotsOf(readings)
  {
    AllSlotsAreCounted(readings);
  }

  /** The metrics of a reading are consistent: no level-2 byte exceeds its parent's. */
  predicate Nested(raw: Slots) {
    && raw.heavyOps <= raw.retiring && raw.brMispred <= raw.badSpeculation
    && raw.fetchLat <= raw.frontendBound && raw.memBound <= raw.backendBound
  }

  ghost predicate AllNested(readings: seq<Metrics>) {
    forall i :: 0 <= i < |readings| ==> Nested(readings[i].raw)
  }

  /** From `before` to `after` no level-1 category shrinks, and no level-2 category
      grows by more than its parent. */
  ghost predicate Grows(before: Slots, after: Slots) {
    && (forall e: Level1 :: before.Of(e) <= after.Of(e))
    && before.all <= after.all
    && (forall c: Level2 ::
          before.Of2(c) <= after.Of2(c)
          && after.Of2(c) - before.Of2(c) <= after.Of(Parent(c)) - before.Of(Parent(c)))
  }

  /** operator += on counter states keeps the relation. What sockets and the system add
      up are delivered values, for which it need not hold: see below. */
  lemma GrowsAdds(b1: Slots, a1: Slots, b2: Slots, a2: Slots)
    requires Grows(b1, a1) && Grows(b2, a2)
    ensures Grows(Add(b1, b2), Add(a1, a2))
  {
    var b, a := Add(b1, b2), Add(a1, a2);
    forall e: Level1
      ensures b.Of(e) <= a.Of(e)
    {
      assert b1.Of(e) <= a1.Of(e) && b2.Of(e) <= a2.Of(e);
    }
    forall c: Level2
      ensures b.Of2(c) <= a.Of2(c)
      ensures a.Of2(c) - b.Of2(c) <= a.Of(Parent(c)) - b.Of(Parent(c))
    {
      assert b1.Of2(c) <= a1.Of2(c) && b2.Of2(c) <= a2.Of2(c);
      assert a1.Of2(c) - b1.Of2(c) <= a1.Of(Parent(c)) - b1.Of(Parent(c));
      assert a2.Of2(c) - b2.Of2(c) <= a2.Of(Parent(c)) - b2.Of(Parent(c));
    }
  }

  lemma SharesAreNested(raw: Slots, slots: nat)
    requires Nested(raw)
    ensures Nested(Shares(raw, slots))
  {
    var total := raw.Total();
    if total != 0 {
      SharesAreMonotone(raw.heavyOps, raw.retiring, total, slots);
      SharesAreMonotone(raw.brMispred, raw.badSpeculation, total, slots);
      SharesAreMonotone(raw.fetchLat, raw.frontendBound, total, slots);
      SharesAreMonotone(raw.memBound, raw.backendBound, total, slots);
    }
  }

  lemma AddingNestedGrows(acc: Slots, shares: Slots)
    requires Nested(shares)
    ensures Grows(acc, Add(acc, shares))
  {
  }

  lemma GrowsIsTransitive(a: Slots, b: Slots, c: Slots)
    requires Grows(a, b) && Grows(b, c)
    ensures Grows(a, c)
  {
    forall x: Level2
      ensures c.Of2(x) - a.Of2(x) <= c.Of(Parent(x)) - a.Of(Parent(x))
    {
      assert b.Of2(x) - a.Of2(x) <= b.Of(Parent(x)) - a.Of(Parent(x));
      assert c.Of2(x) - b.Of2(x) <= c.Of(Parent(x)) - b.Of(Parent(x));
    }
  }

  /** If every reading is consistent the accumulators grow consistently between any
      two points of a run. */
  lemma {:induction false} AccumulatorsGrow(readings: seq<Metrics>, i: nat)
    requires i <= |readings| && AllNested(readings)
    ensures Grows(Accumulated(readings[..i]), Accumulated(readings))
  {
    if i == |readings| {
      assert readings[..i] == readings;
    } else {
      var front, last := readings[..|readings| - 1], readings[|readings| - 1];
      AccumulatorsGrow(front, i);
      assert front[..i] == readings[..i];
      SharesAreNested(last.raw, last.slots);
      AddingNestedGrows(Accumulated(front), Shares(last.raw, last.slots));
      GrowsIsTransitive(Accumulated(readings[..i]), Accumulated(front), Accumulated(readings));
    }
  }

  /** Consistent or not, no accumulator ever decreases. */
  lemma {:induction false} AccumulatorsNeverDecrease(readings: seq<Metrics>, i: nat)
    requires i <= |readings|
    ensures var before, after := Accumulated(readings[..i]), Accumulated(readings);
      && (forall e: Level1 :: before.Of(e) <= after.Of(e))
      && (forall c: Level2 :: before.Of2(c) <= after.Of2(c))
      && before.all <= after.all
  {
    if i == |readings| {
      assert readings[..i] == readings;
    } else {
      AccumulatorsNeverDecrease(readings[..|readings| - 1], i);
      assert readings[..|readings| - 1][..i] == readings[..i];
    }
  }

  /** What a caller sees is another matter: between two reads a delivered level-1
      value stays or grows exactly if the later read had metrics, or the earlier
      one delivered 0 already. */
  lemma DeliveredNeverDecreasesExactlyWhen(readings: seq<Metrics>, i: nat, e: Level1)
    requires 0 < i < |readings|
    ensures Delivered(readings[..i]).Of(e) <= Delivered(readings).Of(e)
       <==> readings[|readings| - 1].raw.Total() != 0 || Delivered(readings[..i]).Of(e) == 0
  {
    AccumulatorsNeverDecrease(readings, i);
  }

  lemma AllRetiring(slots: nat)
    ensures Shares(NO_SLOTS.(retiring := 1), slots) == NO_SLOTS.(retiring := slots, all := slots)
  {
    NoShareOfNothing(1, slots);
    assert Share(1, 1, slots) == slots;
  }

  lemma AccumulatedOfOne(m: Metrics)
    ensures Accumulated([m]) == Add(NO_SLOTS, Shares(m.raw, m.slots))
  {
    assert [m][..0] == [];
  }

  /** Two reads after which a delivered value has gone back to 0: some slots, all
      retiring, then a read whose metrics are all zero. */
  lemma DeliveredCanDecrease(slots: nat)
    requires slots > 0
    ensures var first, second := Metrics(NO_SLOTS.(retiring := 1), slots), Metrics(NO_SLOTS, slots);
      Delivered([first, second]).Of(Retiring) < Delivered([first, second][..1]).Of(Retiring)
  {
    var first, second := Metrics(NO_SLOTS.(retiring := 1), slots), Metrics(NO_SLOTS, slots);
    AllRetiring(slots);
    AccumulatedOfOne(first);
    GoesBackTo0(first, second, Retiring);
  }

  lemma GoesBackTo0(first: Metrics, second: Metrics, e: Level1)
    requires Delivered([first]).Of(e) > 0 && second.raw.Total() == 0
    ensures Delivered([first, second]).Of(e) < Delivered([first, second][..1]).Of(e)
  {
    assert [first, second][..1] == [first];
    DeliveredNeverDecreasesExactlyWhen([first, second], 1, e);
  }

  // ----------------------------------------------------------- the derived ratios

  /** getAllSlots */
  function AllSlots(before: Slots, after: Slots): int {
    after.Total() - before.Total()
  }

  /** getRetiring, getBadSpeculation, getFrontendBound and getBackendBound */
  function Ratio(before: Slots, after: Slots, e: Level1): real
    requires AllSlots(before, after) != 0
  {
    (after.Of(e) - before.Of(e)) as real / AllSlots(before, after) as real
  }

  /** getHeavyOperationsBound, getBranchMispredictionBound, getFetchLatencyBound and
      getMemoryBound, where level 2 is supported */
  function Ratio2(before: Slots, after: Slots, c: Level2): real
    requires AllSlots(before, after) != 0
  {
    (after.Of2(c) - before.Of2(c)) as real / AllSlots(before, after) as real
  }

  /** getLightOperationsBound, getMachineClearsBound, getFetchBandwidthBound and
      getCoreBound: the rest of the parent category */
  function RestOfParent(before: Slots, after: Slots, c: Level2): real
    requires AllSlots(before, after) != 0
  {
    Ratio(before, after, Parent(c)) - Ratio2(before, after, c)
  }

  /** The getters by the members they are computed from. */
  lemma RatiosByName(b: Slots, a: Slots)
    requires a.retiring + a.badSpeculation + a.frontendBound + a.backendBound
             > b.retiring + b.badSpeculation + b.frontendBound + b.backendBound
    ensures var all := (a.retiring + a.badSpeculation + a.frontendBound + a.backendBound
                        - b.retiring - b.badSpeculation - b.frontendBound - b.backendBound) as real;
      && AllSlots(b, a) as real == all
      && Ratio(b, a, Retiring) == (a.retiring - b.retiring) as real / all
      && Ratio(b, a, BadSpeculation) == (a.badSpeculation - b.badSpeculation) as real / all
      && Ratio(b, a, FrontendBound) == (a.frontendBound - b.frontendBound) as real / all
      && Ratio(b, a, BackendBound) == (a.backendBound - b.backendBound) as real / all
      && Ratio2(b, a, HeavyOps) == (a.heavyOps - b.heavyOps) as real / all
      && Ratio2(b, a, BrMispred) == (a.brMispred - b.brMispred) as real / all
      && Ratio2(b, a, FetchLat) == (a.fetchLat - b.fetchLat) as real / all
      && Ratio2(b, a, MemBound) == (a.memBound - b.memBound) as real / all
  {
  }

  /** Light operations, machine clears, fetch bandwidth and core bound. */
  lemma RestsByName(b: Slots, a: Slots)
    requires AllSlots(b, a) > 0
    ensures RestOfParent(b, a, HeavyOps) == Ratio(b, a, Retiring) - Ratio2(b, a, HeavyOps)
    ensures RestOfParent(b, a, BrMispred) == Ratio(b, a, BadSpeculation) - Ratio2(b, a, BrMispred)
    ensures RestOfParent(b, a, FetchLat) == Ratio(b, a, FrontendBound) - Ratio2(b, a, FetchLat)
    ensures RestOfParent(b, a, MemBound) == Ratio(b, a, BackendBound) - Ratio2(b, a, MemBound)
  {
  }

  lemma QuotientsAdd(a: int, b: int, c: int, d: int, t: int)
    requires t > 0
    ensures a as real / t as real + b as real / t as real + c as real / t as real + d as real / t as real
         == (a + b + c + d) as real / t as real
  {
  }

  lemma QuotientKeepsOrder(a: int, b: int, t: int)
    requires t > 0 && a <= b
    ensures a as real / t as real <= b as real / t as real
  {
  }

  lemma PartsOfTheWhole(child: int, parent: int, all: int)
    requires 0 <= child <= parent <= all && all > 0
    ensures 0.0 <= child as real / all as real <= parent as real / all as real <= 1.0
  {
    QuotientKeepsOrder(parent, all, all);
    QuotientKeepsOrder(child, parent, all);
    QuotientKeepsOrder(0, child, all);
  }

  lemma Level1RatiosAddUp(before: Slots, after: Slots)
    requires AllSlots(before, after) > 0
    ensures Ratio(before, after, Retiring) + Ratio(before, after, BadSpeculation)
            + Ratio(before, after, FrontendBound) + Ratio(before, after, BackendBound) == 1.0
  {
    var a, b := after.retiring - before.retiring, after.badSpeculation - before.badSpeculation;
    var c, d := after.frontendBound - before.frontendBound, after.backendBound - before.backendBound;
    var all := AllSlots(before, after);
    QuotientsAdd(a, b, c, d, all);
    assert a + b + c + d == 1 * all;
    WholeQuotient(1, all);
  }

  lemma Level2RatioIsPart(before: Slots, after: Slots, c: Level2)
    requires Grows(before, after) && AllSlots(before, after) > 0
    ensures 0.0 <= Ratio2(before, after, c) <= Ratio(before, after, Parent(c)) <= 1.0
  {
    PartOfAll(before, after, Parent(c));
    PartsOfTheWhole(after.Of2(c) - before.Of2(c), after.Of(Parent(c)) - before.Of(Parent(c)), AllSlots(before, after));
  }

  /** The four level-1 ratios split the whole, and every level-2 ratio and every
      rest lies between 0 and its parent. */
  lemma RatiosPartition(before: Slots, after: Slots, c: Level2)
    requires Grows(before, after) && AllSlots(before, after) > 0
    ensures Ratio(before, after, Retiring) + Ratio(before, after, BadSpeculation)
            + Ratio(before, after, FrontendBound) + Ratio(before, after, BackendBound) == 1.0
    ensures 0.0 <= Ratio2(before, after, c) <= Ratio(before, after, Parent(c)) <= 1.0
    ensures 0.0 <= RestOfParent(before, after, c) <= Ratio(before, after, Parent(c))
  {
    Level1RatiosAddUp(before, after);
    Level2RatioIsPart(before, after, c);
  }

  lemma PartOfAll(before: Slots, after: Slots, e: Level1)
    requires forall x: Level1 :: before.Of(x) <= after.Of(x)
    ensures after.Of(e) - before.Of(e) <= AllSlots(before, after)
  {
    assert before.Of(Retiring) <= after.Of(Retiring) && before.Of(BadSpeculation) <= after.Of(BadSpeculation);
    assert before.Of(FrontendBound) <= after.Of(FrontendBound) && before.Of(BackendBound) <= after.Of(BackendBound);
  }

  // --------------------------------------------------------- what intervals show

  lemma {:induction false} AccumulatedIsNested(readings: seq<Metrics>)
    requires AllNested(readings)
    ensures Nested(Accumulated(readings))
  {
    if readings != [] {
      var last := readings[|readings| - 1];
      AccumulatedIsNested(readings[..|readings| - 1]);
      SharesAreNested(last.raw, last.slots);
    }
  }

  /** With consistent metrics, an all-zero read hands over nothing but AllSlotsRaw. */
  lemma DeliveredWhenConsistent(readings: seq<Metrics>)
    requires readings != [] && AllNested(readings)
    ensures var acc, delivered := Accumulated(readings), Delivered(readings);
      && Nested(acc)
      && delivered == Visible(acc, readings[|readings| - 1].raw.Total() != 0)
  {
    AccumulatedIsNested(readings);
    assert Nested(readings[|readings| - 1].raw);
  }

  lemma GrowsFromNothing(all: nat, after: Slots)
    requires Nested(after) && all <= after.all
    ensures Grows(NO_SLOTS.(all := all), after)
  {
  }

  lemma GrowsToNothing(before: Slots, all: nat)
    requires Nested(before) && before.all <= all
    ensures Grows(before, NO_SLOTS.(all := all)) <==> before.Total() == 0
  {
    if Grows(before, NO_SLOTS.(all := all)) {
      assert before.Of(Retiring) <= 0 && before.Of(BadSpeculation) <= 0;
      assert before.Of(FrontendBound) <= 0 && before.Of(BackendBound) <= 0;
    }
  }

  function Visible(acc: Slots, metrics: bool): Slots {
    if metrics then acc else NO_SLOTS.(all := acc.all)
  }

  lemma HandedGrows(acc: Slots, acc': Slots, metrics: bool, metrics': bool)
    requires Nested(acc) && Nested(acc') && Grows(acc, acc')
    ensures Grows(Visible(acc, metrics), Visible(acc', metrics')) <==> metrics' || Visible(acc, metrics).Total() == 0
  {
    if !metrics' {
      GrowsToNothing(Visible(acc, metrics), acc'.all);
    } else if !metrics {
      GrowsFromNothing(acc.all, acc');
    }
  }

  lemma AccumulatorsGrowFrom(front: seq<Metrics>, readings: seq<Metrics>)
    requires front <= readings && AllNested(readings)
    ensures AllNested(front)
    ensures Grows(Accumulated(front), Accumulated(readings))
  {
    forall k | 0 <= k < |front|
      ensures Nested(front[k].raw)
    {
      assert front[k] == readings[k];
    }
    assert readings[..|front|] == front;
    AccumulatorsGrow(readings, |front|);
  }

  /** With consistent metrics the states delivered by two reads, at the end of `front`
      and of the whole run, delimit an interval in which nothing shrinks and no part
      outgrows its whole, if and only if the later read had metrics or the earlier one
      delivered no slots. */
  lemma IntervalGrowsExactlyWhen(front: seq<Metrics>, readings: seq<Metrics>)
    requires front != [] && front <= readings && AllNested(readings)
    ensures Grows(Delivered(front), Delivered(readings))
       <==> readings[|readings| - 1].raw.Total() != 0 || Delivered(front).Total() == 0
  {
    AccumulatorsGrowFrom(front, readings);
    DeliveredWhenConsistent(front);
    DeliveredWhenConsistent(readings);
    HandedGrows(Accumulated(front), Accumulated(readings),
                front[|front| - 1].raw.Total() != 0, readings[|readings| - 1].raw.Total() != 0);
  }

  /** So whenever an interval has slots at all, whatever its first read found,
      core-bound, fetch-bandwidth, machine-clear and light-operation values lie
      between 0 and their category. */
  lemma IntervalRatiosAreNonNegative(front: seq<Metrics>, readings: seq<Metrics>, c: Level2)
    requires front != [] && front <= readings && AllNested(readings)
    ensures var before, after := Delivered(front), Delivered(readings);
      AllSlots(before, after) > 0 ==>
        && Grows(before, after)
        && 0.0 <= RestOfParent(before, after, c) <= Ratio(before, after, Parent(c)) <= 1.0
  {
    var before, after := Delivered(front), Delivered(readings);
    IntervalGrowsExactlyWhen(front, readings);
    if AllSlots(before, after) > 0 {
      RatiosPartition(before, after, c);
    }
  }

  // ------------------------------------------------------- sockets and the system

  /** What one core contributes to two snapshots. */
  datatype Interval = Interval(before: Slots, after: Slots)

  /** Reads `front` of a core, then some more, with consistent metrics, deliver these
      values; `had` and `has` say whether the last read of each found metrics. */
  ghost predicate Delivers(front: seq<Metrics>, readings: seq<Metrics>, core: Interval, had: bool, has: bool) {
    && front != [] && front <= readings && AllNested(readings)
    && core.before == Delivered(front) && core.after == Delivered(readings)
    && had == (front[|front| - 1].raw.Total() != 0) && has == (readings[|readings| - 1].raw.Total() != 0)
  }

  ghost predicate MayDeliver(core: Interval, had: bool, has: bool) {
    exists front, readings :: Delivers(front, readings, core, had, has)
  }

  lemma WhatACoreDelivers(core: Interval, had: bool, has: bool)
    requires MayDeliver(core, had, has)
    ensures (had ==> has) ==> Grows(core.before, core.after)
    ensures !has ==> core.after.Total() == 0
  {
    var front, readings :| Delivers(front, readings, core, had, has);
    IntervalGrowsExactlyWhen(front, readings);
    AccumulatorsGrowFrom(front, readings);
    DeliveredWhenConsistent(front);
    DeliveredWhenConsistent(readings);
  }

  /** The state of a socket or the system at the first snapshot: the values of its
      cores, added up. */
  function Before(cores: seq<Interval>): Slots {
    if cores == [] then NO_SLOTS else Add(Before(cores[..|cores| - 1]), cores[|cores| - 1].before)
  }

  /** And at the second. */
  function After(cores: seq<Interval>): Slots {
    if cores == [] then NO_SLOTS else Add(After(cores[..|cores| - 1]), cores[|cores| - 1].after)
  }

  lemma OneMoreCore(cores: seq<Interval>, last: Interval)
    ensures Before(cores + [last]) == Add(Before(cores), last.before)
    ensures After(cores + [last]) == Add(After(cores), last.after)
  {
    assert (cores + [last])[..|cores|] == cores;
  }

  lemma AddAssociates(a: Slots, b: Slots, c: Slots)
    ensures Add(Add(a, b), c) == Add(a, Add(b, c))
  {
  }

  /** Adding the states of two sockets gives that of all their cores. */
  lemma {:induction false} StatesAppend(p: seq<Interval>, q: seq<Interval>)
    ensures Before(p + q) == Add(Before(p), Before(q)) && After(p + q) == Add(After(p), After(q))
  {
    if q == [] {
      assert p + q == p;
    } else {
      var front, last := q[..|q| - 1], q[|q| - 1];
      assert q == front + [last] && p + q == (p + front) + [last];
      StatesAppend(p, front);
      OneMoreAppends(p, front, last);
    }
  }

  lemma OneMoreAppends(p: seq<Interval>, front: seq<Interval>, last: Interval)
    requires Before(p + front) == Add(Before(p), Before(front)) && After(p + front) == Add(After(p), After(front))
    ensures Before((p + front) + [last]) == Add(Before(p), Before(front + [last]))
    ensures After((p + front) + [last]) == Add(After(p), After(front + [last]))
  {
    OneMoreCore(front, last);
    OneMoreCore(p + front, last);
    AddAssociates(Before(p), Before(front), last.before);
    AddAssociates(After(p), After(front), last.after);
  }

  /** Which of the cores found metrics at the first and at the second snapshot. */
  ghost predicate HaveMetrics(cores: seq<Interval>, had: seq<bool>, has: seq<bool>) {
    && |cores| == |had| == |has|
    && forall k :: 0 <= k < |cores| ==> MayDeliver(cores[k], had[k], has[k])
  }

  /** No core that found metrics at the first snapshot finds none at the second. */
  predicate NoneFallsSilent(had: seq<bool>, has: seq<bool>)
    requires |had| == |has|
  {
    forall k :: 0 <= k < |had| ==> had[k] ==> has[k]
  }

  predicate AllSilent(has: seq<bool>) {
    forall k :: 0 <= k < |has| ==> !has[k]
  }

  lemma {:induction false} StatesGrow(cores: seq<Interval>)
    requires forall k :: 0 <= k < |cores| ==> Grows(cores[k].before, cores[k].after)
    ensures Grows(Before(cores), After(cores))
  {
    if cores != [] {
      var n := |cores| - 1;
      StatesGrow(cores[..n]);
      GrowsAdds(Before(cores[..n]), After(cores[..n]), cores[n].before, cores[n].after);
    }
  }

  lemma NoneSilentGrows(cores: seq<Interval>, had: seq<bool>, has: seq<bool>)
    requires HaveMetrics(cores, had, has) && NoneFallsSilent(had, has)
    ensures Grows(Before(cores), After(cores))
  {
    forall k | 0 <= k < |cores|
      ensures Grows(cores[k].before, cores[k].after)
    {
      WhatACoreDelivers(cores[k], had[k], has[k]);
    }
    StatesGrow(cores);
  }

  lemma {:induction false} NothingAddsUp(cores: seq<Interval>)
    requires forall k :: 0 <= k < |cores| ==> cores[k].after.Total() == 0
    ensures After(cores).Total() == 0
  {
    if cores != [] {
      NothingAddsUp(cores[..|cores| - 1]);
    }
  }

  lemma AllSilentShowNothing(cores: seq<Interval>, had: seq<bool>, has: seq<bool>)
    requires HaveMetrics(cores, had, has) && AllSilent(has)
    ensures After(cores).Total() == 0
  {
    forall k | 0 <= k < |cores|
      ensures cores[k].after.Total() == 0
    {
      WhatACoreDelivers(cores[k], had[k], has[k]);
    }
    NothingAddsUp(cores);
  }

  /** Slots of one category only. */
  predicate OnlyRetiring(a: Slots, n: nat) {
    a == NO_SLOTS.(retiring := n, all := a.all)
  }

  predicate OnlyBackendBound(a: Slots, n: nat) {
    a == NO_SLOTS.(backendBound := n, all := a.all)
  }

  lemma RetiringAdds(a: Slots, m: nat, b: Slots, n: nat)
    requires OnlyRetiring(a, m) && OnlyRetiring(b, n)
    ensures OnlyRetiring(Add(a, b), m + n)
  {
  }

  lemma BackendBoundAdds(a: Slots, m: nat, b: Slots, n: nat)
    requires OnlyBackendBound(a, m) && OnlyBackendBound(b, n)
    ensures OnlyBackendBound(Add(a, b), m + n)
  {
  }

  /** The metrics are consistent, and found or not. */
  predicate IsRead(m: Metrics, metrics: bool) {
    Nested(m.raw) && metrics == (m.raw.Total() != 0)
  }

  /** A read that finds `s` slots retiring, if it finds metrics. */
  function First(had: bool, s: nat): Metrics {
    Metrics(if had then NO_SLOTS.(retiring := 1) else NO_SLOTS, s)
  }

  /** A read that finds `t` slots bound by the back-end, if it finds metrics. */
  function Second(has: bool, t: nat): Metrics {
    Metrics(if has then NO_SLOTS.(backendBound := 1) else NO_SLOTS, t)
  }

  lemma FirstIsRead(had: bool, s: nat)
    ensures IsRead(First(had, s), had)
    ensures OnlyRetiring(Shares(First(had, s).raw, First(had, s).slots), if had then s else 0)
  {
    if had {
      AllRetiring(s);
    }
  }

  lemma SecondIsRead(has: bool, t: nat)
    ensures IsRead(Second(has, t), has)
    ensures OnlyBackendBound(Shares(Second(has, t).raw, Second(has, t).slots), if has then t else 0)
  {
    if has {
      NoShareOfNothing(1, t);
      assert Share(1, 1, t) == t;
    }
  }

  lemma AddingToNothing(a: Slots)
    ensures Add(NO_SLOTS, a) == a
  {
  }

  lemma DeliveredOfTwo(m: Metrics, m': Metrics)
    ensures Delivered([m]) == Handed(Shares(m.raw, m.slots), m.raw)
    ensures Delivered([m, m']) == Handed(Add(Shares(m.raw, m.slots), Shares(m'.raw, m'.slots)), m'.raw)
  {
    AccumulatedOfOne(m);
    AddingToNothing(Shares(m.raw, m.slots));
    assert [m, m'][..1] == [m];
  }

  lemma RunOfTwo(m: Metrics, m': Metrics, core: Interval, had: bool, has: bool)
    requires IsRead(m, had) && IsRead(m', has)
    requires core.before == Delivered([m]) && core.after == Delivered([m, m'])
    ensures MayDeliver(core, had, has)
  {
    assert [m, m'][..1] == [m];
    assert Delivers([m], [m, m'], core, had, has);
  }

  lemma HandedRetiring(acc: Slots, m: Metrics, had: bool, r: nat)
    requires IsRead(m, had) && OnlyRetiring(acc, r) && (had || r == 0)
    ensures OnlyRetiring(Handed(acc, m.raw), r)
  {
  }

  lemma HandedBackendBound(x: Slots, y: Slots, m: Metrics, has: bool, r: nat, b: nat)
    requires IsRead(m, has) && OnlyRetiring(x, r) && OnlyBackendBound(y, b) && (if has then r == 0 else b == 0)
    ensures OnlyBackendBound(Handed(Add(x, y), m.raw), b)
  {
  }

  lemma CoreOfTwo(m: Metrics, m': Metrics, had: bool, has: bool, r: nat, b: nat) returns (core: Interval)
    requires IsRead(m, had) && IsRead(m', has)
    requires OnlyRetiring(Shares(m.raw, m.slots), r) && OnlyBackendBound(Shares(m'.raw, m'.slots), b)
    requires (had || r == 0) && (if has then r == 0 else b == 0)
    ensures MayDeliver(core, had, has) && OnlyRetiring(core.before, r) && OnlyBackendBound(core.after, b)
  {
    core := Interval(Delivered([m]), Delivered([m, m']));
    RunOfTwo(m, m', core, had, has);
    DeliveredOfTwo(m, m');
    HandedRetiring(Shares(m.raw, m.slots), m, had, r);
    HandedBackendBound(Shares(m.raw, m.slots), Shares(m'.raw, m'.slots), m', has, r, b);
  }

  lemma SilentCore(s: nat, t: nat) returns (core: Interval)
    ensures MayDeliver(core, false, false)
    ensures OnlyRetiring(core.before, 0) && OnlyBackendBound(core.after, 0)
  {
    FirstIsRead(false, s);
    SecondIsRead(false, t);
    core := CoreOfTwo(First(false, s), Second(false, t), false, false, 0, 0);
  }

  lemma CoreStartingUp(s: nat, t: nat) returns (core: Interval)
    ensures MayDeliver(core, false, true)
    ensures OnlyRetiring(core.before, 0) && OnlyBackendBound(core.after, t)
  {
    FirstIsRead(false, s);
    SecondIsRead(true, t);
    core := CoreOfTwo(First(false, s), Second(true, t), false, true, 0, t);
  }

  lemma CoreFallingSilent(s: nat, t: nat) returns (core: Interval)
    ensures MayDeliver(core, true, false)
    ensures OnlyRetiring(core.before, s) && OnlyBackendBound(core.after, 0)
  {
    FirstIsRead(true, s);
    SecondIsRead(false, t);
    core := CoreOfTwo(First(true, s), Second(false, t), true, false, s, 0);
  }

  lemma CoreGoingOn(t: nat) returns (core: Interval)
    ensures MayDeliver(core, true, true)
    ensures OnlyRetiring(core.before, 0) && OnlyBackendBound(core.after, t)
  {
    FirstIsRead(true, 0);
    SecondIsRead(true, t);
    core := CoreOfTwo(First(true, 0), Second(true, t), true, true, 0, t);
  }

  /** Some core has retired `s` slots, if it finds metrics, and then waits for the
      back-end in `t` more, if it finds metrics. */
  lemma SomeCore(had: bool, has: bool, s: nat, t: nat) returns (core: Interval)
    requires had && has ==> s == 0
    ensures MayDeliver(core, had, has)
    ensures OnlyRetiring(core.before, if had then s else 0) && OnlyBackendBound(core.after, if has then t else 0)
  {
    if had {
      if has {
        core := CoreGoingOn(t);
      } else {
        core := CoreFallingSilent(s, t);
      }
    } else if has {
      core := CoreStartingUp(s, t);
    } else {
      core := SilentCore(s, t);
    }
  }

  lemma OneMoreHasMetrics(cores: seq<Interval>, had: seq<bool>, has: seq<bool>, core: Interval, h: bool, h': bool)
    requires HaveMetrics(cores, had, has) && MayDeliver(core, h, h')
    ensures HaveMetrics(cores + [core], had + [h], has + [h'])
  {
  }

  lemma OneMoreAddsUp(cores: seq<Interval>, core: Interval, r: nat, b: nat, r': nat, b': nat)
    requires OnlyRetiring(Before(cores), r) && OnlyBackendBound(After(cores), b)
    requires OnlyRetiring(core.before, r') && OnlyBackendBound(core.after, b')
    ensures OnlyRetiring(Before(cores + [core]), r + r') && OnlyBackendBound(After(cores + [core]), b + b')
  {
    OneMoreCore(cores, core);
    RetiringAdds(Before(cores), r, core.before, r');
    BackendBoundAdds(After(cores), b, core.after, b');
  }

  /** One that contributes a slot if it is core `i`, which falls silent, and three more
      if it is core `j` and finds metrics. */
  lemma SomeCoreAt(had: seq<bool>, has: seq<bool>, i: nat, j: nat, k: nat) returns (core: Interval)
    requires k < |had| == |has| && i < |had| && had[i] && !has[i]
    ensures MayDeliver(core, had[k], has[k])
    ensures OnlyRetiring(core.before, if k == i then 1 else 0)
    ensures OnlyBackendBound(core.after, if k == j && has[j] then 3 else 0)
  {
    core := SomeCore(had[k], has[k], if k == i then 1 else 0, if k == j then 3 else 0);
  }

  lemma MetricsOfPrefix(cores: seq<Interval>, had: seq<bool>, has: seq<bool>, core: Interval)
    requires |cores| < |had| == |has| && MayDeliver(core, had[|cores|], has[|cores|])
    requires HaveMetrics(cores, had[..|cores|], has[..|cores|])
    ensures HaveMetrics(cores + [core], had[..|cores| + 1], has[..|cores| + 1])
  {
    var n := |cores|;
    OneMoreHasMetrics(cores, had[..n], has[..n], core, had[n], has[n]);
    assert had[..n + 1] == had[..n] + [had[n]] && has[..n + 1] == has[..n] + [has[n]];
  }

  /** If core `i` falls silent the sum loses the slot it had, whatever core `j` adds; the
      other cores do nothing. */
  lemma {:induction false} SomeCores(had: seq<bool>, has: seq<bool>, i: nat, j: nat, n: nat)
    returns (cores: seq<Interval>)
    requires n <= |had| == |has| && i < |had| && had[i] && !has[i]
    ensures |cores| == n && HaveMetrics(cores, had[..n], has[..n])
    ensures OnlyRetiring(Before(cores), if i < n then 1 else 0)
    ensures OnlyBackendBound(After(cores), if j < n && has[j] then 3 else 0)
  {
    if n == 0 {
      cores := [];
    } else {
      var front := SomeCores(had, has, i, j, n - 1);
      var last := SomeCoreAt(had, has, i, j, n - 1);
      MetricsOfPrefix(front, had, has, last);
      OneMoreAddsUp(front, last, if i < n - 1 then 1 else 0, if j < n - 1 && has[j] then 3 else 0,
                    if n - 1 == i then 1 else 0, if n - 1 == j && has[j] then 3 else 0);
      cores := front + [last];
    }
  }

  /** Core `i` falls silent while core `j`, if there is one, goes on. */
  lemma Counterexample(had: seq<bool>, has: seq<bool>, i: nat, j: nat) returns (cores: seq<Interval>)
    requires i < |had| == |has| && had[i] && !has[i]
    ensures HaveMetrics(cores, had, has)
    ensures OnlyRetiring(Before(cores), 1)
    ensures OnlyBackendBound(After(cores), if j < |has| && has[j] then 3 else 0)
  {
    cores := SomeCores(had, has, i, j, |had|);
    assert had[..|had|] == had && has[..|had|] == has;
  }

  /** Given which cores found metrics, the state of a socket or the system grows from one
      snapshot to the next, no part by more than its whole and whatever the reads found,
      if and only if no core falls silent. */
  lemma StatesGrowExactlyWhen(had: seq<bool>, has: seq<bool>)
    requires |had| == |has|
    ensures NoneFallsSilent(had, has) <==>
      forall cores :: HaveMetrics(cores, had, has) ==> Grows(Before(cores), After(cores))
  {
    if NoneFallsSilent(had, has) {
      forall cores | HaveMetrics(cores, had, has)
        ensures Grows(Before(cores), After(cores))
      {
        NoneSilentGrows(cores, had, has);
      }
    } else {
      var i :| 0 <= i < |had| && had[i] && !has[i];
      var cores := Counterexample(had, has, i, |had|);
      assert !(Before(cores).Of(Retiring) <= After(cores).Of(Retiring));
    }
  }

  /** The level-2 values and the rests lie between 0 and their category. */
  ghost predicate RatiosInRange(before: Slots, after: Slots) {
    AllSlots(before, after) > 0 ==>
      forall c: Level2 ::
        && 0.0 <= Ratio2(before, after, c) <= Ratio(before, after, Parent(c)) <= 1.0
        && 0.0 <= RestOfParent(before, after, c) <= Ratio(before, after, Parent(c))
  }

  lemma GrowthKeepsRange(before: Slots, after: Slots)
    requires Grows(before, after)
    ensures RatiosInRange(before, after)
  {
    if AllSlots(before, after) > 0 {
      forall c: Level2
        ensures 0.0 <= Ratio2(before, after, c) <= Ratio(before, after, Parent(c)) <= 1.0
        ensures 0.0 <= RestOfParent(before, after, c) <= Ratio(before, after, Parent(c))
      {
        RatiosPartition(before, after, c);
      }
    }
  }

  lemma LosingASlot(before: Slots, after: Slots)
    requires OnlyRetiring(before, 1) && OnlyBackendBound(after, 3)
    ensures !RatiosInRange(before, after)
  {
    LosingSlots(before, after, 1, 3);
  }

  lemma RatiosStayInRange(cores: seq<Interval>, had: seq<bool>, has: seq<bool>)
    requires HaveMetrics(cores, had, has) && (NoneFallsSilent(had, has) || AllSilent(has))
    ensures RatiosInRange(Before(cores), After(cores))
  {
    if NoneFallsSilent(had, has) {
      NoneSilentGrows(cores, had, has);
      GrowthKeepsRange(Before(cores), After(cores));
    } else {
      AllSilentShowNothing(cores, had, has);
    }
  }

  /** And the ratios of an interval that has slots are in range, whatever the reads
      found, if and only if no core falls silent, or all are silent at the second
      snapshot, so that there are no slots. */
  lemma StateRatiosInRangeExactlyWhen(had: seq<bool>, has: seq<bool>)
    requires |had| == |has|
    ensures NoneFallsSilent(had, has) || AllSilent(has) <==>
      forall cores :: HaveMetrics(cores, had, has) ==> RatiosInRange(Before(cores), After(cores))
  {
    if NoneFallsSilent(had, has) || AllSilent(has) {
      forall cores | HaveMetrics(cores, had, has)
        ensures RatiosInRange(Before(cores), After(cores))
      {
        RatiosStayInRange(cores, had, has);
      }
    } else {
      var i :| 0 <= i < |had| && had[i] && !has[i];
      var j :| 0 <= j < |has| && has[j];
      var cores := Counterexample(had, has, i, j);
      LosingASlot(Before(cores), After(cores));
    }
  }

  /** Two cores, of which one waits for the back-end in `t` slots while the other has
      retired fewer, `s`, and then finds no metrics: the socket shows `t - s` slots, of
      which a negative number are light operations. */
  lemma LightOperationsCanBeNegative(s: nat, t: nat) returns (cores: seq<Interval>)
    requires 0 < s < t
    ensures HaveMetrics(cores, [true, true], [true, false])
    ensures AllSlots(Before(cores), After(cores)) == t - s
    ensures RestOfParent(Before(cores), After(cores), HeavyOps) == -(s as real) / (t - s) as real < 0.0
  {
    var a := SomeCore(true, true, 0, t);
    var b := SomeCore(true, false, s, 0);
    cores := [a, b];
    StatesOfTwo(a, b);
    RetiringAdds(a.before, 0, b.before, s);
    BackendBoundAdds(a.after, t, b.after, 0);
    LosingSlots(Before(cores), After(cores), s, t);
  }

  lemma StatesOfTwo(a: Interval, b: Interval)
    ensures Before([a, b]) == Add(a.before, b.before) && After([a, b]) == Add(a.after, b.after)
  {
    AddingToNothing(a.before);
    AddingToNothing(a.after);
    OneMoreCore([], a);
    OneMoreCore([a], b);
    assert [] + [a] == [a] && [a] + [b] == [a, b];
  }

  lemma LosingSlots(before: Slots, after: Slots, s: nat, t: nat)
    requires 0 < s < t && OnlyRetiring(before, s) && OnlyBackendBound(after, t)
    ensures AllSlots(before, after) == t - s
    ensures RestOfParent(before, after, HeavyOps) == -(s as real) / (t - s) as real < 0.0
  {
  }
}
