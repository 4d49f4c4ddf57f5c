/** Uncore PMU units numbered flat over the dies of a socket:
    PCM::readUncoreCounterValues, getUncoreCounter, getMaxNumOfUncorePMUs and
    getUncoreCounterState. */
module UncoreUnits {
  import opened Sets
  import opened Words

  const MAX_COUNTERS := 8

  /** One entry of a vector of PMUs: a null pointer, or a PMU with the present
      values of its counter registers. */
  datatype Unit = Absent | Pmu(values: seq<u64>)

  /** `uncorePMUs[socket]`: per die, the PMUs of each PMU id. */
  type Dies = seq<map<int, seq<Unit>>>

  /** CounterArrayType: always `maxCounters` values, zero to begin with. */
  type CounterArray = a: seq<u64> | |a| == MAX_COUNTERS witness [0, 0, 0, 0, 0, 0, 0, 0]

  /** `Counters` of a counter state: per die and PMU id, one array per unit. */
  type Counters = seq<map<int, seq<CounterArray>>>

  const ZEROS: CounterArray := [0, 0, 0, 0, 0, 0, 0, 0]

  ghost predicate ValidDies(dies: Dies) {
    forall d, id, u :: 0 <= d < |dies| && id in dies[d] && 0 <= u < |dies[d][id]| && dies[d][id][u].Pmu? ==>
      |dies[d][id][u].values| <= MAX_COUNTERS
  }

  // --------------------------------------------------------------------- reading

  /** What a read finds in one unit: its counters, then zeros. */
  function ArrayOf(unit: Unit): CounterArray
    requires unit.Pmu? ==> |unit.values| <= MAX_COUNTERS
  {
    seq(MAX_COUNTERS, i requires 0 <= i < MAX_COUNTERS => if unit.Pmu? && i < |unit.values| then unit.values[i] else 0)
  }

  /** The counters of a read agree, place by place, with the registers. */
  ghost predicate Reads(units: seq<Unit>, arrays: seq<CounterArray>) {
    && |arrays| == |units|
    && forall u :: 0 <= u < |units| && (units[u].Pmu? ==> |units[u].values| <= MAX_COUNTERS) ==>
      arrays[u] == ArrayOf(units[u])
  }

  ghost predicate ReadsDie(die: map<int, seq<Unit>>, counters: map<int, seq<CounterArray>>) {
    counters.Keys == die.Keys && forall id :: id in die ==> Reads(die[id], counters[id])
  }

  ghost predicate ReadsAll(dies: Dies, counters: Counters) {
    |counters| == |dies| && forall d :: 0 <= d < |dies| ==> ReadsDie(dies[d], counters[d])
  }

  method ReadUnit(unit: Unit) returns (data: CounterArray)
    requires unit.Pmu? ==> |unit.values| <= MAX_COUNTERS
    ensures data == ArrayOf(unit)
  {
    data := ZEROS;
    var i := 0;
    while unit.Pmu? && i < |unit.values|
      invariant unit.Pmu? ==> i <= |unit.values|
      invariant unit.Absent? ==> i == 0
      invariant forall k :: 0 <= k < MAX_COUNTERS ==> data[k] == if k < i then ArrayOf(unit)[k] else 0
    {
      data := data[i := unit.values[i]];
      i := i + 1;
    }
  }

  method ReadUncoreCounterValues(uncorePMUs: seq<Dies>, socket: nat) returns (counters: Counters)
    requires forall s :: 0 <= s < |uncorePMUs| ==> ValidDies(uncorePMUs[s])
    ensures socket < |uncorePMUs| ==> ReadsAll(uncorePMUs[socket], counters)
    ensures socket >= |uncorePMUs| ==> counters == []
  {
    counters := [];
    if socket >= |uncorePMUs| {
      return;
    }
    var dies := uncorePMUs[socket];
    for die := 0 to |dies|
      invariant |counters| == die
      invariant forall d :: 0 <= d < die ==> ReadsDie(dies[d], counters[d])
    {
      var read := ReadDie(dies[die]);
      counters := counters + [read];
    }
  }

  method ReadDie(die: map<int, seq<Unit>>) returns (read: map<int, seq<CounterArray>>)
    requires forall id, u :: id in die && 0 <= u < |die[id]| && die[id][u].Pmu? ==> |die[id][u].values| <= MAX_COUNTERS
    ensures ReadsDie(die, read)
  {
    read := map[];
    var rest := die.Keys;
    while rest != {}
      invariant rest <= die.Keys && read.Keys == die.Keys - rest
      invariant forall id :: id in read ==> Reads(die[id], read[id])
      decreases |rest|
    {
      ghost var some := Member(rest);
      var id: int :| id in rest;
      var arrays: seq<CounterArray> := [];
      for unit := 0 to |die[id]|
        invariant |arrays| == unit && forall u :: 0 <= u < unit ==> arrays[u] == ArrayOf(die[id][u])
      {
        var data := ReadUnit(die[id][unit]);
        arrays := arrays + [data];
      }
      read := read[id := arrays];
      rest := rest - {id};
    }
  }

  // --------------------------------------------------------------- flat numbering

  /** The units of one PMU id, die by die. */
  function Flat<T>(dies: seq<map<int, seq<T>>>, id: int): seq<T> {
    if dies == [] then [] else UnitsOf(dies[0], id) + Flat(dies[1..], id)
  }

  function UnitsOf<T>(die: map<int, seq<T>>, id: int): seq<T> {
    if id in die then die[id] else []
  }

  /** How many units the first `d` dies have. */
  function Offset<T>(dies: seq<map<int, seq<T>>>, id: int, d: nat): nat
    requires d <= |dies|
  {
    if d == 0 then 0 else Offset(dies, id, d - 1) + if id in dies[d - 1] then |dies[d - 1][id]| else 0
  }

  lemma {:induction false} OffsetOfRest<T>(dies: seq<map<int, seq<T>>>, id: int, d: nat)
    requires 0 < d <= |dies|
    ensures Offset(dies, id, d) == |UnitsOf(dies[0], id)| + Offset(dies[1..], id, d - 1)
  {
    if d > 1 {
      OffsetOfRest(dies, id, d - 1);
    }
  }

  /** Unit `u` of die `d` comes after the units of all dies before it. */
  lemma {:induction false} FlatIsDieByDie<T>(dies: seq<map<int, seq<T>>>, id: int, d: nat, u: nat)
    requires d < |dies| && id in dies[d] && u < |dies[d][id]|
    ensures Offset(dies, id, d) + u < |Flat(dies, id)| == Offset(dies, id, |dies|)
    ensures Flat(dies, id)[Offset(dies, id, d) + u] == dies[d][id][u]
  {
    OffsetOfRest(dies, id, |dies|);
    FlatLength(dies[1..], id);
    if d > 0 {
      OffsetOfRest(dies, id, d);
      FlatIsDieByDie(dies[1..], id, d - 1, u);
    }
  }

  lemma {:induction false} FlatLength<T>(dies: seq<map<int, seq<T>>>, id: int)
    ensures |Flat(dies, id)| == Offset(dies, id, |dies|)
  {
    if dies != [] {
      FlatLength(dies[1..], id);
      OffsetOfRest(dies, id, |dies|);
    }
  }

  method GetMaxNumOfUncorePMUs(uncorePMUs: seq<Dies>, id: int, socket: nat) returns (count: nat)
    ensures count == if socket < |uncorePMUs| then |Flat(uncorePMUs[socket], id)| else 0
  {
    count := 0;
    if socket < |uncorePMUs| {
      var s := uncorePMUs[socket];
      for d := 0 to |s|
        invariant count + |Flat(s[d..], id)| == |Flat(s, id)|
      {
        assert s[d..][1..] == s[d + 1..];
        if id in s[d] {
          count := count + |s[d][id]|;
        }
      }
    }
  }

  ghost predicate SameDieShape(before: map<int, seq<CounterArray>>, after: map<int, seq<CounterArray>>) {
    before.Keys == after.Keys && forall id :: id in before ==> |before[id]| == |after[id]|
  }

  /** The two states come from reads of the same PMUs. */
  ghost predicate SameShape(before: Counters, after: Counters) {
    |before| == |after| && forall d :: 0 <= d < |before| ==> SameDieShape(before[d], after[d])
  }

  /** What getUncoreCounter asserts: a `before` die for every `after` die, and equal
      numbers of units where both have the PMU id. */
  ghost predicate Comparable(before: Counters, after: Counters, id: int) {
    && |after| <= |before|
    && forall d :: 0 <= d < |after| ==> ComparableDie(before[d], after[d], id)
  }

  predicate ComparableDie(before: map<int, seq<CounterArray>>, after: map<int, seq<CounterArray>>, id: int) {
    id in before && id in after ==> |before[id]| == |after[id]|
  }

  datatype Pair = Pair(before: CounterArray, after: CounterArray)

  /** The units that have counters in both states, die by die. */
  function Pairs(before: Counters, after: Counters, id: int): seq<Pair>
    requires Comparable(before, after, id)
  {
    if after == [] then []
    else
      assert ComparableDie(before[0], after[0], id);
      PairsOf(before[0], after[0], id) + Pairs(before[1..], after[1..], id)
  }

  function PairsOf(before: map<int, seq<CounterArray>>, after: map<int, seq<CounterArray>>, id: int): (pairs: seq<Pair>)
    requires ComparableDie(before, after, id)
    ensures |pairs| == if id in before && id in after then |after[id]| else 0
  {
    if id in before && id in after then
      seq(|after[id]|, u requires 0 <= u < |after[id]| => Pair(before[id][u], after[id][u]))
    else []
  }

  /** The change of one counter of a unit, by its flat number. */
  function UnitDelta(before: Counters, after: Counters, id: int, unit: nat, counter: nat): u64
    requires Comparable(before, after, id)
  {
    var pairs := Pairs(before, after, id);
    if unit < |pairs| && counter < MAX_COUNTERS then Minus(pairs[unit].after[counter], pairs[unit].before[counter])
    else 0
  }

  lemma UnitDeltaByDie(before: Counters, after: Counters, id: int, unit: nat, counter: nat)
    requires Comparable(before, after, id) && after != [] && counter < MAX_COUNTERS
    ensures ComparableDie(before[0], after[0], id) && Comparable(before[1..], after[1..], id)
    ensures var here := PairsOf(before[0], after[0], id);
      UnitDelta(before, after, id, unit, counter)
      == if unit < |here| then Minus(here[unit].after[counter], here[unit].before[counter])
         else UnitDelta(before[1..], after[1..], id, unit - |here|, counter)
  {
    assert ComparableDie(before[0], after[0], id);
    forall d | 0 <= d < |after| - 1
      ensures ComparableDie(before[1..][d], after[1..][d], id)
    {
      assert ComparableDie(before[d + 1], after[d + 1], id);
    }
  }

  /** Counting the unit number down die by die indexes the concatenation of the
      dies' vectors; past its end, or past the last counter, the result is 0. */
  method GetUncoreCounter(id: int, unit: nat, counter: nat, before: Counters, after: Counters) returns (result: u64)
    requires Comparable(before, after, id)
    ensures result == UnitDelta(before, after, id, unit, counter)
  {
    var u: nat := unit;
    var die := 0;
    while counter < MAX_COUNTERS && die < |after|
      invariant die <= |after| && Comparable(before[die..], after[die..], id)
      invariant UnitDelta(before, after, id, unit, counter) == UnitDelta(before[die..], after[die..], id, u, counter)
    {
      UnitDeltaByDie(before[die..], after[die..], id, u, counter);
      assert before[die..][1..] == before[die + 1..] && after[die..][1..] == after[die + 1..];
      if id in after[die] && id in before[die] {
        if u < |after[die][id]| {
          return Minus(after[die][id][u][counter], before[die][id][u][counter]);
        }
        u := u - |after[die][id]|;
      }
      die := die + 1;
    }
    return 0;
  }

  /** For two reads of the same PMUs the pairs are the two concatenations, unit by
      unit. */
  lemma {:induction false} SameShapePairs(before: Counters, after: Counters, id: int)
    requires SameShape(before, after)
    ensures Comparable(before, after, id)
    ensures |Pairs(before, after, id)| == |Flat(before, id)| == |Flat(after, id)|
    ensures forall u :: 0 <= u < |Pairs(before, after, id)| ==>
      Pairs(before, after, id)[u] == Pair(Flat(before, id)[u], Flat(after, id)[u])
  {
    assert forall d :: 0 <= d < |after| ==> SameDieShape(before[d], after[d]);
    if after != [] {
      SameShapePairs(before[1..], after[1..], id);
    }
  }

  /** Past the last unit and past the last counter the change is 0. */
  lemma NoSuchUnit(before: Counters, after: Counters, id: int, unit: nat, counter: nat)
    requires SameShape(before, after) && (unit >= |Flat(after, id)| || counter >= 8)
    ensures Comparable(before, after, id) && UnitDelta(before, after, id, unit, counter) == 0
  {
    SameShapePairs(before, after, id);
  }

  // -------------------------------------------------------- the sum over the units

  function CounterOf(unit: Unit, counter: nat): u64
    requires unit.Pmu? ==> counter < |unit.values|
  {
    if unit.Pmu? then unit.values[counter] else 0
  }

  /** Every PMU of this id in the list has the counter; its registers are indexed
      without a check. */
  ghost predicate HaveCounter(units: seq<Unit>, counter: nat) {
    forall u :: 0 <= u < |units| && units[u].Pmu? ==> counter < |units[u].values| <= MAX_COUNTERS
  }

  function RegisterSum(units: seq<Unit>, counter: nat): u64
    requires HaveCounter(units, counter)
  {
    if units == [] then 0 else Plus(RegisterSum(units[..|units| - 1], counter), CounterOf(units[|units| - 1], counter))
  }

  lemma {:induction false} RegisterSumAppends(a: seq<Unit>, b: seq<Unit>, counter: nat)
    requires HaveCounter(a, counter) && HaveCounter(b, counter)
    ensures HaveCounter(a + b, counter)
    ensures RegisterSum(a + b, counter) == Plus(RegisterSum(a, counter), RegisterSum(b, counter))
  {
    if b == [] {
      assert a + b == a;
    } else {
      var front, last := b[..|b| - 1], b[|b| - 1];
      RegisterSumAppends(a, front, counter);
      assert (a + b)[..|a + b| - 1] == a + front;
      PlusAssociates(RegisterSum(a, counter), RegisterSum(front, counter), CounterOf(last, counter));
    }
  }

  method GetUncoreCounterState(uncorePMUs: seq<Dies>, id: int, socket: nat, counter: nat) returns (result: u64)
    requires socket < |uncorePMUs| && counter < MAX_COUNTERS ==> HaveCounter(Flat(uncorePMUs[socket], id), counter)
    ensures result == if socket < |uncorePMUs| && counter < MAX_COUNTERS
                      then RegisterSum(Flat(uncorePMUs[socket], id), counter) else 0
  {
    result := 0;
    if socket < |uncorePMUs| && counter < MAX_COUNTERS {
      var dies := uncorePMUs[socket];
      for die := 0 to |dies|
        invariant HaveCounter(Flat(dies[die..], id), counter)
        invariant Plus(result, RegisterSum(Flat(dies[die..], id), counter)) == RegisterSum(Flat(dies, id), counter)
      {
        assert dies[die..][1..] == dies[die + 1..];
        DieSumSplits(dies[die..], id, counter);
        var here := RegisterSumOfDie(UnitsOf(dies[die], id), counter);
        PlusAssociates(result, here, RegisterSum(Flat(dies[die + 1..], id), counter));
        result := Plus(result, here);
      }
    }
  }

  lemma HaveCounterSplits(a: seq<Unit>, b: seq<Unit>, counter: nat)
    requires HaveCounter(a + b, counter)
    ensures HaveCounter(a, counter) && HaveCounter(b, counter)
  {
    forall u | 0 <= u < |a| && a[u].Pmu?
      ensures counter < |a[u].values| <= MAX_COUNTERS
    {
      assert (a + b)[u] == a[u];
    }
    forall u | 0 <= u < |b| && b[u].Pmu?
      ensures counter < |b[u].values| <= MAX_COUNTERS
    {
      assert (a + b)[|a| + u] == b[u];
    }
  }

  lemma DieSumSplits(dies: Dies, id: int, counter: nat)
    requires dies != [] && HaveCounter(Flat(dies, id), counter)
    ensures HaveCounter(UnitsOf(dies[0], id), counter) && HaveCounter(Flat(dies[1..], id), counter)
    ensures RegisterSum(Flat(dies, id), counter)
         == Plus(RegisterSum(UnitsOf(dies[0], id), counter), RegisterSum(Flat(dies[1..], id), counter))
  {
    var here, rest := UnitsOf(dies[0], id), Flat(dies[1..], id);
    HaveCounterSplits(here, rest, counter);
    RegisterSumAppends(here, rest, counter);
  }

  method RegisterSumOfDie(units: seq<Unit>, counter: nat) returns (sum: u64)
    requires HaveCounter(units, counter)
    ensures sum == RegisterSum(units, counter)
  {
    sum := 0;
    for u := 0 to |units|
      invariant sum == RegisterSum(units[..u], counter)
    {
      assert units[..u + 1][..u] == units[..u];
      if units[u].Pmu? {
        sum := Plus(sum, units[u].values[counter]);
      }
    }
    assert units[..|units|] == units;
  }

  /** A read state holds, flat unit by flat unit, what the registers held. */
  lemma {:induction false} ReadIsFlat(dies: Dies, counters: Counters, id: int, unit: nat, counter: nat)
    requires ReadsAll(dies, counters) && counter < MAX_COUNTERS && HaveCounter(Flat(dies, id), counter)
    ensures |Flat(counters, id)| == |Flat(dies, id)|
    ensures unit < |Flat(dies, id)| ==> Flat(counters, id)[unit][counter] == CounterOf(Flat(dies, id)[unit], counter)
  {
    if dies != [] {
      DieSumSplits(dies, id, counter);
      assert ReadsDie(dies[0], counters[0]);
      var here := UnitsOf(dies[0], id);
      if unit < |here| {
        ReadIsFlat(dies[1..], counters[1..], id, unit, counter);
        assert Reads(dies[0][id], counters[0][id]);
      } else {
        ReadIsFlat(dies[1..], counters[1..], id, unit - |here|, counter);
      }
    }
  }

  /** The deltas of the first `n` flat units, added with wrap-around. */
  function DeltaSum(before: Counters, after: Counters, id: int, counter: nat, n: nat): u64
    requires Comparable(before, after, id)
  {
    if n == 0 then 0
    else Plus(DeltaSum(before, after, id, counter, n - 1), UnitDelta(before, after, id, n - 1, counter))
  }

  lemma DifferencesAdd(a: u64, b: u64, x: u64, y: u64)
    ensures Plus(Minus(a, b), Minus(x, y)) == Minus(Plus(a, x), Plus(b, y))
  {
  }

  lemma UnitDeltaIsChange(dies: Dies, dies': Dies, before: Counters, after: Counters, id: int, counter: nat, u: nat)
    requires ReadsAll(dies, before) && ReadsAll(dies', after) && counter < MAX_COUNTERS
    requires HaveCounter(Flat(dies, id), counter) && HaveCounter(Flat(dies', id), counter)
    requires SameShape(before, after) && u < |Flat(after, id)|
    ensures Comparable(before, after, id) && u < |Flat(dies, id)| && u < |Flat(dies', id)|
    ensures UnitDelta(before, after, id, u, counter)
         == Minus(CounterOf(Flat(dies', id)[u], counter), CounterOf(Flat(dies, id)[u], counter))
  {
    SameShapePairs(before, after, id);
    ReadIsFlat(dies, before, id, u, counter);
    ReadIsFlat(dies', after, id, u, counter);
  }

  lemma SumOfPrefix(units: seq<Unit>, counter: nat, n: nat)
    requires 0 < n <= |units| && HaveCounter(units, counter)
    ensures RegisterSum(units[..n], counter)
         == Plus(RegisterSum(units[..n - 1], counter), CounterOf(units[n - 1], counter))
  {
    assert units[..n][..n - 1] == units[..n - 1];
  }

  lemma OneMoreUnit(xs: seq<Unit>, ys: seq<Unit>, counter: nat, n: nat)
    requires 0 < n <= |xs| && n <= |ys| && HaveCounter(xs, counter) && HaveCounter(ys, counter)
    ensures Plus(Minus(RegisterSum(ys[..n - 1], counter), RegisterSum(xs[..n - 1], counter)),
                 Minus(CounterOf(ys[n - 1], counter), CounterOf(xs[n - 1], counter)))
         == Minus(RegisterSum(ys[..n], counter), RegisterSum(xs[..n], counter))
  {
    SumOfPrefix(xs, counter, n);
    SumOfPrefix(ys, counter, n);
    DifferencesAdd(RegisterSum(ys[..n - 1], counter), RegisterSum(xs[..n - 1], counter),
                   CounterOf(ys[n - 1], counter), CounterOf(xs[n - 1], counter));
  }

  /** If each unit delta is the change of that unit, their sum is the change of the sum. */
  lemma {:induction false} DeltaSumIsChange(before: Counters, after: Counters, id: int, counter: nat,
                                            xs: seq<Unit>, ys: seq<Unit>, n: nat)
    requires Comparable(before, after, id) && HaveCounter(xs, counter) && HaveCounter(ys, counter)
    requires n <= |xs| == |ys| && counter < MAX_COUNTERS
    requires forall u :: 0 <= u < n ==>
      UnitDelta(before, after, id, u, counter) == Minus(CounterOf(ys[u], counter), CounterOf(xs[u], counter))
    ensures DeltaSum(before, after, id, counter, n)
         == Minus(RegisterSum(ys[..n], counter), RegisterSum(xs[..n], counter))
  {
    if n > 0 {
      DeltaSumIsChange(before, after, id, counter, xs, ys, n - 1);
      OneMoreUnit(xs, ys, counter, n);
    }
  }

  /** Adding getUncoreCounter over all units up to getMaxNumOfUncorePMUs gives the
      change of getUncoreCounterState, modulo 2^64, for any number of dies and
      units, null pointers included. `dies` and `dies'` are the same PMUs at the two
      reads. */
  lemma UnitsAddUpToTheSocket(dies: Dies, dies': Dies, before: Counters, after: Counters, id: int, counter: nat)
    requires ReadsAll(dies, before) && ReadsAll(dies', after) && SameShape(before, after) && counter < MAX_COUNTERS
    requires HaveCounter(Flat(dies, id), counter) && HaveCounter(Flat(dies', id), counter)
    ensures Comparable(before, after, id)
    ensures DeltaSum(before, after, id, counter, |Flat(dies', id)|)
         == Minus(RegisterSum(Flat(dies', id), counter), RegisterSum(Flat(dies, id), counter))
  {
    SameShapePairs(before, after, id);
    ReadIsFlat(dies, before, id, 0, counter);
    ReadIsFlat(dies', after, id, 0, counter);
    var xs, ys := Flat(dies, id), Flat(dies', id);
    forall u | 0 <= u < |ys|
      ensures UnitDelta(before, after, id, u, counter) == Minus(CounterOf(ys[u], counter), CounterOf(xs[u], counter))
    {
      UnitDeltaIsChange(dies, dies', before, after, id, counter, u);
    }
    DeltaSumIsChange(before, after, id, counter, xs, ys, |ys|);
    assert ys[..|ys|] == ys && xs[..|xs|] == xs;
  }
}
