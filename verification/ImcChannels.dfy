/** The memory channels of a socket and their distribution over the controllers:
    ServerUncorePMUs::initDirect, getImcReads and getImcReadsForController. */
module ImcChannels {
  import opened Words

  // ---------------------------------------------------------------------- reading

  /** The reads counted on the channels from `begin` up to `end`, those past the last
      PMU left out. */
  function RangeSum(channelReads: seq<u64>, begin: nat, end: nat): u64 {
    if end <= begin then 0
    else Plus(RangeSum(channelReads, begin, end - 1), if end - 1 < |channelReads| then channelReads[end - 1] else 0)
  }

  /** The first channel of controller `c`. */
  function Start(numImcChannels: seq<nat>, c: nat): nat
    requires c <= |numImcChannels|
  {
    if c == 0 then 0 else Start(numImcChannels, c - 1) + numImcChannels[c - 1]
  }

  method GetImcReadsForChannels(channelReads: seq<u64>, begin: nat, end: nat) returns (result: u64)
    ensures result == RangeSum(channelReads, begin, end)
  {
    result := 0;
    var i := begin;
    while i < end && i < |channelReads|
      invariant begin <= i && (if begin <= end then i <= end else i == begin)
      invariant result == RangeSum(channelReads, begin, i)
    {
      result := Plus(result, channelReads[i]);
      i := i + 1;
    }
    NothingPastTheLast(channelReads, begin, i, end);
  }

  lemma {:induction false} NothingPastTheLast(channelReads: seq<u64>, begin: nat, i: nat, end: nat)
    requires i >= end || i >= |channelReads|
    requires begin <= i && (if begin <= end then i <= end else i == begin)
    ensures RangeSum(channelReads, begin, end) == RangeSum(channelReads, begin, i)
    decreases end
  {
    if i < end {
      NothingPastTheLast(channelReads, begin, i, end - 1);
    }
  }

  method GetImcReads(channelReads: seq<u64>) returns (result: u64)
    ensures result == Sum(channelReads)
  {
    result := GetImcReadsForChannels(channelReads, 0, |channelReads|);
    RangeSumIsSum(channelReads, |channelReads|);
    assert channelReads[..|channelReads|] == channelReads;
  }

  lemma {:induction false} RangeSumIsSum(channelReads: seq<u64>, n: nat)
    requires n <= |channelReads|
    ensures RangeSum(channelReads, 0, n) == Sum(channelReads[..n])
  {
    if n > 0 {
      RangeSumIsSum(channelReads, n - 1);
      assert channelReads[..n][..n - 1] == channelReads[..n - 1];
    }
  }

  method GetImcReadsForController(channelReads: seq<u64>, numImcChannels: seq<nat>, controller: nat)
    returns (result: u64)
    requires controller < |numImcChannels|
    ensures result == RangeSum(channelReads, Start(numImcChannels, controller), Start(numImcChannels, controller + 1))
  {
    var beginChannel := 0;
    for i := 0 to controller
      invariant beginChannel == Start(numImcChannels, i)
    {
      beginChannel := beginChannel + numImcChannels[i];
    }
    var endChannel := beginChannel + numImcChannels[controller];
    result := GetImcReadsForChannels(channelReads, beginChannel, endChannel);
  }

  // ------------------------------------------------------------- they partition

  /** The reads of the first `n` controllers, added up. */
  function PerController(channelReads: seq<u64>, numImcChannels: seq<nat>, n: nat): u64
    requires n <= |numImcChannels|
  {
    if n == 0 then 0
    else
      Plus(PerController(channelReads, numImcChannels, n - 1),
           RangeSum(channelReads, Start(numImcChannels, n - 1), Start(numImcChannels, n)))
  }

  lemma {:induction false} RangesJoin(channelReads: seq<u64>, a: nat, b: nat, c: nat)
    requires a <= b <= c
    ensures RangeSum(channelReads, a, c) == Plus(RangeSum(channelReads, a, b), RangeSum(channelReads, b, c))
    decreases c
  {
    if b < c {
      RangesJoin(channelReads, a, b, c - 1);
      PlusAssociates(RangeSum(channelReads, a, b), RangeSum(channelReads, b, c - 1),
                     if c - 1 < |channelReads| then channelReads[c - 1] else 0);
    }
  }

  /** Together the controllers cover the channels below their total count, each once. */
  lemma {:induction false} ControllersCoverAPrefix(channelReads: seq<u64>, numImcChannels: seq<nat>, n: nat)
    requires n <= |numImcChannels|
    ensures PerController(channelReads, numImcChannels, n) == RangeSum(channelReads, 0, Start(numImcChannels, n))
  {
    if n > 0 {
      ControllersCoverAPrefix(channelReads, numImcChannels, n - 1);
      RangesJoin(channelReads, 0, Start(numImcChannels, n - 1), Start(numImcChannels, n));
    }
  }

  function Channels(numImcChannels: seq<nat>): nat {
    Start(numImcChannels, |numImcChannels|)
  }

  ghost predicate Partitions(channelReads: seq<u64>, numImcChannels: seq<nat>) {
    PerController(channelReads, numImcChannels, |numImcChannels|) == Sum(channelReads)
  }

  function OnlyLast(n: nat): (channelReads: seq<u64>)
    requires n > 0
    ensures |channelReads| == n
  {
    seq(n, i => if i == n - 1 then 1 else 0)
  }

  lemma {:induction false} ZerosBefore(n: nat, k: nat)
    requires k < n
    ensures RangeSum(OnlyLast(n), 0, k) == 0
  {
    if k > 0 {
      ZerosBefore(n, k - 1);
    }
  }

  /** The per-controller reads add up to all reads, modulo 2^64 and whatever the
      counters read, exactly if the channel counts add up to at least the number of
      PMUs. */
  lemma PartitionsExactlyWhen(pmus: nat, numImcChannels: seq<nat>)
    ensures Channels(numImcChannels) >= pmus <==>
      forall channelReads: seq<u64> :: |channelReads| == pmus ==> Partitions(channelReads, numImcChannels)
  {
    if Channels(numImcChannels) >= pmus {
      forall channelReads: seq<u64> | |channelReads| == pmus
        ensures Partitions(channelReads, numImcChannels)
      {
        ControllersCoverAPrefix(channelReads, numImcChannels, |numImcChannels|);
        NothingPastTheLast(channelReads, 0, pmus, Channels(numImcChannels));
        RangeSumIsSum(channelReads, pmus);
        assert channelReads[..pmus] == channelReads;
      }
    } else {
      var counterexample := OnlyLast(pmus);
      ControllersCoverAPrefix(counterexample, numImcChannels, |numImcChannels|);
      ZerosBefore(pmus, Channels(numImcChannels));
      ZerosBefore(pmus, pmus - 1);
      RangeSumIsSum(counterexample, pmus);
      assert counterexample[..pmus] == counterexample;
      assert !Partitions(counterexample, numImcChannels);
    }
  }

  // ------------------------------------------------------------------- discovery

  lemma {:induction false} StartOfPrefix(numImcChannels: seq<nat>, more: nat, c: nat)
    requires c <= |numImcChannels|
    ensures Start(numImcChannels + [more], c) == Start(numImcChannels, c)
  {
    if c > 0 {
      StartOfPrefix(numImcChannels, more, c - 1);
    }
  }

  /** How many entries are true. */
  function Working(channels: seq<bool>): nat {
    if channels == [] then 0
    else Working(channels[..|channels| - 1]) + if channels[|channels| - 1] then 1 else 0
  }

  function AllWorking(found: seq<seq<bool>>): nat {
    if found == [] then 0 else AllWorking(found[..|found| - 1]) + Working(found[|found| - 1])
  }

  /** The working channels of each controller, those without any left out. */
  function PerWorkingController(found: seq<seq<bool>>): seq<nat> {
    if found == [] then []
    else
      var channels := Working(found[|found| - 1]);
      PerWorkingController(found[..|found| - 1]) + if channels > 0 then [channels] else []
  }

  /** As a set: which entries are true. */
  lemma {:induction false} WorkingIsTheNumber(channels: seq<bool>)
    ensures Working(channels) == |set i | 0 <= i < |channels| && channels[i]|
  {
    if channels != [] {
      var n := |channels| - 1;
      var front := set i | 0 <= i < n && channels[..n][i];
      WorkingIsTheNumber(channels[..n]);
      assert (set i | 0 <= i < |channels| && channels[i]) == front + if channels[n] then {n} else {};
    }
  }

  class ServerUncorePMUs {
    /** How many PMUs there are in imcPMUs. */
    var imcPMUs: nat
    var numImcChannels: seq<nat>

    constructor ()
      ensures imcPMUs == 0 && numImcChannels == []
    {
      imcPMUs, numImcChannels := 0, [];
    }

    /** The scan of the PCI functions of each controller; a controller without any
        working channel is not counted. */
    method ScanPci(found: seq<seq<bool>>)
      requires imcPMUs == 0 && numImcChannels == []
      modifies this
      ensures imcPMUs == AllWorking(found) && numImcChannels == PerWorkingController(found)
      ensures Channels(numImcChannels) == imcPMUs
      ensures forall c :: 0 <= c < |numImcChannels| ==> numImcChannels[c] > 0
    {
      var handles, lastWorkingChannels := 0, 0;
      for ctrl := 0 to |found|
        invariant lastWorkingChannels == handles == Channels(numImcChannels)
        invariant handles == AllWorking(found[..ctrl]) && numImcChannels == PerWorkingController(found[..ctrl])
        invariant forall c :: 0 <= c < |numImcChannels| ==> numImcChannels[c] > 0
      {
        for channel := 0 to |found[ctrl]|
          invariant handles == lastWorkingChannels + Working(found[ctrl][..channel])
        {
          assert found[ctrl][..channel + 1][..channel] == found[ctrl][..channel];
          if found[ctrl][channel] {
            handles := handles + 1;
          }
        }
        assert found[ctrl][..|found[ctrl]|] == found[ctrl] && found[..ctrl + 1][..ctrl] == found[..ctrl];
        if handles > lastWorkingChannels {
          StartOfPrefix(numImcChannels, handles - lastWorkingChannels, |numImcChannels|);
          numImcChannels := numImcChannels + [handles - lastWorkingChannels];
        }
        lastWorkingChannels := handles;
      }
      assert found[..|found|] == found;
      imcPMUs := handles;
    }

    /** The memory BARs, each with the same number of channels. */
    method AddMemBars(memBars: nat, numChannels: nat)
      requires Channels(numImcChannels) == imcPMUs
      modifies this
      ensures Channels(numImcChannels) == imcPMUs == old(imcPMUs) + memBars * numChannels
      ensures numImcChannels == old(numImcChannels) + seq(memBars, _ => numChannels)
    {
      for bar := 0 to memBars
        invariant numImcChannels == old(numImcChannels) + seq(bar, _ => numChannels)
        invariant Channels(numImcChannels) == imcPMUs == old(imcPMUs) + bar * numChannels
      {
        for channel := 0 to numChannels
          invariant imcPMUs == old(imcPMUs) + bar * numChannels + channel
          invariant Channels(numImcChannels) == old(imcPMUs) + bar * numChannels
          invariant numImcChannels == old(numImcChannels) + seq(bar, _ => numChannels)
        {
          imcPMUs := imcPMUs + 1;
        }
        StartOfPrefix(numImcChannels, numChannels, |numImcChannels|);
        numImcChannels := numImcChannels + [numChannels];
        assert (bar + 1) * numChannels == bar * numChannels + numChannels;
      }
    }

    /** The boxes of the uncore PMU discovery: every working one is a channel, and the
        controllers are taken to have two channels each, the last one rounded up. */
    method AddDiscovered(working: seq<bool>)
      requires Channels(numImcChannels) == imcPMUs
      modifies this
      ensures imcPMUs == old(imcPMUs) + Working(working)
      ensures numImcChannels == old(numImcChannels) + seq((imcPMUs + 1) / 2, _ => 2)
      ensures Channels(numImcChannels) >= imcPMUs
      ensures old(imcPMUs) == 0 ==> Channels(numImcChannels) <= imcPMUs + 1
    {
      for pos := 0 to |working|
        invariant imcPMUs == old(imcPMUs) + Working(working[..pos]) && numImcChannels == old(numImcChannels)
      {
        assert working[..pos + 1][..pos] == working[..pos];
        if working[pos] {
          imcPMUs := imcPMUs + 1;
        }
      }
      assert working[..|working|] == working;
      var c := 0;
      while c < imcPMUs
        invariant imcPMUs == old(imcPMUs) + Working(working) && c <= imcPMUs + 1 && c % 2 == 0
        invariant Channels(numImcChannels) == old(imcPMUs) + c
        invariant numImcChannels == old(numImcChannels) + seq(c / 2, _ => 2)
        decreases imcPMUs + 1 - c
      {
        StartOfPrefix(numImcChannels, 2, |numImcChannels|);
        numImcChannels := numImcChannels + [2];
        c := c + 2;
      }
    }

    /** `discovery` says whether the processor model is one whose channels are taken
        from uncore PMU discovery. Whichever way the channels of a socket are found, the
        per-controller reads add up to all reads. */
    method InitDirect(found: seq<seq<bool>>, numChannels: nat, memBars: nat, discovery: bool, working: seq<bool>)
      requires imcPMUs == 0 && numImcChannels == []
      modifies this
      ensures imcPMUs == AllWorking(found) + if numChannels > 0 then memBars * numChannels
                                             else if discovery then Working(working) else 0
      ensures numImcChannels == PerWorkingController(found)
                                + if numChannels > 0 then seq(memBars, _ => numChannels)
                                  else if discovery then seq((imcPMUs + 1) / 2, _ => 2) else []
      ensures Channels(numImcChannels) >= imcPMUs
      ensures forall channelReads: seq<u64> :: |channelReads| == imcPMUs ==> Partitions(channelReads, numImcChannels)
    {
      ScanPci(found);
      if numChannels > 0 {
        AddMemBars(memBars, numChannels);
      } else if discovery {
        AddDiscovered(working);
      }
      PartitionsExactlyWhen(imcPMUs, numImcChannels);
    }

    /** The setup on top of Linux perf: as many controllers as there are m2m or ha units,
        each with an equal share of the imc units, rounded down. */
    method InitPerf(imcIDs: nat, m2mIDs: nat, haIDs: nat)
      requires imcPMUs == 0 && numImcChannels == []
      modifies this
      ensures imcPMUs == imcIDs && |numImcChannels| == if m2mIDs > haIDs then m2mIDs else haIDs
      ensures forall c :: 0 <= c < |numImcChannels| ==> numImcChannels[c] == imcIDs / |numImcChannels|
    {
      var numMemControllers := if m2mIDs > haIDs then m2mIDs else haIDs;
      for i := 0 to numMemControllers
        invariant imcPMUs == 0 && |numImcChannels| == i
        invariant forall c :: 0 <= c < i ==> numImcChannels[c] == imcIDs / numMemControllers
      {
        var channelsPerController := imcIDs / numMemControllers;
        numImcChannels := numImcChannels + [channelsPerController];
      }
      imcPMUs := imcIDs;
    }
  }

  lemma {:induction false} StartOfEqual(numImcChannels: seq<nat>, each: nat, c: nat)
    requires c <= |numImcChannels| && forall i :: 0 <= i < c ==> numImcChannels[i] == each
    ensures Start(numImcChannels, c) == c * each
  {
    if c > 0 {
      StartOfEqual(numImcChannels, each, c - 1);
    }
  }

  lemma DivisibleExactlyWhen(n: nat, m: nat)
    requires m > 0
    ensures m * (n / m) >= n <==> n % m == 0
  {
    assert n == m * (n / m) + n % m;
  }

  /** Then the per-controller reads add up to all reads, whatever the counters read, if
      and only if the controllers divide the channels evenly; without any controller, if
      and only if there are no channels. */
  lemma EqualSharesPartitionExactlyWhen(imcIDs: nat, numImcChannels: seq<nat>)
    requires forall c :: 0 <= c < |numImcChannels| ==> numImcChannels[c] == imcIDs / |numImcChannels|
    ensures (if numImcChannels == [] then imcIDs == 0 else imcIDs % |numImcChannels| == 0) <==>
      forall channelReads: seq<u64> :: |channelReads| == imcIDs ==> Partitions(channelReads, numImcChannels)
  {
    PartitionsExactlyWhen(imcIDs, numImcChannels);
    if numImcChannels != [] {
      StartOfEqual(numImcChannels, imcIDs / |numImcChannels|, |numImcChannels|);
      DivisibleExactlyWhen(imcIDs, |numImcChannels|);
    }
  }
}
