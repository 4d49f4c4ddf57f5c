/** How PCM::discoverSystemTopology cuts an APIC id into domain ids with the
    shifts of CPUID leaf 0x1F (Intel SDM Vol. 3A, section 8.9.1). */
module ApicId {
  import opened Bits

  type Shift = s: int | 0 <= s < 32

  /** One sub-leaf: domain type from ecx[15:8], shift from eax[4:0]. */
  datatype SubLeaf = SubLeaf(domainType: nat, shift: Shift)

  const INVALID_DOMAIN := 0
  const PACKAGE_DOMAIN := 0xffff

  type Position = p: int | 0 <= p <= 32

  datatype Domain = Domain(domainType: nat, levelShift: Position, nextLevelShift: Position)

  /** extract_bits_ui: the bits beg..end inclusive, in whichever order they are
      given, cut off at bit 31. */
  function ExtractBits(x: u32, beg: u32, end: u32): nat {
    var lo, hi := if beg <= end then beg else end, if beg <= end then end else beg;
    if lo > 31 then 0
    else x / Pow2(lo) % Pow2((if hi > 31 then 31 else hi) + 1 - lo)
  }

  /** For bits 0 to 31 it is the slice between them, whichever comes first; bits from 32 on
      are cut off. */
  lemma ExtractedSlice(x: u32, a: u32, b: u32)
    ensures ExtractBits(x, a, b) == ExtractBits(x, b, a)
    ensures a <= b <= 31 ==> ExtractBits(x, a, b) == x / Pow2(a) % Pow2(b + 1 - a)
    ensures a <= 31 < b ==> ExtractBits(x, a, b) == ExtractBits(x, a, 31)
    ensures a > 31 && b > 31 ==> ExtractBits(x, a, b) == 0
  {
  }

  // ------------------------------------------------------------ the domain list

  /** How many sub-leaves come before the first invalid one; past the end CPUID
      reports invalid domains. */
  function Valid(leaves: seq<SubLeaf>): (n: nat)
    ensures n <= |leaves|
    ensures n < |leaves| ==> leaves[n].domainType == INVALID_DOMAIN
    ensures forall k :: 0 <= k < n ==> leaves[k].domainType != INVALID_DOMAIN
  {
    if leaves == [] || leaves[0].domainType == INVALID_DOMAIN then 0 else 1 + Valid(leaves[1..])
  }

  function Reported(leaves: seq<SubLeaf>): seq<SubLeaf> {
    leaves[..Valid(leaves)]
  }

  /** Where domain `k` starts; the last one, the package, ends at bit 32. */
  function Level(reported: seq<SubLeaf>, k: nat): Position
    requires k <= |reported| + 1
  {
    if k == 0 then 0 else if k <= |reported| then reported[k - 1].shift else 32
  }

  function TypeOf(reported: seq<SubLeaf>, k: nat): nat
    requires k <= |reported|
  {
    if k < |reported| then reported[k].domainType else PACKAGE_DOMAIN
  }

  /** The reported domains, closed by the synthetic package domain. */
  function Chain(reported: seq<SubLeaf>): (domains: seq<Domain>)
    ensures |domains| == if reported == [] then 0 else |reported| + 1
    ensures forall k :: 0 <= k < |domains| ==>
      domains[k] == Domain(TypeOf(reported, k), Level(reported, k), Level(reported, k + 1))
  {
    if reported == [] then []
    else
      seq(|reported| + 1,
          k requires 0 <= k <= |reported| => Domain(TypeOf(reported, k), Level(reported, k), Level(reported, k + 1)))
  }

  /** The domains of the first sub-leaves, before the list is closed. */
  ghost predicate Opened(reported: seq<SubLeaf>, domains: seq<Domain>) {
    && |domains| <= |reported|
    && forall k :: 0 <= k < |domains| ==>
         domains[k] == Domain(TypeOf(reported, k), Level(reported, k), Level(reported, k + 1))
  }

  lemma OpenedGrows(reported: seq<SubLeaf>, domains: seq<Domain>, d: Domain)
    requires Opened(reported, domains) && |domains| < |reported|
    requires d == Domain(reported[|domains|].domainType,
                         if domains == [] then 0 else domains[|domains| - 1].nextLevelShift,
                         reported[|domains|].shift)
    ensures Opened(reported, domains + [d])
  {
  }

  method ReadDomains(leaves: seq<SubLeaf>) returns (domains: seq<Domain>)
    ensures domains == Chain(Reported(leaves))
  {
    domains := [];
    ghost var reported := Reported(leaves);
    var subleaf := 0;
    while subleaf < |leaves| && leaves[subleaf].domainType != INVALID_DOMAIN
      invariant subleaf == |domains| && Opened(reported, domains)
    {
      var levelShift := if domains == [] then 0 else domains[|domains| - 1].nextLevelShift;
      var d := Domain(leaves[subleaf].domainType, levelShift, leaves[subleaf].shift);
      OpenedGrows(reported, domains, d);
      domains := domains + [d];
      subleaf := subleaf + 1;
    }
    if |domains| > 0 {
      domains := domains + [Domain(PACKAGE_DOMAIN, domains[|domains| - 1].nextLevelShift, 32)];
    }
  }

  /** topologyDomainMap: a later domain of the same type replaces an earlier one. */
  function DomainMap(domains: seq<Domain>): map<nat, Domain> {
    if domains == [] then map[]
    else DomainMap(domains[..|domains| - 1])[domains[|domains| - 1].domainType := domains[|domains| - 1]]
  }

  method MapDomains(domains: seq<Domain>) returns (topologyDomainMap: map<nat, Domain>)
    ensures topologyDomainMap == DomainMap(domains)
  {
    topologyDomainMap := map[];
    for l := 0 to |domains|
      invariant topologyDomainMap == DomainMap(domains[..l])
    {
      assert domains[..l + 1][..l] == domains[..l];
      topologyDomainMap := topologyDomainMap[domains[l].domainType := domains[l]];
    }
    assert domains[..|domains|] == domains;
  }

  /** Of each type that is reported the map holds the last domain, and no other types. */
  lemma {:induction false} LastOfTypeWins(domains: seq<Domain>, k: nat)
    ensures forall t :: t in DomainMap(domains) <==> exists i :: 0 <= i < |domains| && domains[i].domainType == t
    ensures k < |domains| && (forall j :: k < j < |domains| ==> domains[j].domainType != domains[k].domainType) ==>
      domains[k].domainType in DomainMap(domains) && DomainMap(domains)[domains[k].domainType] == domains[k]
  {
    if domains != [] {
      var n := |domains| - 1;
      LastOfTypeWins(domains[..n], k);
      forall t
        ensures t in DomainMap(domains) <==> exists i :: 0 <= i < |domains| && domains[i].domainType == t
      {
        if t == domains[n].domainType {
          assert t in DomainMap(domains);
        } else if i :| 0 <= i < |domains| && domains[i].domainType == t {
          assert domains[..n][i].domainType == t;
        } else {
          assert forall i :: 0 <= i < n ==> domains[..n][i] == domains[i];
        }
      }
      if k < n {
        assert domains[n] == domains[|domains| - 1];
      }
    }
  }

  /** A domain that is not reported has id 0. */
  lemma MissingDomain(domains: seq<Domain>, apicId: u32, t: nat)
    requires forall i :: 0 <= i < |domains| ==> domains[i].domainType != t
    ensures GetID(DomainMap(domains), apicId, t) == 0
  {
    LastOfTypeWins(domains, 0);
  }

  ghost predicate Distinct(domains: seq<Domain>) {
    forall j, k :: 0 <= j < k < |domains| ==> domains[j].domainType != domains[k].domainType
  }

  lemma {:induction false} DomainOfType(domains: seq<Domain>, k: nat)
    requires Distinct(domains) && k < |domains|
    ensures domains[k].domainType in DomainMap(domains) && DomainMap(domains)[domains[k].domainType] == domains[k]
  {
    if k < |domains| - 1 {
      DomainOfType(domains[..|domains| - 1], k);
    }
  }

  /** getID, with the unsigned wrap-around of `nextLevelShift - 1`. */
  function GetID(topologyDomainMap: map<nat, Domain>, apicId: u32, t: nat): nat {
    if t !in topologyDomainMap then 0
    else
      var d := topologyDomainMap[t];
      ExtractBits(apicId, d.levelShift, if d.nextLevelShift == 0 then 0xffff_ffff else d.nextLevelShift - 1)
  }

  /** The id of `apicId` in domain `k`, looked up by the domain's type. */
  function DomainID(reported: seq<SubLeaf>, apicId: u32, k: nat): nat
    requires k < |Chain(reported)|
  {
    GetID(DomainMap(Chain(reported)), apicId, Chain(reported)[k].domainType)
  }

  /** The slice that domain `k` reads: its own, if its shifts increase. */
  lemma DomainIDIsSlice(reported: seq<SubLeaf>, apicId: u32, k: nat)
    requires Distinct(Chain(reported)) && k < |Chain(reported)|
    ensures var lo, next := Level(reported, k), Level(reported, k + 1);
      DomainID(reported, apicId, k)
      == if lo < next then apicId / Pow2(lo) % Pow2(next - lo)
         else ExtractBits(apicId, lo, if next == 0 then 0xffff_ffff else next - 1)
  {
    DomainOfType(Chain(reported), k);
  }

  // ------------------------------------------------- equal ids, equal processor

  lemma LowerBitsAgree(x: u32, y: u32, a: nat, b: nat)
    requires a <= b && x % Pow2(b) == y % Pow2(b)
    ensures x % Pow2(a) == y % Pow2(a)
  {
    LowBitsSplit(x, a, b);
    LowBitsSplit(y, a, b);
    DivModUnique(x % Pow2(b), Pow2(a), x / Pow2(a) % Pow2(b - a), x % Pow2(a));
    DivModUnique(y % Pow2(b), Pow2(a), y / Pow2(a) % Pow2(b - a), y % Pow2(a));
  }

  lemma SliceExtendsAgreement(x: u32, y: u32, lo: nat, covered: nat, next: nat)
    requires lo <= covered <= next && x % Pow2(covered) == y % Pow2(covered)
    requires x / Pow2(lo) % Pow2(next - lo) == y / Pow2(lo) % Pow2(next - lo)
    ensures x % Pow2(next) == y % Pow2(next)
  {
    LowerBitsAgree(x, y, lo, covered);
    LowBitsSplit(x, lo, next);
    LowBitsSplit(y, lo, next);
  }

  lemma SameIDSameSlice(reported: seq<SubLeaf>, x: u32, y: u32, k: nat)
    requires Distinct(Chain(reported)) && k < |Chain(reported)| && Level(reported, k) < Level(reported, k + 1)
    requires DomainID(reported, x, k) == DomainID(reported, y, k)
    ensures var lo, next := Level(reported, k), Level(reported, k + 1);
      x / Pow2(lo) % Pow2(next - lo) == y / Pow2(lo) % Pow2(next - lo)
  {
    DomainIDIsSlice(reported, x, k);
    DomainIDIsSlice(reported, y, k);
  }

  /** The highest shift among the first `n` domains: the bits below it are covered. */
  function Covered(reported: seq<SubLeaf>, n: nat): nat
    requires n <= |reported| + 1
  {
    if n == 0 then 0
    else
      var before, next := Covered(reported, n - 1), Level(reported, n);
      if before < next then next else before
  }

  lemma {:induction false} CoveredBitsAgree(reported: seq<SubLeaf>, x: u32, y: u32, n: nat)
    requires reported != [] && Distinct(Chain(reported)) && n <= |Chain(reported)|
    requires forall k :: 0 <= k < n ==> DomainID(reported, x, k) == DomainID(reported, y, k)
    ensures x % Pow2(Covered(reported, n)) == y % Pow2(Covered(reported, n))
    ensures Level(reported, n) <= Covered(reported, n)
  {
    if n > 0 {
      CoveredBitsAgree(reported, x, y, n - 1);
      var lo, next := Level(reported, n - 1), Level(reported, n);
      if Covered(reported, n - 1) < next {
        SameIDSameSlice(reported, x, y, n - 1);
        SliceExtendsAgreement(x, y, lo, Covered(reported, n - 1), next);
      }
    }
  }

  lemma {:induction false} CoveredIsAtMost32(reported: seq<SubLeaf>, n: nat)
    requires n <= |reported| + 1
    ensures Covered(reported, n) <= 32
  {
    if n > 0 {
      CoveredIsAtMost32(reported, n - 1);
    }
  }

  /** Equal ids in every domain mean the same logical processor. This holds for
      any shifts at all, increasing or not, because the walk from bit 0 to bit 32
      passes over every bit. */
  lemma SameIdsSameProcessor(reported: seq<SubLeaf>, x: u32, y: u32)
    requires reported != [] && Distinct(Chain(reported))
    requires forall k :: 0 <= k < |Chain(reported)| ==> DomainID(reported, x, k) == DomainID(reported, y, k)
    ensures x == y
  {
    CoveredBitsAgree(reported, x, y, |reported| + 1);
    CoveredIsAtMost32(reported, |reported| + 1);
    Pow2Of32();
  }

  // ------------------------------------------------------ rebuilding the APIC id

  /** What each domain id is worth when shifted back. */
  function Shares(reported: seq<SubLeaf>, apicId: u32): (shares: seq<int>)
    ensures |shares| == |Chain(reported)|
    ensures forall k :: 0 <= k < |shares| ==> shares[k] == Pow2(Level(reported, k)) * DomainID(reported, apicId, k)
  {
    seq(|Chain(reported)|,
        k requires 0 <= k < |Chain(reported)| => Pow2(Level(reported, k)) * DomainID(reported, apicId, k))
  }

  function SumOf(s: seq<int>): int {
    if s == [] then 0 else SumOf(s[..|s| - 1]) + s[|s| - 1]
  }

  /** The domain ids shifted back and added. */
  function Rebuilt(reported: seq<SubLeaf>, apicId: u32): int {
    SumOf(Shares(reported, apicId))
  }

  /** Shares that bridge at least the distances between the marks add up to at
      least the whole distance, and to no more exactly if none is larger. */
  lemma {:induction false} Telescope(shares: seq<int>, marks: seq<int>)
    requires |marks| == |shares| + 1
    requires forall k :: 0 <= k < |shares| ==> shares[k] >= marks[k + 1] - marks[k]
    ensures SumOf(shares) >= marks[|shares|] - marks[0]
    ensures SumOf(shares) == marks[|shares|] - marks[0]
       <==> forall k :: 0 <= k < |shares| ==> shares[k] == marks[k + 1] - marks[k]
  {
    if shares != [] {
      var n := |shares| - 1;
      Telescope(shares[..n], marks[..n + 1]);
      assert forall k :: 0 <= k < n ==> shares[..n][k] == shares[k];
    }
  }

  ghost predicate Increasing(reported: seq<SubLeaf>) {
    forall k :: 0 <= k <= |reported| ==> Level(reported, k) < Level(reported, k + 1)
  }

  /** Where the domains begin and end, seen through the low bits of an id. */
  function LowBits(reported: seq<SubLeaf>, apicId: u32): (marks: seq<int>)
    ensures |marks| == |reported| + 2
    ensures forall k :: 0 <= k < |marks| ==> marks[k] == apicId % Pow2(Level(reported, k))
  {
    seq(|reported| + 2, k requires 0 <= k < |reported| + 2 => apicId % Pow2(Level(reported, k)))
  }

  lemma IncreasingShare(reported: seq<SubLeaf>, apicId: u32, k: nat)
    requires Distinct(Chain(reported)) && k < |Chain(reported)| && Level(reported, k) < Level(reported, k + 1)
    ensures Pow2(Level(reported, k)) * DomainID(reported, apicId, k)
         == apicId % Pow2(Level(reported, k + 1)) - apicId % Pow2(Level(reported, k))
  {
    DomainIDIsSlice(reported, apicId, k);
    LowBitsSplit(apicId, Level(reported, k), Level(reported, k + 1));
  }

  lemma LowBitsEnds(reported: seq<SubLeaf>, apicId: u32)
    ensures LowBits(reported, apicId)[0] == 0 && LowBits(reported, apicId)[|reported| + 1] == apicId
  {
    Pow2Of32();
    assert Pow2(0) == 1;
  }

  lemma IncreasingRebuilds(reported: seq<SubLeaf>, apicId: u32)
    requires reported != [] && Distinct(Chain(reported)) && Increasing(reported)
    ensures Rebuilt(reported, apicId) == apicId
  {
    var shares, marks := Shares(reported, apicId), LowBits(reported, apicId);
    forall k | 0 <= k < |shares|
      ensures shares[k] == marks[k + 1] - marks[k]
    {
      IncreasingShare(reported, apicId, k);
    }
    Telescope(shares, marks);
    LowBitsEnds(reported, apicId);
  }

  const ALL_ONES: u32 := 0xffff_ffff

  lemma OnesSplit(m: nat, n: nat)
    requires n <= m
    ensures (Pow2(m) - 1) / Pow2(n) == Pow2(m - n) - 1 && (Pow2(m) - 1) % Pow2(n) == Pow2(n) - 1
  {
    Pow2Adds(n, m - n);
    Distributes(Pow2(n), Pow2(m - n), 1);
    DivModUnique(Pow2(m) - 1, Pow2(n), Pow2(m - n) - 1, Pow2(n) - 1);
  }

  lemma SliceOfOnes(lo: nat, hi: nat)
    requires lo <= hi <= 31
    ensures ALL_ONES / Pow2(lo) % Pow2(hi + 1 - lo) == Pow2(hi + 1 - lo) - 1
  {
    Pow2Of32();
    OnesSplit(32, lo);
    OnesSplit(32 - lo, hi + 1 - lo);
  }

  lemma OnesWithin(lo: nat, next: nat)
    requires lo < next <= 32
    ensures Pow2(lo) * (ALL_ONES / Pow2(lo) % Pow2(next - lo)) == Pow2(next) - Pow2(lo)
  {
    SliceOfOnes(lo, next - 1);
    Pow2Adds(lo, next - lo);
    Distributes(Pow2(lo), Pow2(next - lo), 1);
  }

  lemma OnesAreNotZero(lo: nat, end: u32)
    requires lo <= 31
    ensures ExtractBits(ALL_ONES, lo, end) > 0
  {
    var from, to := if lo <= end then lo else end, if lo <= end then (if end > 31 then 31 else end) else lo;
    SliceOfOnes(from, to);
    Pow2Grows(0, to + 1 - from);
  }

  /** On the all-ones id a domain contributes at least what its shifts promise,
      and more if they do not increase. */
  lemma OnesContribution(reported: seq<SubLeaf>, k: nat)
    requires Distinct(Chain(reported)) && k < |Chain(reported)|
    ensures var lo, next := Level(reported, k), Level(reported, k + 1);
      var share := Pow2(lo) * DomainID(reported, ALL_ONES, k);
      && share >= Pow2(next) - Pow2(lo)
      && (share == Pow2(next) - Pow2(lo) <==> lo < next)
  {
    var lo, next := Level(reported, k), Level(reported, k + 1);
    DomainIDIsSlice(reported, ALL_ONES, k);
    if lo < next {
      OnesWithin(lo, next);
    } else {
      OnesAreNotZero(lo, if next == 0 then 0xffff_ffff else next - 1);
      TimesAtLeast(Pow2(lo), DomainID(reported, ALL_ONES, k));
      if next < lo {
        Pow2Grows(next, lo);
      }
    }
  }

  function Marks(reported: seq<SubLeaf>): (marks: seq<int>)
    ensures |marks| == |reported| + 2
    ensures forall k :: 0 <= k < |marks| ==> marks[k] == Pow2(Level(reported, k))
  {
    seq(|reported| + 2, k requires 0 <= k < |reported| + 2 => Pow2(Level(reported, k)))
  }

  lemma OnesRebuildTooMuch(reported: seq<SubLeaf>)
    requires reported != [] && Distinct(Chain(reported)) && !Increasing(reported)
    ensures Rebuilt(reported, ALL_ONES) > ALL_ONES
  {
    var shares, marks := Shares(reported, ALL_ONES), Marks(reported);
    forall k | 0 <= k < |shares|
      ensures shares[k] >= marks[k + 1] - marks[k]
      ensures shares[k] == marks[k + 1] - marks[k] <==> Level(reported, k) < Level(reported, k + 1)
    {
      OnesContribution(reported, k);
    }
    Telescope(shares, marks);
    Pow2Of32();
  }

  /** Shifting the domain ids back and adding them rebuilds every APIC id exactly
      if the shifts are strictly increasing from above 0: only then do the slices
      partition the 32 bits. */
  lemma RebuildsExactlyWhenIncreasing(reported: seq<SubLeaf>)
    requires reported != [] && Distinct(Chain(reported))
    ensures Increasing(reported) <==> forall x: u32 :: Rebuilt(reported, x) == x
  {
    if Increasing(reported) {
      forall x: u32
        ensures Rebuilt(reported, x) == x
      {
        IncreasingRebuilds(reported, x);
      }
    } else {
      OnesRebuildTooMuch(reported);
    }
  }

  /** Increasing, in terms of the sub-leaves alone. */
  lemma IncreasingShifts(reported: seq<SubLeaf>)
    requires reported != []
    ensures Increasing(reported) <==>
      reported[0].shift > 0 && forall k :: 0 < k < |reported| ==> reported[k - 1].shift < reported[k].shift
  {
    if Increasing(reported) {
      forall k | 0 < k < |reported|
        ensures reported[k - 1].shift < reported[k].shift
      {
        assert Level(reported, k) < Level(reported, k + 1);
      }
      assert Level(reported, 0) < Level(reported, 1);
    }
  }
}
