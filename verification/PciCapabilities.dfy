/** probe_pci and the walk over the capability list (PCI Local Bus Specification 3.0,
    section 6.7; PCI Express Base Specification 3.0, section 7.8). */
module PciCapabilities {
  import opened Bits
  import opened Sets

  /** A function's configuration space: the dword at each offset. */
  type Space = nat -> u32

  const PCI_EXPRESS := 0x10

  function Id(space: Space, ptr: nat): nat {
    space(ptr) % 0x100
  }

  function Next(space: Space, ptr: nat): nat {
    space(ptr) / 0x100 % 0x100
  }

  /** The walk goes on from a capability that is not PCI Express and has a successor. */
  predicate Stops(space: Space, ptr: nat) {
    Id(space, ptr) == PCI_EXPRESS || Next(space, ptr) == 0
  }

  /** The offset reached after following `k` links. */
  function Visit(space: Space, ptr: nat, k: nat): nat {
    if k == 0 then ptr else Next(space, Visit(space, ptr, k - 1))
  }

  ghost predicate NoStopBefore(space: Space, ptr: nat, n: nat) {
    forall k :: 0 <= k < n ==> !Stops(space, Visit(space, ptr, k))
  }

  /** The walk stops at its `n`th capability and not before. */
  ghost predicate StopsFirstAt(space: Space, ptr: nat, n: nat) {
    Stops(space, Visit(space, ptr, n)) && NoStopBefore(space, ptr, n)
  }

  ghost predicate Terminates(space: Space, ptr: nat) {
    exists n: nat :: StopsFirstAt(space, ptr, n)
  }

  /** No offset comes up twice before the walk has stopped. */
  ghost predicate Acyclic(space: Space, ptr: nat) {
    forall i: nat, j: nat :: i < j && NoStopBefore(space, ptr, j) ==> Visit(space, ptr, i) != Visit(space, ptr, j)
  }

  lemma {:induction false} VisitFollows(space: Space, ptr: nat, k: nat)
    ensures Visit(space, ptr, k + 1) == Visit(space, Next(space, ptr), k)
  {
    if k > 0 {
      VisitFollows(space, ptr, k - 1);
    }
  }

  lemma {:induction false} VisitRepeats(space: Space, ptr: nat, i: nat, j: nat, m: nat)
    requires Visit(space, ptr, i) == Visit(space, ptr, j)
    ensures Visit(space, ptr, i + m) == Visit(space, ptr, j + m)
  {
    if m > 0 {
      VisitRepeats(space, ptr, i, j, m - 1);
    }
  }

  lemma NoRepeatBeforeStop(space: Space, ptr: nat, n: nat, i: nat, j: nat)
    requires StopsFirstAt(space, ptr, n) && i < j <= n
    ensures Visit(space, ptr, i) != Visit(space, ptr, j)
  {
    if Visit(space, ptr, i) == Visit(space, ptr, j) {
      assert !Stops(space, Visit(space, ptr, i + (n - j)));
      VisitRepeats(space, ptr, i, j, n - j);
    }
  }

  lemma TerminatingIsAcyclic(space: Space, ptr: nat)
    requires Terminates(space, ptr)
    ensures Acyclic(space, ptr)
  {
    var n: nat :| StopsFirstAt(space, ptr, n);
    forall i: nat, j: nat | i < j && NoStopBefore(space, ptr, j)
      ensures Visit(space, ptr, i) != Visit(space, ptr, j)
    {
      NoRepeatBeforeStop(space, ptr, n, i, j);
    }
  }

  /** The offsets of the links 1 to n. */
  function Visited(space: Space, ptr: nat, n: nat): set<nat> {
    if n == 0 then {} else Visited(space, ptr, n - 1) + {Visit(space, ptr, n)}
  }

  lemma {:induction false} VisitedBy(space: Space, ptr: nat, n: nat, x: nat) returns (k: nat)
    requires x in Visited(space, ptr, n)
    ensures 1 <= k <= n && x == Visit(space, ptr, k) && x < 0x100
  {
    if x == Visit(space, ptr, n) {
      assert x == Next(space, Visit(space, ptr, n - 1));
      k := n;
    } else {
      k := VisitedBy(space, ptr, n - 1, x);
    }
  }

  lemma {:induction false} VisitedAreDistinct(space: Space, ptr: nat, n: nat)
    requires forall i, j :: 0 <= i < j <= n ==> Visit(space, ptr, i) != Visit(space, ptr, j)
    ensures |Visited(space, ptr, n)| == n
  {
    if n > 0 {
      VisitedAreDistinct(space, ptr, n - 1);
      if Visit(space, ptr, n) in Visited(space, ptr, n - 1) {
        var k := VisitedBy(space, ptr, n - 1, Visit(space, ptr, n));
      }
    }
  }

  function Below(n: nat): (s: set<nat>)
    ensures |s| == n && forall x :: x in s <==> 0 <= x < n
  {
    if n == 0 then {} else Below(n - 1) + {n - 1}
  }

  lemma DistinctLinksAreFew(space: Space, ptr: nat, n: nat)
    requires forall i, j :: 0 <= i < j <= n ==> Visit(space, ptr, i) != Visit(space, ptr, j)
    ensures n <= 256
  {
    VisitedAreDistinct(space, ptr, n);
    forall x | x in Visited(space, ptr, n)
      ensures x in Below(256)
    {
      var k := VisitedBy(space, ptr, n, x);
    }
    SubsetIsSmaller(Visited(space, ptr, n), Below(256));
  }

  lemma {:induction false} FirstStop(space: Space, ptr: nat, n: nat) returns (first: nat)
    requires Stops(space, Visit(space, ptr, n))
    ensures first <= n && StopsFirstAt(space, ptr, first)
  {
    if k :| 0 <= k < n && Stops(space, Visit(space, ptr, k)) {
      first := FirstStop(space, ptr, k);
    } else {
      first := n;
    }
  }

  /** An acyclic walk stops after at most 256 links: there are no more offsets that a
      next pointer can hold. */
  lemma AcyclicStops(space: Space, ptr: nat) returns (n: nat)
    requires Acyclic(space, ptr)
    ensures n <= 256 && StopsFirstAt(space, ptr, n)
  {
    if !NoStopBefore(space, ptr, 257) {
      var k :| 0 <= k < 257 && Stops(space, Visit(space, ptr, k));
      n := FirstStop(space, ptr, k);
    } else {
      forall i: nat, j: nat | i < j <= 257
        ensures Visit(space, ptr, i) != Visit(space, ptr, j)
      {
        assert NoStopBefore(space, ptr, j);
      }
      DistinctLinksAreFew(space, ptr, 257);
    }
  }

  /** The walk terminates exactly on acyclic chains. */
  lemma TerminatesExactlyWhenAcyclic(space: Space, ptr: nat)
    ensures Terminates(space, ptr) <==> Acyclic(space, ptr)
  {
    if Acyclic(space, ptr) {
      var n := AcyclicStops(space, ptr);
    }
    if Terminates(space, ptr) {
      TerminatingIsAcyclic(space, ptr);
    }
  }

  /** Where the link registers of a capability are, in 32-bit arithmetic. */
  function LinkOffset(ptr: nat): nat {
    (ptr + 0x10) % 0x1_0000_0000
  }

  /** The `n`th capability is the first PCI Express capability that can be reached. */
  ghost predicate FirstExpress(space: Space, ptr: nat, n: nat) {
    Id(space, Visit(space, ptr, n)) == PCI_EXPRESS && NoStopBefore(space, ptr, n)
  }

  /** The dword at +0x10 of the first PCI Express capability, or, if none can be
      reached, what was there before. */
  ghost predicate IsLinkInfo(space: Space, ptr: nat, before: u32, after: u32) {
    && (forall n: nat :: FirstExpress(space, ptr, n) ==> after == space(LinkOffset(Visit(space, ptr, n))))
    && ((forall n: nat :: !FirstExpress(space, ptr, n)) ==> after == before)
  }

  lemma OneFirstStop(space: Space, ptr: nat, m: nat, n: nat)
    requires StopsFirstAt(space, ptr, m) && StopsFirstAt(space, ptr, n)
    ensures m == n
  {
  }

  /** The number of links the walk follows, and its measure. */
  ghost function Length(space: Space, ptr: nat): nat
    requires Terminates(space, ptr)
  {
    var n: nat :| StopsFirstAt(space, ptr, n); n
  }

  lemma LengthIsFirstStop(space: Space, ptr: nat, n: nat)
    requires StopsFirstAt(space, ptr, n)
    ensures Length(space, ptr) == n
  {
    OneFirstStop(space, ptr, Length(space, ptr), n);
  }

  lemma NoStopBeforeFollows(space: Space, ptr: nat, n: nat)
    requires !Stops(space, ptr)
    ensures NoStopBefore(space, ptr, n + 1) <==> NoStopBefore(space, Next(space, ptr), n)
  {
    forall k: nat {
      VisitFollows(space, ptr, k);
    }
    if NoStopBefore(space, ptr, n + 1) {
      forall k | 0 <= k < n
        ensures !Stops(space, Visit(space, Next(space, ptr), k))
      {
        assert !Stops(space, Visit(space, ptr, k + 1));
      }
    }
    if NoStopBefore(space, Next(space, ptr), n) {
      forall k | 0 <= k < n + 1
        ensures !Stops(space, Visit(space, ptr, k))
      {
        if k > 0 {
          assert !Stops(space, Visit(space, Next(space, ptr), k - 1));
        }
      }
    }
  }

  lemma StepShortens(space: Space, ptr: nat)
    requires Terminates(space, ptr) && !Stops(space, ptr)
    ensures Terminates(space, Next(space, ptr)) && Length(space, Next(space, ptr)) < Length(space, ptr)
  {
    var n := Length(space, ptr);
    VisitFollows(space, ptr, n - 1);
    NoStopBeforeFollows(space, ptr, n - 1);
    assert StopsFirstAt(space, Next(space, ptr), n - 1);
    LengthIsFirstStop(space, Next(space, ptr), n - 1);
  }

  lemma StepKeepsLinkInfo(space: Space, ptr: nat, before: u32, after: u32)
    requires !Stops(space, ptr) && IsLinkInfo(space, Next(space, ptr), before, after)
    ensures IsLinkInfo(space, ptr, before, after)
  {
    forall n: nat
      ensures FirstExpress(space, ptr, n) ==> n > 0
      ensures FirstExpress(space, ptr, n + 1) <==> FirstExpress(space, Next(space, ptr), n)
      ensures Visit(space, ptr, n + 1) == Visit(space, Next(space, ptr), n)
    {
      VisitFollows(space, ptr, n);
      NoStopBeforeFollows(space, ptr, n);
    }
    forall n: nat | FirstExpress(space, ptr, n)
      ensures after == space(LinkOffset(Visit(space, ptr, n)))
    {
      assert FirstExpress(space, Next(space, ptr), n - 1);
    }
    if forall n: nat :: !FirstExpress(space, ptr, n) {
      assert forall n: nat :: !FirstExpress(space, Next(space, ptr), n) by {
        forall n: nat
          ensures !FirstExpress(space, Next(space, ptr), n)
        {
          assert !FirstExpress(space, ptr, n + 1);
        }
      }
    }
  }

  lemma StopDecidesLinkInfo(space: Space, ptr: nat, before: u32)
    requires Stops(space, ptr)
    ensures IsLinkInfo(space, ptr, before, if Id(space, ptr) == PCI_EXPRESS then space(LinkOffset(ptr)) else before)
  {
    forall n: nat | FirstExpress(space, ptr, n)
      ensures n == 0
    {
      assert n > 0 ==> !Stops(space, Visit(space, ptr, 0));
    }
    if Id(space, ptr) == PCI_EXPRESS {
      assert FirstExpress(space, ptr, 0);
    }
  }

  /** A capability starts with its id, then the offset of the next one; the link registers
      of a PCI Express capability, whose id is 16, are 16 bytes further on. */
  lemma CapabilityLayout(space: Space, ptr: nat, id: nat, next: nat, rest: nat)
    requires id < 256 && next < 256 && space(ptr) == id + 256 * next + 65536 * rest
    ensures Id(space, ptr) == id && Next(space, ptr) == next
    ensures Stops(space, ptr) <==> id == 16 || next == 0
    ensures ptr < 0xffff_fff0 ==> LinkOffset(ptr) == ptr + 16
  {
    assert space(ptr) / 256 == next + 256 * rest;
  }

  /** What a walk leaves that finds such a capability after one that is not. */
  lemma SecondCapability(space: Space, ptr: nat, id: nat, next: nat, rest: nat, rest': nat, before: u32, after: u32)
    requires id < 256 && id != 16 && 0 < next < 256
    requires space(ptr) == id + 256 * next + 65536 * rest && space(next) == 16 + 256 * rest'
    ensures IsLinkInfo(space, ptr, before, after) <==> after == space(next + 16)
  {
    CapabilityLayout(space, ptr, id, next, rest);
    CapabilityLayout(space, next, 16, rest' % 256, rest' / 256);
    StopDecidesLinkInfo(space, next, before);
    StepKeepsLinkInfo(space, ptr, before, space(next + 16));
    if IsLinkInfo(space, ptr, before, after) {
      OneLinkInfo(space, ptr, before, after, space(next + 16));
    }
  }

  class Pci {
    var exist: bool
    var offset0: u32
    var headerType: nat
    var offset18: u32
    var linkInfo: u32

    constructor ()
      ensures !exist && offset0 == 0 && headerType == 0 && offset18 == 0 && linkInfo == 0
    {
      exist, offset0, headerType, offset18, linkInfo := false, 0, 0, 0, 0;
    }
  }

  method ProbeCapabilityPciExpress(p: Pci, space: Space, capPtr: nat)
    requires Terminates(space, capPtr)
    modifies p`linkInfo
    ensures IsLinkInfo(space, capPtr, old(p.linkInfo), p.linkInfo)
    decreases Length(space, capPtr)
  {
    var dw0 := space(capPtr);
    var id, next := dw0 % 0x100, dw0 / 0x100 % 0x100;
    if id != PCI_EXPRESS && next != 0 {
      StepShortens(space, capPtr);
      ProbeCapabilityPciExpress(p, space, next);
      StepKeepsLinkInfo(space, capPtr, old(p.linkInfo), p.linkInfo);
    } else {
      StopDecidesLinkInfo(space, capPtr, p.linkInfo);
      if id == PCI_EXPRESS {
        p.linkInfo := space(LinkOffset(capPtr));
      }
    }
  }

  /** The function's header says it has a capability list. */
  predicate HasCapabilities(own: Space) {
    own(0x0) != 0xffff_ffff && own(0xc) / 0x1_0000 % 0x80 == 0 && own(0x4) / 0x10_0000 % 2 == 1
  }

  /** In terms of the header's registers: the vendor and device ids are not all ones, the
      Header Type register is 0 but for its multi-function bit, and bit 4 of the Status
      register is set. */
  lemma HeaderOfCapabilities(own: Space, command: nat, status: nat, low: nat, headerType: nat, bist: nat)
    requires command < 0x1_0000 && own(4) == command + 0x1_0000 * status
    requires low < 0x1_0000 && headerType < 0x100 && own(12) == low + 0x1_0000 * headerType + 0x100_0000 * bist
    ensures HasCapabilities(own) <==> own(0) != 0xffff_ffff && headerType % 128 == 0 && status / 16 % 2 == 1
  {
    assert own(12) / 0x1_0000 == headerType + 0x100 * bist;
    assert own(4) / 0x10_0000 == status / 16;
  }

  /** What the walk can leave in link_info for a function in PCI domain `domain`.
      `own` is its configuration space, `domain0` that of the function with the same
      bus, device and function number in domain 0, which is the one the walk opens. */
  ghost predicate MayReport(domain: nat, own: Space, domain0: Space, before: u32, after: u32) {
    && (domain == 0 ==> domain0 == own)
    && Acyclic(domain0, own(0x34))
    && IsLinkInfo(domain0, own(0x34), before, after)
  }

  method ProbePci(p: Pci, domain: nat, present: bool, own: Space, domain0: Space) returns (exist: bool)
    requires domain == 0 ==> domain0 == own
    requires present && HasCapabilities(own) ==> Acyclic(domain0, own(0x34))
    modifies p
    ensures exist == p.exist == (present && own(0x0) != 0xffff_ffff)
    ensures exist ==> p.offset0 == own(0x0) && p.headerType == own(0xc) / 0x1_0000 % 0x80
    ensures !exist ==> p.offset0 == old(p.offset0) && p.headerType == old(p.headerType)
    ensures p.offset18 == if exist && p.headerType == 1 then own(0x18) else old(p.offset18)
    ensures if present && HasCapabilities(own) then MayReport(domain, own, domain0, old(p.linkInfo), p.linkInfo)
            else p.linkInfo == old(p.linkInfo)
  {
    p.exist := false;
    if present {
      var value := own(0x0);
      if value != 0xffff_ffff {
        p.offset0 := value;
        value := own(0xc);
        p.headerType := value / 0x1_0000 % 0x80;
        if p.headerType == 0 {
          value := own(0x4);
          if value / 0x10_0000 % 2 == 1 {
            value := own(0x34);
            TerminatesExactlyWhenAcyclic(domain0, value);
            ProbeCapabilityPciExpress(p, domain0, value);
          }
        } else if p.headerType == 1 {
          value := own(0x18);
          p.offset18 := value;
        }
        p.exist := true;
      }
    }
    return p.exist;
  }

  /** A space in which the walk from `ptr` finds a PCI Express capability at once, with
      this link word. */
  function Endpoint(ptr: u32, link: u32): Space {
    offset => if offset == LinkOffset(ptr) then link else if offset == ptr then PCI_EXPRESS else 0
  }

  lemma EndpointReportsItsLink(ptr: u32, link: u32, before: u32)
    ensures Acyclic(Endpoint(ptr, link), ptr) && IsLinkInfo(Endpoint(ptr, link), ptr, before, link)
  {
    var space := Endpoint(ptr, link);
    assert LinkOffset(ptr) != ptr;
    assert Visit(space, ptr, 0) == ptr && StopsFirstAt(space, ptr, 0);
    TerminatingIsAcyclic(space, ptr);
    StopDecidesLinkInfo(space, ptr, before);
  }

  /** No two words are both the right link_info. */
  lemma OneLinkInfo(space: Space, ptr: nat, before: u32, a: u32, b: u32)
    requires IsLinkInfo(space, ptr, before, a) && IsLinkInfo(space, ptr, before, b)
    ensures a == b
  {
    if n: nat :| FirstExpress(space, ptr, n) {
      assert a == space(LinkOffset(Visit(space, ptr, n))) == b;
    }
  }

  /** The link_info of a function is bound to be its own, whatever other functions the
      system has, if and only if the function is in domain 0. */
  lemma LinkInfoIsOwnExactlyInDomainZero(domain: nat, own: Space, before: u32)
    ensures domain == 0 <==>
      forall domain0: Space, after: u32 ::
        MayReport(domain, own, domain0, before, after) ==> IsLinkInfo(own, own(0x34), before, after)
  {
    if domain != 0 {
      var ptr := own(0x34);
      EndpointReportsItsLink(ptr, 0, before);
      EndpointReportsItsLink(ptr, 1, before);
      assert MayReport(domain, own, Endpoint(ptr, 0), before, 0);
      assert MayReport(domain, own, Endpoint(ptr, 1), before, 1);
      if IsLinkInfo(own, ptr, before, 0) && IsLinkInfo(own, ptr, before, 1) {
        OneLinkInfo(own, ptr, before, 0, 1);
      }
    }
  }

  function WithPointer(space: Space, ptr: u32): Space {
    (offset: nat) => if offset == 0x34 then ptr else space(offset)
  }

  /** An endpoint in domain 1 with link word 1 whose namesake in domain 0 has link
      word 2: the walk reports 2. */
  lemma LinkInfoOfTheNamesake()
    ensures var own := WithPointer(Endpoint(0x40, 1), 0x40);
      MayReport(1, own, Endpoint(0x40, 2), 0, 2) && !IsLinkInfo(own, own(0x34), 0, 2)
  {
    var own := WithPointer(Endpoint(0x40, 1), 0x40);
    EndpointReportsItsLink(0x40, 2, 0);
    assert Visit(own, 0x40, 0) == 0x40 && own(0x40) == PCI_EXPRESS && own(LinkOffset(0x40)) == 1;
    assert FirstExpress(own, 0x40, 0);
  }

  // ---------------------------------------------------------------- a cyclic list

  /** A capability other than PCI Express that is its own successor. */
  function SelfLinked(ptr: nat): Space
    requires 0 < ptr < 0x100
  {
    offset => if offset == ptr then 0x100 * ptr + 1 else 0
  }

  lemma SelfLinkedGoesOn(ptr: nat)
    requires 0 < ptr < 0x100
    ensures Next(SelfLinked(ptr), ptr) == ptr && !Stops(SelfLinked(ptr), ptr)
  {
  }

  lemma {:induction false} SelfLinkedStays(ptr: nat, k: nat)
    requires 0 < ptr < 0x100
    ensures Visit(SelfLinked(ptr), ptr, k) == ptr
  {
    SelfLinkedGoesOn(ptr);
    if k > 0 {
      SelfLinkedStays(ptr, k - 1);
    }
  }

  /** From it the walk never ends. */
  lemma SelfLinkedNeverTerminates(ptr: nat)
    requires 0 < ptr < 0x100
    ensures !Terminates(SelfLinked(ptr), ptr)
  {
    SelfLinkedGoesOn(ptr);
    forall n: nat
      ensures !StopsFirstAt(SelfLinked(ptr), ptr, n)
    {
      SelfLinkedStays(ptr, n);
    }
  }
}
