/** PCM::discoverSystemTopology: populating the topology from the processors that
    can be reached, renumbering the package ids densely, and electing the
    reference core of each socket. */
module Topology {
  import opened Options
  import opened Sets

  /** The members of TopologyEntry that decide whether a core is online; the
      default-constructed entry of an unreachable core has -1 everywhere. */
  datatype Entry = Entry(osId: int, coreId: int, socket: int)

  const OFFLINE := Entry(-1, -1, -1)

  /** PCM::isCoreOnline */
  predicate Online(e: Entry) {
    e.osId != -1 && e.coreId != -1 && e.socket != -1
  }

  /** Core `i` is online and belongs to socket `s`. */
  predicate OnSocket(topology: seq<Entry>, i: int, s: int) {
    0 <= i < |topology| && Online(topology[i]) && topology[i].socket == s
  }

  /** Some online core belongs to socket `s`. */
  ghost predicate IsPopulated(topology: seq<Entry>, s: int) {
    exists i :: OnSocket(topology, i, s)
  }

  /** One `processor` line of /proc/cpuinfo: the entry read on that core, or None
      when setting the thread affinity throws. */
  datatype Processor = Processor(osId: nat, entry: Option<Entry>)

  /** Each processor is listed once and is present; the ids extracted from its
      APIC id are not negative. */
  ghost predicate ValidProcessors(present: nat, processors: seq<Processor>) {
    && (forall i :: 0 <= i < |processors| ==> processors[i].osId < present)
    && (forall i, j :: 0 <= i < j < |processors| ==> processors[i].osId != processors[j].osId)
    && (forall i :: 0 <= i < |processors| && processors[i].entry.Some? ==>
          var e := processors[i].entry.value; e.osId == processors[i].osId && e.coreId >= 0 && e.socket >= 0)
  }

  /** The topology before renumbering. */
  function Populated(present: nat, processors: seq<Processor>): seq<Entry>
    requires forall i :: 0 <= i < |processors| ==> processors[i].osId < present
    ensures |Populated(present, processors)| == present
  {
    if processors == [] then seq(present, _ => OFFLINE)
    else
      var before := Populated(present, processors[..|processors| - 1]);
      var last := processors[|processors| - 1];
      if last.entry.Some? then before[last.osId := last.entry.value] else before
  }

  /** How many processors could be read. */
  function Reachable(processors: seq<Processor>): nat {
    if processors == [] then 0
    else Reachable(processors[..|processors| - 1]) + if processors[|processors| - 1].entry.Some? then 1 else 0
  }

  /** The package ids of the online cores. */
  function PackageIds(topology: seq<Entry>): set<int> {
    set i | 0 <= i < |topology| && Online(topology[i]) :: topology[i].socket
  }

  /** How many package ids are below `id`: its logical socket number. */
  function Rank(ids: set<int>, id: int): nat {
    |set k | k in ids && k < id|
  }

  /** The topology after renumbering. */
  function Renumbered(found: seq<Entry>): (topology: seq<Entry>)
    ensures |topology| == |found|
    ensures forall i :: 0 <= i < |found| ==> topology[i].osId == found[i].osId && topology[i].coreId == found[i].coreId
    ensures forall i :: 0 <= i < |found| ==>
      topology[i].socket == if Online(found[i]) then Rank(PackageIds(found), found[i].socket) else found[i].socket
  {
    seq(|found|, i requires 0 <= i < |found| =>
      if Online(found[i]) then found[i].(socket := Rank(PackageIds(found), found[i].socket)) else found[i])
  }

  // ------------------------------------------- dense renumbering of package ids

  lemma RankKeepsOrder(ids: set<int>, a: int, b: int)
    requires a in ids && a < b
    ensures Rank(ids, a) < Rank(ids, b)
  {
    var below, more := set k | k in ids && k < a, set k | k in ids && k < b;
    assert a in more && a !in below && below <= more;
    SubsetIsSmaller(below + {a}, more);
  }

  lemma RankIsDense(ids: set<int>, id: int)
    requires id in ids
    ensures Rank(ids, id) < |ids|
  {
    var below := set k | k in ids && k < id;
    SubsetIsSmaller(below + {id}, ids);
    assert id !in below;
  }

  lemma {:induction false} HasLeast(ids: set<int>)
    requires ids != {}
    ensures exists m :: m in ids && forall k :: k in ids ==> m <= k
  {
    var x := Member(ids);
    if ids == {x} {
      assert forall k :: k in ids ==> x <= k;
    } else {
      HasLeast(ids - {x});
      var rest :| rest in ids - {x} && forall k :: k in ids - {x} ==> rest <= k;
      var m := if x < rest then x else rest;
      forall k | k in ids
        ensures m <= k
      {
        assert k == x || k in ids - {x};
      }
    }
  }

  /** Where an iterator of an ordered map over `ids` starts. */
  function Least(ids: set<int>): (least: int)
    requires ids != {}
    ensures least in ids && forall k :: k in ids ==> least <= k
  {
    HasLeast(ids);
    var least :| least in ids && forall k :: k in ids ==> least <= k;
    least
  }

  lemma {:induction false} RankIsOnto(ids: set<int>, n: nat) returns (id: int)
    requires n < |ids|
    ensures id in ids && Rank(ids, id) == n
    decreases |ids|
  {
    var least := Least(ids);
    if n == 0 {
      id := least;
      assert (set k | k in ids && k < id) == {};
    } else {
      var rest := ids - {least};
      id := RankIsOnto(rest, n - 1);
      assert (set k | k in ids && k < id) == (set k | k in rest && k < id) + {least};
    }
  }

  /** The ids that are not in `rest` are all below those that are. */
  ghost predicate IsLowerPart(ids: set<int>, rest: set<int>) {
    && rest <= ids
    && forall a, b :: a in ids && a !in rest && b in rest ==> a < b
  }

  lemma RankOfNext(ids: set<int>, rest: set<int>, id: int)
    requires IsLowerPart(ids, rest) && id in rest && forall k :: k in rest ==> id <= k
    ensures Rank(ids, id) == |ids - rest|
    ensures IsLowerPart(ids, rest - {id}) && ids - (rest - {id}) == (ids - rest) + {id}
    ensures |ids - (rest - {id})| == |ids - rest| + 1
  {
    assert (set k | k in ids && k < id) == ids - rest;
    assert ids - (rest - {id}) == (ids - rest) + {id};
  }

  /** The ids outside `rest` have got their numbers; `sid` is the next one. */
  ghost predicate Numbered(ids: set<int>, rest: set<int>, socketIdMap: map<int, nat>, sid: nat) {
    && IsLowerPart(ids, rest) && sid == |ids - rest|
    && socketIdMap.Keys == ids - rest && forall id :: id in socketIdMap ==> socketIdMap[id] == Rank(ids, id)
  }

  lemma NumberedNext(ids: set<int>, rest: set<int>, socketIdMap: map<int, nat>, sid: nat, id: int)
    requires Numbered(ids, rest, socketIdMap, sid)
    requires id in rest && forall k :: k in rest ==> id <= k
    ensures Numbered(ids, rest - {id}, socketIdMap[id := sid], sid + 1)
  {
    RankOfNext(ids, rest, id);
  }

  /** Renumbering is an order-preserving bijection from the package ids of the
      online cores onto 0 .. their number - 1, so two online cores share a socket
      afterwards exactly if they did before. */
  lemma RenumberingIsOrderIsomorphism(found: seq<Entry>)
    ensures var topology, ids := Renumbered(found), PackageIds(found);
      && (forall i :: 0 <= i < |found| ==> (Online(topology[i]) <==> Online(found[i])))
      && (forall i :: 0 <= i < |found| && Online(found[i]) ==> 0 <= topology[i].socket < |ids|)
      && (forall i, j :: 0 <= i < |found| && 0 <= j < |found| && Online(found[i]) && Online(found[j]) ==>
            && (topology[i].socket == topology[j].socket <==> found[i].socket == found[j].socket)
            && (topology[i].socket < topology[j].socket <==> found[i].socket < found[j].socket))
      && (forall s :: 0 <= s < |ids| ==> IsPopulated(topology, s))
  {
    var topology, ids := Renumbered(found), PackageIds(found);
    forall i | 0 <= i < |found| && Online(found[i])
      ensures 0 <= topology[i].socket < |ids|
    {
      RankIsDense(ids, found[i].socket);
    }
    forall i, j | 0 <= i < |found| && 0 <= j < |found| && Online(found[i]) && Online(found[j])
      ensures topology[i].socket == topology[j].socket <==> found[i].socket == found[j].socket
      ensures topology[i].socket < topology[j].socket <==> found[i].socket < found[j].socket
    {
      if found[i].socket < found[j].socket {
        RankKeepsOrder(ids, found[i].socket, found[j].socket);
      } else if found[j].socket < found[i].socket {
        RankKeepsOrder(ids, found[j].socket, found[i].socket);
      }
    }
    forall s | 0 <= s < |ids|
      ensures IsPopulated(topology, s)
    {
      var id := RankIsOnto(ids, s);
      var i :| 0 <= i < |found| && Online(found[i]) && found[i].socket == id;
      assert OnSocket(topology, i, s);
    }
  }

  // ------------------------------------------------------------ reference cores

  /** Core `c` is the highest-numbered online core of socket `s` among the first
      `n` cores, or -1 if there is none. */
  ghost predicate IsReferenceCore(topology: seq<Entry>, n: nat, s: int, c: int) {
    && (c != -1 ==> c < n && OnSocket(topology, c, s))
    && forall i :: i < n && OnSocket(topology, i, s) ==> i <= c
  }

  ghost predicate AreReferenceCores(topology: seq<Entry>, n: nat, refCore: seq<int>) {
    forall s :: 0 <= s < |refCore| ==> IsReferenceCore(topology, n, s, refCore[s])
  }

  function CountOnline(refCore: seq<int>): nat {
    if refCore == [] then 0
    else CountOnline(refCore[..|refCore| - 1]) + if refCore[|refCore| - 1] != -1 then 1 else 0
  }

  lemma {:induction false} CountOfAll(refCore: seq<int>)
    ensures CountOnline(refCore) <= |refCore|
    ensures CountOnline(refCore) == |refCore| <==> forall s :: 0 <= s < |refCore| ==> refCore[s] != -1
  {
    if refCore != [] {
      var n := |refCore| - 1;
      CountOfAll(refCore[..n]);
      assert (forall s :: 0 <= s < |refCore| ==> refCore[s] != -1)
        <==> (forall s :: 0 <= s < n ==> refCore[..n][s] != -1) && refCore[n] != -1;
    }
  }

  /** What discovery leaves behind. */
  ghost predicate Discovered(found: seq<Entry>, topology: seq<Entry>, refCore: seq<int>) {
    && topology == Renumbered(found)
    && |refCore| == (if PackageIds(found) == {} then 1 else |PackageIds(found)|)
    && AreReferenceCores(topology, |topology|, refCore)
  }

  /** All sockets are online exactly when some core is. */
  lemma EverySocketIsOnline(found: seq<Entry>, topology: seq<Entry>, refCore: seq<int>)
    requires Discovered(found, topology, refCore)
    ensures CountOnline(refCore) == |refCore| <==> exists i :: 0 <= i < |found| && Online(found[i])
  {
    RenumberingIsOrderIsomorphism(found);
    CountOfAll(refCore);
    if i :| 0 <= i < |found| && Online(found[i]) {
      assert found[i].socket in PackageIds(found);
      forall s | 0 <= s < |refCore|
        ensures refCore[s] != -1
      {
        assert IsPopulated(topology, s);
      }
    } else {
      assert PackageIds(found) == {};
      assert IsReferenceCore(topology, |topology|, 0, refCore[0]) && !OnSocket(topology, refCore[0], 0);
    }
  }

  /** Every online core belongs to one of the sockets 0 .. n - 1. */
  ghost predicate SocketsInRange(topology: seq<Entry>, n: nat) {
    forall i :: 0 <= i < |topology| && Online(topology[i]) ==> 0 <= topology[i].socket < n
  }

  lemma RenumberedIsInRange(found: seq<Entry>)
    ensures SocketsInRange(Renumbered(found), |PackageIds(found)|)
  {
    RenumberingIsOrderIsomorphism(found);
  }

  // ------------------------------------------------------- in terms of the processors

  /** Some processor `c` could be read. */
  ghost predicate IsReadable(processors: seq<Processor>, c: int) {
    exists i :: 0 <= i < |processors| && processors[i].entry.Some? && processors[i].osId == c
  }

  ghost predicate OthersAreOffline(present: nat, processors: seq<Processor>, topology: seq<Entry>) {
    && |topology| == present
    && forall c :: 0 <= c < present && !IsReadable(processors, c) ==> topology[c] == Entry(-1, -1, -1)
  }

  ghost predicate HoldsEntries(processors: seq<Processor>, topology: seq<Entry>) {
    forall i :: 0 <= i < |processors| && processors[i].entry.Some? ==>
      processors[i].osId < |topology| && topology[processors[i].osId] == processors[i].entry.value
  }

  /** Every entry read is at the index of its processor, every other index is offline. */
  lemma {:induction false} EntriesArePlaced(present: nat, processors: seq<Processor>)
    requires ValidProcessors(present, processors)
    ensures HoldsEntries(processors, Populated(present, processors))
    ensures OthersAreOffline(present, processors, Populated(present, processors))
  {
    if processors != [] {
      var n := |processors| - 1;
      var front, last := processors[..n], processors[n];
      EntriesArePlaced(present, front);
      forall i | 0 <= i < n && processors[i].entry.Some?
        ensures Populated(present, processors)[processors[i].osId] == processors[i].entry.value
      {
        assert front[i] == processors[i];
      }
      forall c | 0 <= c < present && !IsReadable(processors, c)
        ensures Populated(present, processors)[c] == Entry(-1, -1, -1)
      {
        NotReadableBefore(processors, c);
        assert processors[n].entry.Some? ==> processors[n].osId != c;
      }
    }
  }

  lemma NotReadableBefore(processors: seq<Processor>, c: int)
    requires processors != [] && !IsReadable(processors, c)
    ensures !IsReadable(processors[..|processors| - 1], c)
  {
    var front := processors[..|processors| - 1];
    forall i | 0 <= i < |front| && front[i].entry.Some?
      ensures front[i].osId != c
    {
      assert processors[i] == front[i];
    }
  }

  /** The operating system's and the core's id of every processor that could be read. */
  ghost predicate ReadableAreKept(processors: seq<Processor>, topology: seq<Entry>) {
    forall i :: 0 <= i < |processors| && processors[i].entry.Some? ==>
      var c := processors[i].osId;
      && c < |topology| && Online(topology[c])
      && topology[c].osId == c && topology[c].coreId == processors[i].entry.value.coreId
  }

  /** Two of them share a socket exactly if their package ids are the same, and sockets
      are in the order of the package ids. */
  ghost predicate SharesSocketsByPackage(processors: seq<Processor>, topology: seq<Entry>) {
    forall i, j :: 0 <= i < |processors| && 0 <= j < |processors|
                   && processors[i].entry.Some? && processors[j].entry.Some? ==>
      var c, d := processors[i].osId, processors[j].osId;
      && c < |topology| && d < |topology|
      && (topology[c].socket == topology[d].socket <==>
          processors[i].entry.value.socket == processors[j].entry.value.socket)
      && (topology[c].socket < topology[d].socket <==>
          processors[i].entry.value.socket < processors[j].entry.value.socket)
  }

  /** The reference core of a processor's socket is the highest-numbered one that could
      be read there. */
  ghost predicate ReadableHaveReferences(processors: seq<Processor>, topology: seq<Entry>, refCore: seq<int>) {
    forall i :: 0 <= i < |processors| && processors[i].entry.Some? ==>
      var c := processors[i].osId;
      && c < |topology| && 0 <= topology[c].socket < |refCore|
      && c <= refCore[topology[c].socket] < |topology|
      && IsReadable(processors, refCore[topology[c].socket])
      && topology[refCore[topology[c].socket]].socket == topology[c].socket
  }

  lemma DiscoveryKeepsProcessors(present: nat, processors: seq<Processor>, topology: seq<Entry>, refCore: seq<int>)
    requires ValidProcessors(present, processors) && Discovered(Populated(present, processors), topology, refCore)
    ensures ReadableAreKept(processors, topology) && OthersAreOffline(present, processors, topology)
    ensures SharesSocketsByPackage(processors, topology)
    ensures ReadableHaveReferences(processors, topology, refCore)
  {
    var found := Populated(present, processors);
    EntriesArePlaced(present, processors);
    RenumberingIsOrderIsomorphism(found);
    forall i | 0 <= i < |processors| && processors[i].entry.Some?
      ensures Online(topology[processors[i].osId])
    {
      assert found[processors[i].osId] == processors[i].entry.value;
    }
    ReferencesAreReadable(present, processors, topology, refCore);
  }

  lemma ReferencesAreReadable(present: nat, processors: seq<Processor>, topology: seq<Entry>, refCore: seq<int>)
    requires ValidProcessors(present, processors) && Discovered(Populated(present, processors), topology, refCore)
    ensures ReadableHaveReferences(processors, topology, refCore)
  {
    var found := Populated(present, processors);
    EntriesArePlaced(present, processors);
    RenumberingIsOrderIsomorphism(found);
    forall i | 0 <= i < |processors| && processors[i].entry.Some?
      ensures var c := processors[i].osId;
        && c < |topology| && 0 <= topology[c].socket < |refCore|
        && c <= refCore[topology[c].socket] < |topology|
        && IsReadable(processors, refCore[topology[c].socket])
        && topology[refCore[topology[c].socket]].socket == topology[c].socket
    {
      var c := processors[i].osId;
      assert found[c] == processors[i].entry.value;
      var s := topology[c].socket;
      assert found[c].socket in PackageIds(found);
      assert IsReferenceCore(topology, |topology|, s, refCore[s]);
      assert OnSocket(topology, c, s);
      assert OnSocket(topology, refCore[s], s);
      assert found[refCore[s]] != Entry(-1, -1, -1);
    }
  }

  /** The package ids of the processors that could be read. */
  function PackagesRead(processors: seq<Processor>): set<int> {
    set i | 0 <= i < |processors| && processors[i].entry.Some? :: processors[i].entry.value.socket
  }

  lemma PackagesAreThoseRead(present: nat, processors: seq<Processor>)
    requires ValidProcessors(present, processors)
    ensures PackageIds(Populated(present, processors)) == PackagesRead(processors)
  {
    var found := Populated(present, processors);
    EntriesArePlaced(present, processors);
    forall id | id in PackageIds(found)
      ensures id in PackagesRead(processors)
    {
      var c :| 0 <= c < |found| && Online(found[c]) && found[c].socket == id;
      assert IsReadable(processors, c);
    }
    forall id | id in PackagesRead(processors)
      ensures id in PackageIds(found)
    {
      var i :| 0 <= i < |processors| && processors[i].entry.Some? && processors[i].entry.value.socket == id;
      assert Online(found[processors[i].osId]);
    }
  }

  lemma DiscoveryCountsPackages(present: nat, processors: seq<Processor>, topology: seq<Entry>, refCore: seq<int>)
    requires ValidProcessors(present, processors) && Discovered(Populated(present, processors), topology, refCore)
    ensures PackagesRead(processors) == {} ==> |refCore| == 1 && CountOnline(refCore) == 0
    ensures PackagesRead(processors) != {} ==> CountOnline(refCore) == |refCore| == |PackagesRead(processors)|
  {
    var found := Populated(present, processors);
    PackagesAreThoseRead(present, processors);
    AllSocketsOnline(present, processors, topology, refCore);
    ReachableProcessorsAreOnline(present, processors);
    if Reachable(processors) > 0 {
      var c := Member(OnlineCores(found));
      assert found[c].socket in PackageIds(found);
    }
    if PackagesRead(processors) != {} {
      var id := Member(PackageIds(found));
      var c :| 0 <= c < |found| && Online(found[c]) && found[c].socket == id;
      assert c in OnlineCores(found);
    }
  }

  /** What discovery leaves, in terms of the processors alone: who is online and where,
      the sockets and their order, the reference cores, and how many sockets there are and
      are online. */
  ghost predicate Represents(present: nat, processors: seq<Processor>, topology: seq<Entry>, refCore: seq<int>) {
    && ReadableAreKept(processors, topology) && OthersAreOffline(present, processors, topology)
    && SharesSocketsByPackage(processors, topology) && ReadableHaveReferences(processors, topology, refCore)
    && (PackagesRead(processors) == {} ==> |refCore| == 1 && CountOnline(refCore) == 0)
    && (PackagesRead(processors) != {} ==> CountOnline(refCore) == |refCore| == |PackagesRead(processors)|)
  }

  lemma DiscoveryRepresents(present: nat, processors: seq<Processor>, topology: seq<Entry>, refCore: seq<int>)
    requires ValidProcessors(present, processors) && Discovered(Populated(present, processors), topology, refCore)
    ensures Represents(present, processors, topology, refCore)
  {
    DiscoveryKeepsProcessors(present, processors, topology, refCore);
    DiscoveryCountsPackages(present, processors, topology, refCore);
  }

  class Pcm {
    var numCores: int
    var numOnlineCores: nat
    var numSockets: nat
    var numOnlineSockets: nat
    var topology: seq<Entry>
    var socketRefCore: seq<int>

    constructor ()
      ensures numCores == 0 && numOnlineCores == 0 && numSockets == 0 && topology == [] && socketRefCore == []
    {
      numCores, numOnlineCores, numSockets, numOnlineSockets := 0, 0, 0, 0;
      topology, socketRefCore := [], [];
    }

    method DiscoverSystemTopology(present: nat, processors: seq<Processor>)
      requires ValidProcessors(present, processors)
      requires numSockets == 0 && numOnlineCores == 0 && socketRefCore == []
      modifies this
      ensures numCores == present
      ensures Discovered(Populated(present, processors), topology, socketRefCore)
      ensures Represents(present, processors, topology, socketRefCore)
      ensures numSockets == |socketRefCore| && numOnlineSockets == CountOnline(socketRefCore)
      ensures numOnlineCores == if Reachable(processors) == 0 then present else Reachable(processors)
    {
      BuildTopology(present, processors);
      DiscoveryRepresents(present, processors, topology, socketRefCore);
    }

    method BuildTopology(present: nat, processors: seq<Processor>)
      requires ValidProcessors(present, processors)
      requires numSockets == 0 && numOnlineCores == 0 && socketRefCore == []
      modifies this
      ensures numCores == present
      ensures Discovered(Populated(present, processors), topology, socketRefCore)
      ensures numSockets == |socketRefCore| && numOnlineSockets == CountOnline(socketRefCore)
      ensures numOnlineCores == if Reachable(processors) == 0 then present else Reachable(processors)
    {
      Populate(present, processors);
      RenumberSockets();
      if numOnlineCores == 0 {
        numOnlineCores := numCores;
      }
      ElectReferenceCores();
      CountOnlineSockets();
    }

    /** The block that makes the socket numbers dense. */
    method RenumberSockets()
      requires numCores == |topology|
      modifies this`numSockets, this`topology
      ensures topology == Renumbered(old(topology))
      ensures numSockets == if PackageIds(old(topology)) == {} then 1 else |PackageIds(old(topology))|
      ensures SocketsInRange(topology, numSockets)
    {
      RenumberedIsInRange(topology);
      var ids := PackageIds(topology);
      numSockets := if |ids| > 1 then |ids| else 1;
      var socketIdMap := NumberSockets(ids);
      Renumber(socketIdMap);
    }

    /** The loop over /proc/cpuinfo. */
    method Populate(present: nat, processors: seq<Processor>)
      requires ValidProcessors(present, processors) && numOnlineCores == 0
      modifies this`numCores, this`numOnlineCores, this`topology
      ensures numCores == present && topology == Populated(present, processors)
      ensures HoldsEntries(processors, topology) && OthersAreOffline(present, processors, topology)
      ensures numOnlineCores == Reachable(processors)
    {
      numCores := present;
      topology := seq(present, _ => OFFLINE);
      for p := 0 to |processors|
        invariant numCores == present && topology == Populated(present, processors[..p])
        invariant numOnlineCores == Reachable(processors[..p])
      {
        assert processors[..p + 1][..p] == processors[..p];
        if processors[p].entry.Some? {
          topology := topology[processors[p].osId := processors[p].entry.value];
          numOnlineCores := numOnlineCores + 1;
        }
      }
      assert processors[..|processors|] == processors;
      EntriesArePlaced(present, processors);
    }

    /** Walking the ordered map of package ids and handing out 0, 1, 2, ... */
    method NumberSockets(ids: set<int>) returns (socketIdMap: map<int, nat>)
      ensures socketIdMap.Keys == ids && forall id :: id in ids ==> socketIdMap[id] == Rank(ids, id)
    {
      socketIdMap := map[];
      var rest, sid := ids, 0;
      while rest != {}
        invariant Numbered(ids, rest, socketIdMap, sid)
        decreases |rest|
      {
        var id := Least(rest);
        NumberedNext(ids, rest, socketIdMap, sid, id);
        socketIdMap := socketIdMap[id := sid];
        rest, sid := rest - {id}, sid + 1;
      }
    }

    method Renumber(socketIdMap: map<int, nat>)
      requires numCores == |topology|
      requires socketIdMap.Keys == PackageIds(topology)
      requires forall id :: id in socketIdMap ==> socketIdMap[id] == Rank(PackageIds(topology), id)
      modifies this`topology
      ensures topology == Renumbered(old(topology))
    {
      ghost var found := topology;
      for i := 0 to |topology|
        invariant |topology| == |found|
        invariant forall j :: 0 <= j < i ==> topology[j] == Renumbered(found)[j]
        invariant forall j :: i <= j < |found| ==> topology[j] == found[j]
      {
        if Online(topology[i]) {
          assert found[i].socket in PackageIds(found);
          topology := topology[i := topology[i].(socket := socketIdMap[topology[i].socket])];
        }
      }
    }

    method ElectReferenceCores()
      requires numCores == |topology|
      requires SocketsInRange(topology, numSockets)
      modifies this`socketRefCore
      ensures |socketRefCore| == numSockets
      ensures AreReferenceCores(topology, |topology|, socketRefCore)
    {
      socketRefCore := seq(numSockets, _ => -1);
      for i := 0 to |topology|
        invariant |socketRefCore| == numSockets
        invariant AreReferenceCores(topology, i, socketRefCore)
      {
        if Online(topology[i]) {
          socketRefCore := socketRefCore[topology[i].socket := i];
        }
      }
    }

    method CountOnlineSockets()
      requires numSockets == |socketRefCore|
      modifies this`numOnlineSockets
      ensures numOnlineSockets == CountOnline(socketRefCore)
    {
      numOnlineSockets := 0;
      for s := 0 to numSockets
        invariant numOnlineSockets == CountOnline(socketRefCore[..s])
      {
        assert socketRefCore[..s + 1][..s] == socketRefCore[..s];
        if socketRefCore[s] != -1 {
          numOnlineSockets := numOnlineSockets + 1;
        }
      }
      assert socketRefCore[..numSockets] == socketRefCore;
    }
  }

  // ------------------------------------------------- processors and online cores

  function OnlineCores(topology: seq<Entry>): set<nat> {
    set c: nat | c < |topology| && Online(topology[c])
  }

  function ReachableIds(processors: seq<Processor>): set<nat> {
    set i | 0 <= i < |processors| && processors[i].entry.Some? :: processors[i].osId
  }

  lemma OneMoreReachable(front: seq<Processor>, last: Processor)
    ensures ReachableIds(front + [last]) == ReachableIds(front) + if last.entry.Some? then {last.osId} else {}
  {
    var processors := front + [last];
    forall id | id in ReachableIds(front)
      ensures id in ReachableIds(processors)
    {
      var i :| 0 <= i < |front| && front[i].entry.Some? && front[i].osId == id;
      assert processors[i] == front[i];
    }
    if last.entry.Some? {
      assert processors[|front|] == last;
    }
  }

  lemma OnlineCoresAreReachable(present: nat, processors: seq<Processor>)
    requires ValidProcessors(present, processors)
    ensures OnlineCores(Populated(present, processors)) == ReachableIds(processors)
  {
    var found := Populated(present, processors);
    EntriesArePlaced(present, processors);
    forall c | c in OnlineCores(found)
      ensures c in ReachableIds(processors)
    {
      assert IsReadable(processors, c);
    }
    forall c | c in ReachableIds(processors)
      ensures c in OnlineCores(found)
    {
      var i :| 0 <= i < |processors| && processors[i].entry.Some? && processors[i].osId == c;
      assert found[c] == processors[i].entry.value;
    }
  }

  lemma {:induction false} EachIsCountedOnce(processors: seq<Processor>)
    requires forall i, j :: 0 <= i < j < |processors| ==> processors[i].osId != processors[j].osId
    ensures |ReachableIds(processors)| == Reachable(processors)
  {
    if processors != [] {
      var front, last := processors[..|processors| - 1], processors[|processors| - 1];
      EachIsCountedOnce(front);
      assert processors == front + [last];
      OneMoreReachable(front, last);
      assert last.osId !in ReachableIds(front);
    }
  }

  /** The online cores are the processors that could be read, each counted once. */
  lemma ReachableProcessorsAreOnline(present: nat, processors: seq<Processor>)
    requires ValidProcessors(present, processors)
    ensures OnlineCores(Populated(present, processors)) == ReachableIds(processors)
    ensures |OnlineCores(Populated(present, processors))| == Reachable(processors)
  {
    OnlineCoresAreReachable(present, processors);
    EachIsCountedOnce(processors);
  }

  /** After discovery with at least one processor that could be read, every socket
      is online and the sockets are as many as the package ids; with none, there is
      one socket and it is offline. */
  lemma AllSocketsOnline(present: nat, processors: seq<Processor>, topology: seq<Entry>, refCore: seq<int>)
    requires ValidProcessors(present, processors) && Discovered(Populated(present, processors), topology, refCore)
    ensures Reachable(processors) > 0 ==>
      CountOnline(refCore) == |refCore| == |PackageIds(Populated(present, processors))|
    ensures Reachable(processors) == 0 ==> |refCore| == 1 && CountOnline(refCore) == 0
  {
    var found := Populated(present, processors);
    ReachableProcessorsAreOnline(present, processors);
    EverySocketIsOnline(found, topology, refCore);
    if Reachable(processors) > 0 {
      var c := Member(OnlineCores(found));
      assert found[c].socket in PackageIds(found);
    } else {
      CountOfAll(refCore);
      assert forall c :: 0 <= c < |found| && Online(found[c]) ==> c in OnlineCores(found);
      assert PackageIds(found) == {};
    }
  }
}
