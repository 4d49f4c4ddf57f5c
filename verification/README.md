# Counter collection of Intel PCM, modelled and proved

This project models the counter-collection engine of the Intel Performance Counter
Monitor library in `tools/pcm/src`, and two small controllers that go with it, and
proves properties of the model. Register contents are values that the model is given:
a read finds a value, a write updates a word or a record. `uint64` counters wrap
around, and the sums below are sums modulo 2^64.

Check everything with `dafny verify dfyconfig.toml`.

## What the modules model

- `SharedMemory`, `CoreTaskQueues`: threads with load, store and atomic-add
  instructions; the per-core task queues (mutex, condition variable, spurious wakeups)
  and the caller that pushes tasks and waits for them, as a step system.
- `CounterStates`, `Snapshot`, `Aggregation`: the members of the counter states and
  the code that reads registers into them; `getAllCounterStates` on top of the task
  queues; the fold of cores into sockets and sockets into the system; the direct
  getters. The main result is that for fixed register values every interleaving
  followed by the fold gives what the direct getters give.
- `SnapshotContents`, `DirectContents`: every member of the states that the snapshot and
  the direct getters return, in terms of the register values, and on which worker each
  register is read.
- `Topology`, `DiscoveredSystem`, `ApicId`: topology discovery, renumbering and
  reference-core election; that it establishes what the collection relies on; the
  decomposition of APIC ids into domains.
- `AsynchronSampler`: the background sampler with its two buffers and one mutex, at
  the granularity of single assignments.
- `TopDown`: the accumulation of top-down slots and the ratios derived from them.
- `Rdt`: RMID allocation and the two RDT registers of a core.
- `UncoreUnits`, `UncorePmu`, `ServerUncorePmus`, `PerfLayout`, `ImcChannels`,
  `IdxFilter`: flat unit numbers, the freeze and release protocol, snapshots between
  freeze and unfreeze, disabled links, the layout of perf read buffers, memory
  channels of controllers, packed filter words.
- `PciCapabilities`, `UncoreGovernor`, `RaplPowerLimit`: the PCI capability walk, the
  GPU-driven uncore frequency controller, the RAPL power limit word.
- `Words`, `Bits`, `Sets`, `Options`: wrapping arithmetic, bit slices, helpers.

## Where the code falls short of what one would expect

The model follows the code; the members named here say exactly when.

- Top-down slots: when all level-1 metrics of a read are zero the raw bytes are
  delivered instead of the accumulators, so a delivered value can go back
  (`TopDown.DeliveredNeverDecreasesExactlyWhen`, `TopDown.IntervalGrowsExactlyWhen`,
  `TopDown.DeliveredCanDecrease`), and the slots of that read belong to no category
  (`TopDown.AccumulatorsCoverTheSlots`). In a socket or the system one core that falls
  silent in this way makes core-bound, light-operation and similar values negative while
  others go on (`TopDown.StateRatiosInRangeExactlyWhen`,
  `TopDown.LightOperationsCanBeNegative`); the code subtracts `uint64` values and gets a
  huge number instead, or stops at the assertions of `getAllSlots` where they are enabled.
- APIC ids: with shifts that do not increase, slices overlap and the id is not rebuilt
  (`ApicId.RebuildsExactlyWhenIncreasing`); ids still identify the processor
  (`ApicId.SameIdsSameProcessor`). With assertions enabled such shifts may stop the
  program in `build_bit_ui`; the model follows the build without them.
- RMIDs: they repeat beyond 1024 cores per socket, leave the supported range when a
  socket has more cores than RMIDs, and reach 0
  (`Rdt.RmidsAreDistinctExactlyWhen` and the two lemmas after it). `initQOSevent`
  clears four bits of an eight-bit field, so an event above 15 spoils later ones
  (`Rdt.NextEventIsRecordedExactlyWhen`, `Rdt.LargeEventIsNotCleared`). The library sets
  the events 1, 2 and 3 (`cpucounters.cpp:5170-5171`, `width_extender.h:72-82` and
  `width_extender.h:95-105`) and so never meets this.
- System state: sockets without a reference core are part of the snapshot but not of
  the direct read (`Aggregation.SystemAgreesExactlyWhen`); discovery leaves none.
- L3 occupancy: the snapshot sums it over the cores, the direct getters keep that of the
  last core (`DirectContents.OccupancyAgreesExactlyWhen`).
- Power planes: the fold into the system leaves them out, so the snapshot shows 0 where the
  direct read shows socket 0's (`DirectContents.PowerPlaneAgreesExactlyWhen`).
- Sampler: until two rounds have completed the system getters pair a default-constructed
  state (`AsynchronSampler.EarlySystemGetterSeesDefault`).
- PCI: the capability walk opens the function in PCI domain 0
  (`PciCapabilities.LinkInfoIsOwnExactlyInDomainZero`,
  `PciCapabilities.LinkInfoOfTheNamesake`); on a cyclic list it does not terminate
  (`PciCapabilities.TerminatesExactlyWhenAcyclic`,
  `PciCapabilities.SelfLinkedNeverTerminates`).
- Perf counters: a core counter state takes all generic counters the processor has; with
  top-down events open, those not in use show top-down counts
  (`PerfLayout.UnusedCountersReadZeroExactlyWhen`).
- Uncore PMU: without an event list, or with `extra` 0, a frozen box is not released
  (`UncorePmu.ReleasedExactlyWhen`).
- Governor: the threshold on the command line never reaches the controller, which uses
  100 W (`UncoreGovernor.RequestIsHonouredExactlyWhen`,
  `UncoreGovernor.DefaultOptionIsNotHonoured`).
- Memory channels: `initPerf` gives each controller an equal share rounded down, which
  leaves channels out unless it divides evenly
  (`ImcChannels.EqualSharesPartitionExactlyWhen`).
- RAPL: a set point of 2^15 or more is cut to its low 15 bits
  (`RaplPowerLimit.LastLimitIsRead`).

## Model

| member | source | states |
|---|---|---|
| CoreTaskQueues.EveryScheduleIsSerial | tools/pcm/src/cpucounters.cpp:2622-2660 | for race-free tasks, every interleaving of the workers, the caller and spurious wakeups that reaches the end of the waits leaves the memory that running the tasks one after another leaves |
| CoreTaskQueues.EveryTaskRunsOnceInPushOrder | tools/pcm/src/cpucounters.cpp:3479-3505 | whatever the tasks do, racing or not: at every reachable point each worker has started a prefix of the tasks pushed to its queue, in push order and none twice; when the caller returns all of them have run |
| CoreTaskQueues.PushedToIncreases | tools/pcm/src/cpucounters.cpp:3483-3494 | the tasks pushed to a queue are exactly those for its core, each once, in push order |
| CoreTaskQueues.NoLostWakeup | tools/pcm/src/cpucounters.cpp:2638-2659 | a waiting worker that has not been notified has an empty queue, except between push and notify_one, when the caller holds that queue's mutex |
| CoreTaskQueues.NoDeadlock | tools/pcm/src/cpucounters.cpp:6351-6390 | whatever the tasks do, until the caller returns some thread can take a step other than a spurious wakeup, also when one core has been given several tasks |
| CoreTaskQueues.SchedulesAreBounded | tools/pcm/src/cpucounters.cpp:3483-3499 | whatever the tasks do, the length of a schedule is bounded by the work at the start and the number of spurious wakeups, so the waits end under every scheduler with finitely many of them |
| CoreTaskQueues.StepKeepsInv | tools/pcm/src/cpucounters.cpp:2622-2660 | every step of any thread keeps the invariant on queues, tasks and caller |
| CoreTaskQueues.StepKeepsSerialInv | tools/pcm/src/cpucounters.cpp:6351-6390 | for race-free tasks every step also keeps the memory equal to what the instructions executed so far give in push order |
| SharedMemory.StepKeepsSerial | tools/pcm/src/cpucounters.cpp:6351-6390 | one instruction executed out of order by a race-free thread has the effect it has in the serial execution |
| SharedMemory.ExecsCommute | tools/pcm/src/cpucounters.cpp:6078-6091 | two compatible instructions commute: different locations, or two atomic additions with wrap-around |
| CounterStates.CoreCountersAreNumbered | tools/pcm/src/cpucounters.h:2806-2832 | the enumeration of the additive members of BasicCounterState is complete and free of repetitions |
| CounterStates.SocketCountersAreNumbered | tools/pcm/src/cpucounters.h:3336-3353 | the same for UncoreCounterState |
| CounterStates.BasicReadAdds | tools/pcm/src/cpucounters.cpp:5198-5232 | one core read adds that core's reading to each summed member of the destination record and touches no other record |
| CounterStates.SocketReadAdds | tools/pcm/src/cpucounters.cpp:5929-6053 | one socket read adds that socket's reading to each uncore member of the destination and touches no other record and no package C-state |
| CounterStates.PackageEffect | tools/pcm/src/cpucounters.cpp:6078-6091 | the atomic C-state additions change exactly the package C-state members of one record, each by its reading |
| Snapshot.TasksKeepToTheirOwn | tools/pcm/src/cpucounters.cpp:6353-6383 | a core task touches only coreStates[core] and, atomically, the package C-states of its socket; a socket task touches only the other members of its socketStates entry |
| Snapshot.CallIsRaceFree | tools/pcm/src/cpucounters.cpp:6351-6390 | no two tasks of one call race, nor a task with the caller's own reads |
| Snapshot.AnyInterleavingReadsTheSame | tools/pcm/src/cpucounters.cpp:6335-6390 | for fixed register values every interleaving ends with the core, socket and system states that the tasks leave when run one after another; `SnapshotContents` says what these are, member by member |
| Aggregation.TaskAddsItsShare | tools/pcm/src/cpucounters.cpp:6353-6383 | what one task adds to any summed location |
| Aggregation.CollectedValues | tools/pcm/src/cpucounters.cpp:6351-6390 | the states after the waits in closed form, with and without readAndAggregateSocketUncoreCounters |
| Aggregation.AddAssign | tools/pcm/src/cpucounters.h:2860-2898 | operator += adds exactly the summed members of the source record and leaves every other location alone |
| Aggregation.AggregateStates | tools/pcm/src/cpucounters.cpp:6392-6402 | the two loops fold online cores into sockets and sockets into the system |
| Aggregation.SnapshotValues | tools/pcm/src/cpucounters.cpp:6392-6402 | with or without the uncore reads, after the fold each socket is the sum over its online cores (and its own registers, if read) and the system is the sum over the sockets, modulo 2^64 |
| Aggregation.SnapshotWithoutUncore | tools/pcm/src/cpucounters.cpp:6351-6402 | called without the uncore reads the snapshot has the same core counters for sockets and system, and 0 for the package C-states and the per-socket counters |
| Aggregation.GetSystemCounterState | tools/pcm/src/cpucounters.cpp:5839-5863 | the two loops of the direct system read; in closed form, every additive field of the result is the sum over the online cores, or over the sockets with a reference core for the per-socket fields |
| Aggregation.GetSocketCounterState | tools/pcm/src/cpucounters.cpp:6315-6333 | the loop and the socket read: every additive field of the result is the sum over the online cores of that socket, or its own register for the per-socket fields |
| Aggregation.CoresArePartitioned | tools/pcm/src/cpucounters.cpp:6392-6402 | summing socket by socket counts every online core exactly once |
| Aggregation.SocketSnapshotIsDirectRead | tools/pcm/src/cpucounters.cpp:6315-6402 | for every additive field a socket's state from the snapshot equals the direct read of that socket |
| Aggregation.SystemSnapshotIsDirectRead | tools/pcm/src/cpucounters.cpp:5839-5863 | the snapshot's system value is the direct read plus what sockets without reference core read, so they are equal exactly when that is 0, in particular when every socket has a reference core |
| Aggregation.SystemAgreesExactlyWhen | tools/pcm/src/cpucounters.cpp:5850-5857 | for a per-socket field the snapshot and the direct system read agree for all register values if and only if every socket has a reference core; per-core fields always agree |
| Aggregation.ReadReferenceCores | tools/pcm/src/cpucounters.cpp:6413-6423 | the first loop of getUncoreCounterStates reads one time stamp per reference core and each socket's uncore counters |
| Aggregation.FoldReferenceCores | tools/pcm/src/cpucounters.cpp:6427-6440 | its second loop adds the reference core's record once per online core of the socket |
| Aggregation.UncoreStatesAgreeWithSnapshot | tools/pcm/src/cpucounters.cpp:6405-6441 | when all cores of a socket read one time stamp, getUncoreCounterStates and getAllCounterStates agree on it and on the uncore counters, for each socket and the system |
| Aggregation.GetUncoreCounterStates | tools/pcm/src/cpucounters.cpp:6405-6441 | the whole call delivers those values, and in each socket's state the thermal headroom, the thermal MSRs and on socket 0 the power planes |
| DiscoveredSystem.DiscoveryEstablishesRefCores | tools/pcm/src/cpucounters.cpp:1429-1447 | topology discovery with at least one readable processor establishes what the collection relies on: every socket has an online reference core of its own |
| DiscoveredSystem.SnapshotIsDirectRead | tools/pcm/src/cpucounters.cpp:6335-6403 | on such a machine, for every interleaving of the workers and the caller, the folded system and socket states equal the direct reads |
| SnapshotContents.CoreStatesReturned | tools/pcm/src/cpucounters.cpp:6335-6403 | whatever the interleaving, when the call returns coreStates[c] of an online core holds that core's reading in every member, L3 occupancy, thermal headroom and all configured MSRs included, and of an offline core zeros |
| SnapshotContents.SocketStatesReturned | tools/pcm/src/cpucounters.cpp:6335-6403 | every member of socketStates[s]: sums over its online cores (L3 occupancy and bandwidth too), package C-states, uncore counters, headroom, MSRs and on socket 0 the power planes, the last five 0 without the uncore reads |
| SnapshotContents.SystemStateReturned | tools/pcm/src/cpucounters.cpp:6335-6403 | every member of systemState: sums over all online cores, over all sockets, the registers the caller reads itself, and the default where no operator += sums |
| SnapshotContents.TasksRunOnTheirCores | tools/pcm/src/cpucounters.cpp:6346-6378 | when the call returns the task of core c has run on the worker of core c and no other, that of a socket on its reference core, or on core 0 without one |
| SnapshotContents.KindsHave | tools/pcm/src/cpucounters.cpp:6346-6378 | there is a task for exactly the online cores, and with the uncore reads for every socket |
| DirectContents.DirectSocketContent | tools/pcm/src/cpucounters.cpp:6315-6333 | the members of a direct socket read that are not sums: L3 occupancy of its last online core, headroom and thermal MSRs of the package, MSRs of the last core, on socket 0 the power planes |
| DirectContents.DirectSystemContent | tools/pcm/src/cpucounters.cpp:5839-5863 | the same for a direct system read, whose headroom is the default |
| DirectContents.OccupancyAgreesExactlyWhen | tools/pcm/src/cpucounters.h:2873 | snapshot and direct system read show the same L3 occupancy for all readings if and only if at most one core is online: one sums, the other keeps the last |
| DirectContents.PowerPlaneAgreesExactlyWhen | tools/pcm/src/cpucounters.h:3384-3407 | they show the same energy of a power plane if and only if socket 0 reads 0 or has no reference core: the fold leaves the planes out |
| AsynchronSampler.BuffersAreConsistentUnderTheMutex | tools/pcm/src/cpuasynchcounter.h:187-210 | at every reachable point at which the writer does not hold the mutex, all cores and sockets, and after two rounds the system, hold the readings of the same two consecutive rounds |
| AsynchronSampler.GettersReturnConsecutiveRounds | tools/pcm/src/cpuasynchcounter.h:106-184 | every pair a getter has returned is from rounds k-1 and k, and later getters never see older rounds |
| AsynchronSampler.GettersReturnWhatWasAskedFor | tools/pcm/src/cpuasynchcounter.h:106-184 | over any schedule each call that returned has left exactly one result, in order: the readings of the slot it asked for, of the last completed round and the one before |
| AsynchronSampler.EarlySystemGetterSeesDefault | tools/pcm/src/cpuasynchcounter.h:168-184 | a system getter sees a default-constructed before state exactly if fewer than two rounds have completed |
| AsynchronSampler.CounterBuffers.constructor | tools/pcm/src/cpuasynchcounter.h:42-69 | the buffers start with two readings of every core and socket and default system states |
| AsynchronSampler.CounterBuffers.UpdateCounters | tools/pcm/src/cpuasynchcounter.h:191-206 | one pass moves the whole after buffer into the before buffer and replaces it by the new round |
| Topology.RenumberingIsOrderIsomorphism | tools/pcm/src/cpucounters.cpp:1383-1407 | renumbering is an order-preserving bijection from the package ids onto 0..n-1; two online cores share a socket afterwards exactly if they did before |
| Topology.AllSocketsOnline | tools/pcm/src/cpucounters.cpp:1379-1447 | with a readable processor num_online_sockets equals num_sockets, the number of package ids; with none there is one offline socket |
| Topology.EverySocketIsOnline | tools/pcm/src/cpucounters.cpp:1429-1447 | all sockets are online exactly if some core is |
| Topology.ReachableProcessorsAreOnline | tools/pcm/src/cpucounters.cpp:1254-1277 | the online cores are the processors that could be read, each counted once in num_online_cores |
| Topology.RankIsOnto | tools/pcm/src/cpucounters.cpp:1383-1389 | every number below the number of package ids is some package's logical number |
| Topology.Pcm.DiscoverSystemTopology | tools/pcm/src/cpucounters.cpp:1245-1447 | the whole discovery in terms of the processors alone: readable ones online with their ids at their index, all others offline, sockets shared exactly by equal package ids and ordered like them, the highest-numbered core of each as its reference core, and the counts |
| Topology.Pcm.Populate | tools/pcm/src/cpucounters.cpp:1254-1277 | every processor that could be read has exactly its entry at its index, all other indices are offline |
| Topology.DiscoveryRepresents | tools/pcm/src/cpucounters.cpp:1245-1447 | any topology and reference cores that discovery leaves have that form |
| Topology.EntriesArePlaced | tools/pcm/src/cpucounters.cpp:1270-1271 | the entries found are the ones read, index by index |
| Topology.Pcm.NumberSockets | tools/pcm/src/cpucounters.cpp:1383-1389 | walking the ordered map hands each package id the number of smaller ones |
| Topology.Pcm.Renumber | tools/pcm/src/cpucounters.cpp:1402-1407 | online cores get their logical socket, offline ones are left alone |
| Topology.Pcm.ElectReferenceCores | tools/pcm/src/cpucounters.cpp:1431-1438 | socketRefCore[s] is the highest-numbered online core of socket s, or -1 |
| Topology.Pcm.CountOnlineSockets | tools/pcm/src/cpucounters.cpp:1440-1447 | num_online_sockets counts the sockets with a reference core |
| ApicId.ReadDomains | tools/pcm/src/cpucounters.cpp:1051-1079 | the list of reported domains, each starting where the previous ends, closed by the package domain up to bit 32 |
| ApicId.MapDomains | tools/pcm/src/cpucounters.cpp:1080-1082 | the map by type; a later domain of the same type wins |
| ApicId.LastOfTypeWins | tools/pcm/src/cpucounters.cpp:1080-1082 | the map has exactly the reported types, each with the last domain of that type |
| ApicId.DomainOfType | tools/pcm/src/cpucounters.cpp:1107-1119 | with distinct types the map finds each domain under its own type |
| ApicId.DomainIDIsSlice | tools/pcm/src/cpucounters.cpp:1109-1119 | an id is the slice of the APIC id between the domain's shifts when they increase; otherwise extract_bits_ui reads the reversed or cut-off range |
| ApicId.ExtractedSlice | tools/pcm/src/types.h:1465-1484 | extract_bits_ui takes its bounds in either order, gives the slice between them and cuts off at bit 31 |
| ApicId.MissingDomain | tools/pcm/src/cpucounters.cpp:1109-1118 | a domain that is not reported has id 0 |
| ApicId.SameIdsSameProcessor | tools/pcm/src/cpucounters.cpp:1107-1130 | equal ids in every domain imply the same APIC id, for any shifts whatever |
| ApicId.RebuildsExactlyWhenIncreasing | tools/pcm/src/cpucounters.cpp:1051-1119 | shifting the ids back and adding them rebuilds every APIC id if and only if the shifts are strictly increasing from above 0, the package domain included |
| ApicId.IncreasingShifts | tools/pcm/src/cpucounters.cpp:1064-1077 | that condition in terms of the CPUID sub-leaves alone |
| ApicId.OnesRebuildTooMuch | tools/pcm/src/types.h:1441-1484 | otherwise the all-ones id is rebuilt too large |
| TopDown.RawFindsEveryByte | tools/pcm/src/cpucounters.cpp:5129-5139 | decoding PERF_METRICS finds each metric in its byte, level 2 only where supported |
| TopDown.Pcm.ReadSlots | tools/pcm/src/cpucounters.cpp:5121-5158 | one locked read advances that core's nine accumulators and delivers them, or the raw bytes when the level-1 metrics are all zero |
| TopDown.SharesUseUpTheSlots | tools/pcm/src/cpucounters.cpp:5140-5146 | the four level-1 shares of one read add up to the slots, or up to three less |
| TopDown.AccumulatorsCoverTheSlots | tools/pcm/src/cpucounters.cpp:5140-5155 | over any run the level-1 sum plus the slots of all-zero reads is at most AllSlotsRaw and lags it by at most three per other read |
| TopDown.AccumulatorsAreClose | tools/pcm/src/cpucounters.cpp:5143-5146 | each of the eight accumulators is below its exact rational count, metric times slots over the level-1 sum, by at most one slot per read with metrics, never above |
| TopDown.AllSlotsAreCounted | tools/pcm/src/cpucounters.cpp:5155 | AllSlotsRaw is the sum of the slots of all reads |
| TopDown.DeliveredValues | tools/pcm/src/cpucounters.cpp:5140-5158 | what a read delivers in each category: the accumulator, or its own byte if the level-1 metrics are all zero |
| TopDown.AccumulatorsNeverDecrease | tools/pcm/src/cpucounters.cpp:5140-5155 | no accumulator ever decreases |
| TopDown.AccumulatorsGrow | tools/pcm/src/cpucounters.cpp:5140-5155 | if no level-2 byte exceeds its parent's, no level-2 accumulator grows by more than its parent between any two points of a run |
| TopDown.GrowsAdds | tools/pcm/src/cpucounters.h:2878-2886 | operator += keeps that relation between two records for which it holds |
| TopDown.DeliveredNeverDecreasesExactlyWhen | tools/pcm/src/cpucounters.cpp:5140-5155 | a delivered level-1 value does not go back between two reads if and only if the later read had nonzero metrics or the earlier value was 0 |
| TopDown.DeliveredCanDecrease | tools/pcm/src/cpucounters.cpp:5140-5155 | for any slots above 0, two concrete reads after which a delivered value has gone back to 0 |
| TopDown.RatiosPartition | tools/pcm/src/cpucounters.h:4714-4845 | the level-1 ratios add up to 1; every level-2 ratio and every rest lies between 0 and its parent |
| TopDown.RatiosByName | tools/pcm/src/cpucounters.h:4714-4840 | each of the eight ratios in terms of the members it is computed from |
| TopDown.RestsByName | tools/pcm/src/cpucounters.h:4757-4845 | each of the four rests in terms of its two ratios |
| TopDown.IntervalRatiosAreNonNegative | tools/pcm/src/cpucounters.h:4757-4845 | for the states of one core, over any interval that has slots, whatever its first read found, core-bound, fetch-bandwidth, machine-clear and light-operation values lie between 0 and their category, for metrics in which no level-2 byte exceeds its parent's |
| TopDown.IntervalGrowsExactlyWhen | tools/pcm/src/cpucounters.cpp:5140-5155 | for such metrics the delivered values of a core grow from one read to a later one, each level-2 value by no more than its parent, if and only if the later read had nonzero metrics or the earlier values were all 0 |
| TopDown.StatesGrowExactlyWhen | tools/pcm/src/cpucounters.cpp:6392-6402 | for such metrics and given which cores found any at the two reads, the summed states of any number of cores grow in this way whatever was read if and only if no core that had metrics at the first finds none at the second |
| TopDown.StateRatiosInRangeExactlyWhen | tools/pcm/src/cpucounters.h:4757-4845 | under the same assumptions all level-2 values and rests of a socket or the system lie between 0 and their category whatever was read, if and only if no core falls silent in this way or no core has metrics at the second read |
| TopDown.LightOperationsCanBeNegative | tools/pcm/src/cpucounters.h:4838-4845 | for any 0 < s < t, two cores whose sum over the interval has t - s slots and -s / (t - s) light operations |
| TopDown.StatesAppend | tools/pcm/src/cpucounters.cpp:6398-6402 | the state of several sockets, added up, is that of all their cores |
| Rdt.Pcm.InitRDT | tools/pcm/src/cpucounters.cpp:605-655 | every online core gets the next RMID of its socket, counting down from maxRMID - 1, in both registers; IA32_PQR_ASSOC keeps its upper half; offline cores keep both registers |
| Rdt.Pcm.InitQOSevent | tools/pcm/src/cpucounters.cpp:660-672 | other cores and offline cores keep their register; on an online core bits 8 to 63 stay, the low nibble becomes that of the event, and the second nibble has the event's bits added |
| Rdt.Pcm.CleanupRDT | tools/pcm/src/cpucounters.cpp:4731-4753 | every online core is back at RMID 0 and event 0 with the upper half of IA32_PQR_ASSOC kept |
| Rdt.HalvesInitialised | tools/pcm/src/cpucounters.cpp:605-655 | half by half: the RMID in the lower half of IA32_PQR_ASSOC and the upper half of IA32_QM_EVTSEL, no event below, the other half kept |
| Rdt.HalvesCleanedUp | tools/pcm/src/cpucounters.cpp:4731-4753 | half by half: no RMID and no event left, the upper half of IA32_PQR_ASSOC kept |
| Rdt.RmidReplacesLowHalf | tools/pcm/src/cpucounters.cpp:631-632 | the bitwise update keeps the upper half and puts the ten RMID bits below |
| Rdt.SmallEventReplacesNibble | tools/pcm/src/cpucounters.cpp:667-669 | an event below 16 replaces the low nibble and nothing else |
| Rdt.RmidsAreDistinctExactlyWhen | tools/pcm/src/cpucounters.cpp:612-655 | the online cores of a socket have distinct RMIDs if and only if there are at most 1024 of them |
| Rdt.RmidsExistExactlyWhen | tools/pcm/src/cpucounters.cpp:572-655 | all of them are below maxRMID if and only if maxRMID is at least 1024 or at least the number of online cores |
| Rdt.RmidZeroIsSparedExactlyWhen | tools/pcm/src/cpucounters.cpp:612-655 | none of them is 0 if and only if there are fewer online cores than maxRMID (for maxRMID up to 1024), with the condition for larger maxRMID |
| Rdt.RegisterHoldsLastEvent | tools/pcm/src/cpucounters.cpp:660-672 | after any sequence of events below 16 the register holds that RMID and exactly the last event |
| Rdt.RegisterAfterEvents | tools/pcm/src/cpucounters.cpp:660-672 | after any events whatever the register is the RMID, the union of the second nibbles of all events and the low nibble of the last |
| Rdt.NextEventIsRecordedExactlyWhen | tools/pcm/src/cpucounters.cpp:667-669 | every event of eight bits that comes next is recorded exactly if and only if no event before it used the second nibble; the events 1, 2 and 3 that the library sets do not |
| Rdt.LargeEventIsNotCleared | tools/pcm/src/cpucounters.cpp:667-669 | the concrete case: event 1 set after event 16 leaves 17 in the register |
| Rdt.UpperHalfSurvives | tools/pcm/src/cpucounters.cpp:4740-4744 | from initRDT to cleanupRDT the upper half of IA32_PQR_ASSOC is what it was |
| UncoreUnits.ReadUncoreCounterValues | tools/pcm/src/cpucounters.h:725-751 | a read finds every counter of every unit of every die of the socket, zeros for null pointers, and nothing for a missing socket |
| UncoreUnits.GetMaxNumOfUncorePMUs | tools/pcm/src/cpucounters.h:837-853 | the length of the die-by-die concatenation, 0 for a missing socket |
| UncoreUnits.FlatIsDieByDie | tools/pcm/src/cpucounters.h:3064-3073 | unit u of a die comes after all units of the dies before it, at that place of the concatenation |
| UncoreUnits.GetUncoreCounter | tools/pcm/src/cpucounters.h:3062-3080 | counting the unit number down die by die indexes the concatenation of the units both states have; past its end or past the last counter the result is 0 |
| UncoreUnits.GetUncoreCounterState | tools/pcm/src/cpucounters.cpp:9703-9726 | the wrapped sum of the counter over the non-null units of all dies |
| UncoreUnits.SameShapePairs | tools/pcm/src/cpucounters.h:3064-3073 | for two reads of the same PMUs those pairs are the two concatenations, unit by unit |
| UncoreUnits.NoSuchUnit | tools/pcm/src/cpucounters.h:3074-3080 | past the last unit and past the eighth counter the change is 0 |
| UncoreUnits.ReadIsFlat | tools/pcm/src/cpucounters.h:725-751 | flat unit by flat unit a read state holds what the registers held |
| UncoreUnits.UnitsAddUpToTheSocket | tools/pcm/src/cpucounters.cpp:9703-9726 | adding getUncoreCounter over all units up to getMaxNumOfUncorePMUs gives the change of getUncoreCounterState modulo 2^64 |
| UncorePmu.UncorePMU.InitFreeze | tools/pcm/src/cpucounters.cpp:9930-9967 | the writes of initFreeze on each layout, its result, and the loss of the unit control register when the read-back check fails |
| UncorePmu.UncorePMU.Program | tools/pcm/src/cpucounters.h:1205-1231 | the control register writes for the events that have a counter, then the reset if `extra` is not 0 |
| UncorePmu.UncorePMU.ResetUnfreeze | tools/pcm/src/cpucounters.cpp:9969-9982 | two writes on either layout: the first freezes the box and zeroes its counters, the second releases it, neither touches the event selections |
| UncorePmu.ResetZeroes | tools/pcm/src/cpucounters.cpp:9969-9982 | on a box: frozen with zero counters after the first write whatever happens in between, released with zero counters and the same selections by the second |
| UncorePmu.InitFreezes | tools/pcm/src/cpucounters.cpp:9930-9967 | initFreeze leaves the box frozen, event selection cleared on the newer layout and kept on the older |
| UncorePmu.FrozenUntilTheLastWrite | tools/pcm/src/cpucounters.cpp:9930-9982 | whatever the counters do between the writes, the box is frozen from its first freeze write until the last write of the protocol |
| UncorePmu.LastWriteReleases | tools/pcm/src/cpucounters.cpp:9969-9982 | the last write releases it with all counters zero and the chosen events programmed |
| UncorePmu.WithEventsAt | tools/pcm/src/cpucounters.h:1211-1225 | counter by counter: the event, with the enable bit on the older layout, or the start value without event or register |
| UncorePmu.ProgrammedWord | tools/pcm/src/cpucounters.h:1219-1224 | the control word is the event on the newer layout; on the older one bit 22 is set and all other bits are the event's |
| UncorePmu.CountersAreProgrammed | tools/pcm/src/cpucounters.h:1211-1225 | after the whole protocol every counter with register and event holds that word, the others 0 on the newer layout and their old word on the older |
| UncorePmu.EnabledBeforeTheEvent | tools/pcm/src/cpucounters.h:1219-1224 | on the older layout an event is only written to a counter right after the counter was enabled without one |
| UncorePmu.WordsWritten | tools/pcm/src/cpucounters.cpp:9918-9982 | the unit control words of initFreeze, freeze, unfreeze and resetUnfreeze as numbers |
| UncorePmu.ReleasedExactlyWhen | tools/pcm/src/cpucounters.h:1208-1230 | PCM::program releases a frozen box if and only if there is an event list and `extra` is not 0 |
| ServerUncorePmus.ServerUncorePMUs.FreezeCounters | tools/pcm/src/cpucounters.cpp:8710-8719 | the boxes are sent their freeze words one after another while time passes for all |
| ServerUncorePmus.ServerUncorePMUs.WordsByModel | tools/pcm/src/cpucounters.cpp:8710-8730 | the freeze and unfreeze words, with the reserved bit on Skylake servers |
| ServerUncorePmus.FreezingFreezes | tools/pcm/src/cpucounters.cpp:9918-9921 | at the moment of the last freeze write all boxes are frozen |
| ServerUncorePmus.ServerUncorePMUs.ReadFrozen | tools/pcm/src/cpucounters.cpp:6538-6576 | with the words freezeCounters and unfreezeCounters use on any model, every value read in between, in any order, is the one at that single moment; afterwards all boxes are released |
| ServerUncorePmus.Links.CleanupQPIHandles | tools/pcm/src/cpucounters.cpp:8366-8377 | terminates and leaves exactly the valid PMUs in their order |
| ServerUncorePmus.DisabledLinksDoNotRespond | tools/pcm/src/cpucounters.cpp:9944-9951 | the low 17 bits are compared, so a register that reads back 0 fails the check for both words in use |
| ServerUncorePmus.Links.ProgramXPI | tools/pcm/src/cpucounters.cpp:8346-8364 | what is left are the links whose read-back check passed, in their order and all with their unit control register; those were sent the whole protocol, the others one write |
| PerfLayout.CorePerf.ProgramMain | tools/pcm/src/cpucounters.cpp:3681-3817 | the fixed and the generic events in use form one group, in that order |
| PerfLayout.CorePerf.ProgramTopDown | tools/pcm/src/cpucounters.cpp:3870-3921 | the top-down events form a second group and get consecutive read positions in programming order |
| PerfLayout.Level1Events | tools/pcm/src/cpucounters.cpp:3870-3921 | without level 2 these are slots, front-end bound, bad speculation, back-end bound and retiring |
| PerfLayout.CorePerf.ReadPerfData | tools/pcm/src/cpucounters.cpp:5004-5011 | the reader finds fixed event i at i, generic event i at 3+i, and top-down event X at perfTopDownPos[X]; every slot after the generic counters in use is given too |
| PerfLayout.UnusedCountersReadZeroExactlyWhen | tools/pcm/src/cpucounters.cpp:5082-5085 | the generic counters that the reader takes but that are not in use read as 0, whatever was counted, if and only if there are none of them or no top-down events |
| PerfLayout.CorePerf.ProgramAndRead | tools/pcm/src/cpucounters.cpp:3681-3921 | programming and reading back agree on every event in use, at level 2 on every top-down event there is, for any number of generic counters up to 8 |
| ImcChannels.GetImcReads | tools/pcm/src/cpucounters.cpp:8403-8406 | the wrapped sum over all channels |
| ImcChannels.GetImcReadsForController | tools/pcm/src/cpucounters.cpp:8408-8418 | the sum over that controller's channels, those past the last PMU left out |
| ImcChannels.ControllersCoverAPrefix | tools/pcm/src/cpucounters.cpp:8408-8428 | together the controllers cover the channels below their total count, each once |
| ImcChannels.PartitionsExactlyWhen | tools/pcm/src/cpucounters.cpp:8403-8428 | per-controller reads add up to all reads for all counter values if and only if the channel counts add up to at least the number of PMUs |
| ImcChannels.ServerUncorePMUs.ScanPci | tools/pcm/src/cpucounters.cpp:7242-7258 | the PCI scan leaves as many PMUs as there are working channels, and per controller the number of its working channels, controllers without any left out |
| ImcChannels.WorkingIsTheNumber | tools/pcm/src/cpucounters.cpp:7250-7253 | that number counts each working channel once |
| ImcChannels.ServerUncorePMUs.AddMemBars | tools/pcm/src/cpucounters.cpp:7400-7410 | each memory BAR adds one controller and that many PMUs |
| ImcChannels.ServerUncorePMUs.AddDiscovered | tools/pcm/src/cpucounters.cpp:7416-7478 | every working box adds a PMU, then controllers of two channels are added until they reach the PMUs, at most one beyond |
| ImcChannels.ServerUncorePMUs.InitPerf | tools/pcm/src/cpucounters.cpp:8125-8137 | on top of Linux perf, as many controllers as m2m or ha units, each with the imc units divided by that number, rounded down |
| ImcChannels.EqualSharesPartitionExactlyWhen | tools/pcm/src/cpucounters.cpp:8132-8136 | then the per-controller reads add up to all reads for all counter values if and only if the controllers divide the channels evenly, or there are neither controllers nor channels |
| ImcChannels.ServerUncorePMUs.InitDirect | tools/pcm/src/cpucounters.cpp:7242-7478 | the PMUs and the channels per controller on each path of initDirect; on all of them the per-controller reads add up to all reads |
| IdxFilter.FilterRegister.Assign | tools/pcm/src/cpucounters.cpp:7879-7917 | an assignment changes its own field of the shared word and the unused upper bits, no other field; other filter numbers change nothing |
| IdxFilter.FieldOfNumber | tools/pcm/src/cpucounters.cpp:7892-7913 | which bits of the word each filter number stands for |
| IdxFilter.MaskOfNumber | tools/pcm/src/cpucounters.cpp:7892-7913 | how many bits of a value each filter number takes |
| IdxFilter.UpdatingOneField | tools/pcm/src/cpucounters.cpp:7892-7913 | a write sets its field to the masked value and leaves the other four alone |
| IdxFilter.FieldsAreIndependent | tools/pcm/src/cpucounters.cpp:7892-7917 | after any writes in any order each field holds the masked last value written to it, an unwritten one its start value |
| IdxFilter.WordRefinesFields | tools/pcm/src/cpucounters.cpp:7892-7917 | from the first write on the word is exactly the five fields packed, bits 60 to 63 zero |
| PciCapabilities.ProbeCapabilityPciExpress | tools/pcm/src/lspci.h:352-379 | the recursive walk terminates and sets link_info to the dword at +0x10 of the first reachable capability with id 0x10, or leaves it |
| PciCapabilities.CapabilityLayout | tools/pcm/src/lspci.h:352-376 | id in the first byte, next offset in the second, link registers 16 bytes on; the walk stops at id 16 or next 0 |
| PciCapabilities.SecondCapability | tools/pcm/src/lspci.h:367-379 | link_info of a list whose second capability is the PCI Express one |
| PciCapabilities.HeaderOfCapabilities | tools/pcm/src/lspci.h:388-400 | when the walk is started, in terms of the Header Type and Status registers |
| PciCapabilities.ProbePci | tools/pcm/src/lspci.h:381-413 | the header fields, the branches on header type and capability bit, and link_info from the walk, which opens domain 0 whatever the domain of the function |
| PciCapabilities.TerminatesExactlyWhenAcyclic | tools/pcm/src/lspci.h:352-379 | the walk terminates if and only if no offset repeats before it stops |
| PciCapabilities.SelfLinkedNeverTerminates | tools/pcm/src/lspci.h:370-373 | a capability whose next pointer is its own offset is such a list |
| PciCapabilities.AcyclicStops | tools/pcm/src/lspci.h:352-379 | an acyclic walk stops after at most 256 links |
| PciCapabilities.LinkInfoIsOwnExactlyInDomainZero | tools/pcm/src/lspci.h:367-379 | link_info is the link word of the probed function, whatever is in domain 0, if and only if the function is in domain 0 |
| PciCapabilities.LinkInfoOfTheNamesake | tools/pcm/src/lspci.h:368 | a concrete function in domain 1 for which probe_pci reports the link word of another function |
| UncoreGovernor.Governor.ScaleUncoreFreq | GPGPU/script/power_util/read_gpu_power.py:16-28 | the loop over one sample: flag and issued commands |
| UncoreGovernor.Governor.MonitorGpuPower | GPGPU/script/power_util/read_gpu_power.py:42-54 | the sampling loop: one row per sample, and flag and commands of the concatenated stream when scaling is enabled |
| UncoreGovernor.CommandsAlternate | GPGPU/script/power_util/read_gpu_power.py:11-28 | the commands strictly alternate, starting with 0.8 from the initial state, and the flag always matches the last one |
| UncoreGovernor.OneCommandPerFlip | GPGPU/script/power_util/read_gpu_power.py:16-28 | the number of commands equals the number of threshold flips in the stream |
| UncoreGovernor.RequestIsHonouredExactlyWhen | GPGPU/script/power_util/read_gpu_power.py:81-90 | the threshold given on the command line is never assigned to the one the controller uses: flags and commands are those asked for, after every prefix of the powers, if and only if no power lies between the two thresholds |
| UncoreGovernor.DefaultOptionIsNotHonoured | GPGPU/script/power_util/read_gpu_power.py:87 | with the option's own default of 70 a sample of 80 W should lower the frequency and does not |
| UncoreGovernor.FlagIsLastPower | GPGPU/script/power_util/read_gpu_power.py:16-28 | after a non-empty sample the flag says whether the last GPU drew at most the threshold |
| UncoreGovernor.ControllerGoesBy100W | GPGPU/script/power_util/read_gpu_power.py:12-28 | the controller's own threshold is 100 W, and at 100 W the frequency is high |
| RaplPowerLimit.LimitedWord | tools/RAPL/RaplSetPower.c:145-146 | the upper half stays, the limit is enabled, bits 16 to 31 hold 0xD, and the set point reads back exactly if it is below 2^15 |
| RaplPowerLimit.LastLimitIsRead | tools/RAPL/RaplSetPower.c:127-151 | after any sequence of calls the register decodes to exactly the last set point if and only if that is below 2^15 |
| RaplPowerLimit.UpperHalfStays | tools/RAPL/RaplSetPower.c:127-151 | bits 32 to 63 never change |

## Left out

- SnapshotContents.CoreStatesReturned: package C-states are not members of a core's state.
- Device access: MSR, PCI configuration space, MMIO, CPUID, perf system calls, sysfs
  and thread affinity are register values or parameters; errors of these calls are
  modelled only where the code branches on them.
- The worker's exception handler, queue destruction and process cleanup.
- CoreTaskQueues.EveryScheduleIsSerial: requires race-free tasks, so it says nothing about
  `program()`, whose tasks write `perfTopDownPos` and `core_global_ctrl_value` concurrently,
  all with the same value; the other results on the queues hold for that call too. A task's
  code is the sequence of instructions it executes in the run at hand.
- Snapshot.AnyInterleavingReadsTheSame: `checked_uint64` members are two words each, both added; the overflow correction of their subtraction is not part of this model.
- Aggregation.SystemSnapshotIsDirectRead: `L3Occupancy`, `ThermalHeadroom`, `PPEnergyStatus` and `MSRValues` are not plain sums; they are covered by `SnapshotContents` and `DirectContents` instead. What a direct read makes of memory bandwidth when some core's reading is invalid is not covered.
- The CXL and QPI counters that the system getters read after the cores and sockets, and
  the register numbers behind the uncore reads; `PCM_INVALID_THERMAL_HEADROOM` is
  represented by 0.
- AsynchronSampler.BuffersAreConsistentUnderTheMutex: the sampler's one-second sleep and its cancellation are not modelled; a round may start at any time.
- Topology.Pcm.DiscoverSystemTopology: `threads_per_core`, the physical core count, hybrid core types and the `SystemRoot` object are not modelled.
- `tile_id`, which comes from CPUID leaf 0xB first, and the older decomposition by mask
  widths, which is used without leaf 0x1F.
- TopDown.Pcm.ReadSlots: shares are exact rationals rounded down, not `double`; accumulators do not wrap.
- TopDown.LightOperationsCanBeNegative: differences are integers; the wrap-around of the code's `uint64` subtraction is not modelled.
- Rdt.Pcm.InitRDT: the resctrl path and the creation of the bandwidth counters are not modelled.
- `CounterWidthExtender::read`.
- PerfLayout.CorePerf.ReadPerfData: task mode, in which handles are read one by one and there are no top-down events, and a top-down setup without fixed counter 3 are not modelled.
- The status check behind `PCM_UNCORE_PMON_BOX_CHECK_STATUS`, which only prints.
- ServerUncorePmus.ServerUncorePMUs.ReadFrozen: PMUs without unit control register are excluded, since freezing them dereferences a null pointer.
- CPU-model tables, event codes and register addresses.
- UncoreGovernor.Governor.MonitorGpuPower: time stamps, the CSV output and a failing subprocess are not modelled.
- RaplPowerLimit.LastLimitIsRead: `set_power_limit` is a function from the word read to the word written, and the set point is given as the word `watts / unit`; with a unit of 2^-k that is watts * 2^k.
- The experiment scripts, benchmarks, dashboards and output tools.
