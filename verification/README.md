# SMR simulator: a verified model of the zone engine

SMRSim is a device-mapper module that simulates a host-managed shingled disk. The disk is divided into
zones of equal size. A sequential zone may be written only at its write pointer; a conventional zone may
be written anywhere. The module maps or refuses each read and write, keeps the zone table and the
violation counters, answers zone queries, changes the zone configuration, and persists all of this in
pages behind the zones. Everything modelled here is in `source/smrsim_kmod/dm-smrsim.c`, with the
record layouts of `source/smrsim_kmod/smrsim_types.h`.

The zone model is that of the ZBC and ZAC drafts the repository lists (T10/536-201x Revision 0 and
T13/BSR INCITS 537 Revision 02); the query codes are those of Table 4 of 14-010r1.

## How it is built

* `Geometry` — shifts, powers of two, the map from sectors to zones, 32-bit truncation.
* `ZoneTypes` — zone status, counters, device, requests, change flags.
* `ZoneRules` — the write rule in its five stages, the read rule, the map function, the zone reset, as
  functions of a device value.
* `Operations` — every configuration operation, and runs of operations.
* `Simulator` — the module as it runs: a class whose tables are updated in place. Each method is proved
  equal to the function of the same operation.
* `StrictRules`, `StrictRuns`, `Leaks`, `StrictTotals` — whole runs in strict mode (out-of-policy
  requests refused, research switches off, border crossing free to use).
* `Permissive`, `PassThrough`, `Unmarked`, `ConfigRuns` — the other policies, and runs of all operations.
* `RequestOutcomes`, `Crossing`, `ConfigEffects` — what becomes of requests, of writes across a border,
  and of resets and configuration calls, stated by condition, pointer and code under every policy.
* `TableAccess` — which entries of the zone table a request touches.
* `PersistenceArea` — where the persisted state lies, and which requests reach it.
* `Query` — the zone queries and their agreement with accepted writes.
* `DirtyQueue`, `DirtyRuns` — the change flags and the queue of dirty zones.
* `Persistence`, `StateImage`, `StateLayout` — pages, checksum and record layout: save, flush and load.
* `Durability`, `FullSaves`, `Staleness` — requests, configuration calls and the persistence thread as
  interleaved steps: what is durable, up to 92 zones always and for any number after a full save, and the
  runs that end with a stale disk.
* `Failures` — runs from initialisation that show the failing cases of properties with a condition.

A zone index and an offset in the zone stand for a sector in the functions; the class methods compute
with sectors as the source does, and their contracts connect the two. All 32-bit fields wrap where the
source lets them wrap (`Wrap32`, `Twice32`, `Minus32`). "From initialisation" means from
`Operations.Initial(capacity, shift)`: the state that start-up or an accepted zone-size change leaves,
for every capacity up to 10 TB and every zone size. From 97612893 zones on its tables are those the source
means to allocate (see below).

## What the code does not keep

Some properties one would expect of the code are false. In each case the code is modelled as it is, the
exact condition is proved, and a run shows the failure.

* **A conventional write can land in a sequential zone.** A write that ends exactly at the pointer of a
  conventional zone falls through and adds its length to the pointer once more (1345-1363, 1447), so the
  pointer can run past the end of the zone; from then on a write that crosses into the next zone below
  that stale pointer counts as a "modify" and is accepted whatever the next zone is.
  `Leaks.LeakIsReachable` gives three small writes that do it; `StrictRuns.ExactUnlessLeak` and
  `StrictRuns.ConventionalTouchesSequentialIffLeak` prove that this is the only way, and
  `Leaks.DistinctEndsNeverLeak` gives a condition on the requests of a run alone that rules it out.
* **In the last zone the same stale pointer lets a write end past the zones**
  (`ConfigRuns.MappedEndsInsideZones`), for up to one zone size less 3 sectors:
  `PersistenceArea.WrittenSectorIff` says exactly which sectors strict runs can write.
* **User data can overlap the persisted state.** Pages go to an address of the underlying disk that is
  computed from the default zone count, in 32 bits; requests go to the target, which starts at any sector
  of that disk. `PersistenceArea.PersistedStateSafeIff` gives the exact condition on capacity, zone size
  and start of the target under which no strict run overwrites a page that is saved or flushed,
  `PersistenceArea.PageOverwrittenIff` the same for each page, and `PersistenceArea.ApartAtStartZeroIff`
  what it means for a target at the start of the disk: smaller zones behind the last whole default zone,
  capacities from 2^32 sectors on, and overruns break it. `Failures.ShiftedTargetIsOverwritten` and
  `Failures.OverrunIsReachable` are examples.
* **A write across the end of the last allocated zone, if that is sequential, looks at a zone behind the
  table**: the type of the next zone is read before the test that there is one (1368-1370). The value
  decides nothing. `TableAccess.TouchesBehindIff` says exactly which requests touch memory behind the
  table, `TableAccess.DeterminedIff` which of them depend on it or change it, and
  `Failures.LookBehindIsReachable` shows a strict run that only looks.
* **A zero-length write to an empty sequential zone leaves it CLOSED with pointer 0**, and nothing else
  breaks the agreement of condition and pointer (`StrictTotals.AgreementUnlessEmptyWrite`,
  `Failures.EmptyWriteIsReachable`).
* **Twice the zone size wraps to 0 for zones of 2^31 sectors**, which `smrsim_set_size_zone_default`
  accepts; then no request is let through that is not empty (`ZoneRules.LargestZonesPassNothing`).
* **Loading after clear and add misreads the zone table**: it is recovered if and only if every allocated
  zone is live (`StateImage.RecoveryOverRuns`, `Failures.PartialTableIsReachable`).
* **Flush writes page 0 only**, because each flag test is an assignment (`&=`;
  `Durability.FlushStopsAtFirstPage`). From 93 zones on the status of the last zone lies behind that page,
  and one block written there is lost (`Staleness.NinetyThreeZonesLoseAWrite`); up to 92 zones nothing is
  (`Durability.QuietMeansDurable`), and a configuration change never is (`FullSaves.SaveDueIsDurable`).
* **Satisfied out-of-policy requests can leave no mark.** With out-of-policy reads satisfied, a read that
  breaks a rule changes a counter and sets no flag; with both policies on, so does a write that moves a
  write pointer or fills zones (1624-1625). `Unmarked.UnmarkedChangeIff` gives the exact condition for
  every request, zone and switch, `Staleness.PassedRequestGoesStale` the run that ends quiet with a stale
  disk.
* **Border flags are persisted, but no flag marks a change of them**: a border call leaves the disk stale
  exactly when it changes the flag of a live zone (`Staleness.BorderCallGoesStale`). Everything else
  stays durable (`Durability.QuietMeansDurableButFlags`).
* **Border flags and idle times are written without the zone lock.** Written between the checksum and the
  copy of a save or a flush, they make the whole state unreadable unless the checksum happens to fit
  (`Staleness.TornSave`, `Staleness.TornFlush`).
* **A zone reset takes a 32-bit zone index**, so a sector number beyond its range resets another zone
  (`ZoneRules.ResetTargetsItsSector`, `Failures.WrongResetIsReachable`).
* **The size of the state is a 32-bit value**: a change to so small zones that there are 97612893 or more
  of them gets an allocation that is too small, which the source then clears and fills beyond its end
  (`StateImage.AllocationFitsIff`, `Failures.WrappedSizeIsReachable`).
* **A zone is added behind the allocated table** when the table is full and smaller than at start-up, as
  after a change to larger zones (`ConfigRuns.AddBehindTheTableIff`,
  `Failures.AddBehindTheTableIsReachable`).

## Model

| member | source | states |
|---|---|---|
| Geometry.IndexPowerOf2 | source/smrsim_kmod/dm-smrsim.c:158-165 | The halving loop brackets every 64-bit argument between two consecutive powers of two, and gives 0 for 0. |
| Geometry.SizeGeometry | source/smrsim_kmod/dm-smrsim.c:716-728 | For every accepted zone size the computed shift names exactly that size, is at most 28, and the zone count is the number of whole zones in the capacity. |
| Geometry.SizeAcceptedIff | source/smrsim_kmod/dm-smrsim.c:716-728 | The accepted zone sizes are exactly the powers of two from 2^3 on. |
| Geometry.StoredLengthGivesShift | source/smrsim_kmod/dm-smrsim.c:538-539 | The shift recomputed from a stored zone length is the shift that length came from. |
| Geometry.ShiftIsDivision | source/smrsim_kmod/dm-smrsim.c:1576-1577 | Shifting by block and then by zone is division by the zone size. |
| Geometry.TruncatedIndex | source/smrsim_kmod/dm-smrsim.c:1567-1597 | Truncating the zone index to 32 bits either changes nothing or leaves an offset of at least four zones, so that the size test refuses the request. |
| ZoneRules.TruncatedOffset | source/smrsim_kmod/dm-smrsim.c:1576-1597 | The offset the map function works with is inside the zone or beyond two zones. |
| ZoneRules.ResetTargetsItsSector | source/smrsim_kmod/dm-smrsim.c:1092-1110 | An accepted reset resets the zone that begins at its sector if and only if that zone's index fits 32 bits. |
| ZoneRules.LargestZonesPassNothing | source/smrsim_kmod/dm-smrsim.c:1593-1597 | With zones of 2^31 sectors the size test lets through only empty requests. |
| TableAccess.DeterminedIff | source/smrsim_kmod/dm-smrsim.c:1365-1434 | The outcome of a request is determined by the allocated table exactly if every entry the write rule depends on or changes is in the table. |
| TableAccess.InTableIff | source/smrsim_kmod/dm-smrsim.c:1365-1434 | Exactly which requests have an outcome that memory behind the table decides or receives; none that ends below the last sector of the table. |
| TableAccess.TouchesBehindIff | source/smrsim_kmod/dm-smrsim.c:1365-1434 | Exactly which requests make the write rule read or write behind the allocated table: those, and the writes across the end of a sequential last zone, which look at the type of the next zone. |
| TableAccess.PeekDecidesNothing | source/smrsim_kmod/dm-smrsim.c:1368-1387 | Such a look never leads to a split; with writes rejected the request is refused. |
| StrictRules.StrictSequentialWrite | source/smrsim_kmod/dm-smrsim.c:1287-1465 | In strict mode a write to a sequential zone has exactly five outcomes: refused as unaligned, off the pointer or across the border, advanced to its end (FULL or CLOSED), or split over two zones (when it is split: `Crossing.CrossingWrite`). |
| StrictRules.StrictConventionalWrite | source/smrsim_kmod/dm-smrsim.c:1336-1434 | In strict mode a write to a conventional zone passes exactly if it stays inside, ends below the pointer, or spans only conventional zones; every pointer afterwards is stated, entries of other kinds of zones are untouched, and only a refusal counts. |
| Crossing.CrossingWrite | source/smrsim_kmod/dm-smrsim.c:1365-1397 | A write of whole blocks at the pointer of a sequential zone that ends past the zone is mapped, under every policy, if the border flag is 0x02 or 0x04 and the next zone is live, sequential and empty (or the switch that resets pointers is on): the zone is FULL with its pointer at the end, the next one CLOSED with its pointer at the rest, one border violation is counted. If not, in reject mode it is refused and only counted. |
| Crossing.BorderCallFlags | source/smrsim_kmod/dm-smrsim.c:1893-1921 | The border flag of a sequential zone after a border call, for each code, and that the call changes nothing else. |
| Crossing.CrossingAfterBorderCall | source/smrsim_kmod/dm-smrsim.c:1368-1397 | After a border call with code 0x02, or 0x04 for the zone, such a write is mapped and split if and only if the next zone takes the rest; refused, it leaves every pointer as it was. |
| Crossing.NoCrossingAfterBorderOff | source/smrsim_kmod/dm-smrsim.c:1368-1397 | After a border call with code 0x00 every such write is refused with the table unchanged. |
| StrictRules.StrictMap | source/smrsim_kmod/dm-smrsim.c:1556-1692 | What the map function does with every request in a strict state: table, counters, mapped or not, and the mark left for persistence. |
| StrictRules.StrictRun | source/smrsim_kmod/dm-smrsim.c:1085-1691 | Over every strict run zone types and layout are constant, conventional zones have no pointer condition, and every sequential pointer is a multiple of 8 inside its zone that fits the zone's condition. |
| StrictRuns.StepHistory | source/smrsim_kmod/dm-smrsim.c:1085-1455 | Each operation moves the write pointers and the log of written sectors together, at every sector of every sequential zone, splits included. |
| StrictRuns.ExactUnlessLeak | source/smrsim_kmod/dm-smrsim.c:1336-1455 | An operation keeps the log exact (each sector below the pointer written once since the reset, no other written) if and only if it is not a leak. |
| StrictRuns.StrictHistory | source/smrsim_kmod/dm-smrsim.c:1085-1691 | Over every strict run the sectors below each pointer have been written since the last reset, and without leaks exactly those, exactly once. |
| StrictRuns.WrittenExactlyBelowPointer | source/smrsim_kmod/dm-smrsim.c:1263-1528 | From initialisation, over every strict run without leaks: written exactly once below the pointer, not at all from it on. |
| StrictRuns.AcceptedReadIsWritten | source/smrsim_kmod/dm-smrsim.c:1468-1528 | Over every strict run every sector of an accepted read of a sequential zone has been written since the zone's last reset, leaks or not. |
| StrictRuns.ConventionalTouchesSequentialIffLeak | source/smrsim_kmod/dm-smrsim.c:1336-1434 | A write to a conventional zone is accepted and touches a sequential zone if and only if it is a leak. |
| Leaks.DistinctEndsNeverLeak | source/smrsim_kmod/dm-smrsim.c:1336-1448 | A run in which no write ends where an earlier one ended never leaks: a condition on the requests alone. |
| Leaks.LeakIsReachable | source/smrsim_kmod/dm-smrsim.c:1345-1363 | Three accepted writes from initialisation of a three-zone device form a strict run that leaks. |
| StrictTotals.StepConserves | source/smrsim_kmod/dm-smrsim.c:1365-1455 | One operation changes the sum of the sequential write pointers by the sectors it gets accepted less the sectors it discards. |
| StrictTotals.Conservation | source/smrsim_kmod/dm-smrsim.c:1110-1455 | Over every strict run the sum of the sequential write pointers is the sectors of all accepted writes begun in sequential zones less the sectors discarded by resets. |
| StrictTotals.AgreementUnlessEmptyWrite | source/smrsim_kmod/dm-smrsim.c:1447-1455 | An operation keeps "EMPTY exactly when the pointer is 0" if and only if it is not a zero-length write to an empty zone. |
| StrictTotals.ConditionMatchesPointer | source/smrsim_kmod/dm-smrsim.c:188-1455 | Over every strict run without such writes: EMPTY iff pointer 0, FULL implies pointer at the end, CLOSED implies a pointer above 0 and at most at the end, conventional zones NO_WP. |
| StrictTotals.ClosedAtEndOnlyBySplit | source/smrsim_kmod/dm-smrsim.c:1365-1383 | A zone becomes CLOSED with its pointer at the end only by a split that exactly fills it as the second of two zones. |
| StrictTotals.FullIffPointerAtEnd | source/smrsim_kmod/dm-smrsim.c:1449-1455 | With border crossing never switched on, FULL holds exactly when the pointer is at the end. |
| StrictTotals.AcceptedWriteIsAligned | source/smrsim_kmod/dm-smrsim.c:1287-1303 | Every write accepted into a sequential zone starts and ends on a 4 KiB boundary, although only its size is tested. |
| StrictTotals.RefusedRequestKeepsTable | source/smrsim_kmod/dm-smrsim.c:1584-1621 | A refused request leaves the zone table unchanged, and one refused before its rule check leaves the counters unchanged too. |
| StrictTotals.CountersMatchViolations | source/smrsim_kmod/dm-smrsim.c:1287-1518 | Over every strict run each of the five 32-bit counters of a zone is, modulo 2^32, the number of violations of its kind since the last statistics reset; a split counts as a border violation. |
| Permissive.PermissiveExtendsStrict | source/smrsim_kmod/dm-smrsim.c:1263-1677 | A request strict mode maps with crossing off is mapped under every 0/1 setting of the policies and every setting of switches and border flags, with the same zone table and counters. |
| Permissive.PermissiveReplaysStrictRun | source/smrsim_kmod/dm-smrsim.c:1263-1677 | A whole strict run of mapped requests can be replayed on any permissive device in the same state: all requests are mapped again and tables and counters stay equal. |
| RequestOutcomes.RefusedBeforeTheRules | source/smrsim_kmod/dm-smrsim.c:1584-1621 | Requests outside the live zones, too large ones, those to OFFLINE zones, and rejected-mode writes to READ ONLY zones and to FULL zones off their start are refused, change nothing and count nothing, under every policy. |
| RequestOutcomes.WritesAreSatisfied | source/smrsim_kmod/dm-smrsim.c:1622-1649 | With out-of-policy writes satisfied, a write is mapped if and only if it is not one of the unreachable ones, whatever rule it breaks; it marks the status of its zone, unless it breaks a rule while reads are satisfied too. |
| RequestOutcomes.RejectedWritesAreMarked | source/smrsim_kmod/dm-smrsim.c:1633-1691 | With out-of-policy writes rejected, a mapped write marks the status of its zone and a refused one its counters. |
| RequestOutcomes.ReadOutcome | source/smrsim_kmod/dm-smrsim.c:1468-1528 | Which reads are mapped, what each counts (both rules when satisfied, only the first when rejected) and its mark; a read changes nothing but counters of its zone. |
| RequestOutcomes.SwitchLetsThrough | source/smrsim_kmod/dm-smrsim.c:1302-1334 | In reject mode a write of whole blocks inside a sequential zone passes the rule if and only if it begins at the pointer, or at the zone start with the reset switch on, or ahead of the pointer with the adjust switch on; pointer, condition and counters afterwards. |
| RequestOutcomes.SwitchedRequest | source/smrsim_kmod/dm-smrsim.c:1302-1334 | The same for the mapped request, by its sector. |
| RequestOutcomes.UnalignedIsRefused | source/smrsim_kmod/dm-smrsim.c:1287-1301 | In reject mode a write to a sequential zone that is not of whole blocks is refused and counted as unaligned, whatever the switches. |
| PassThrough.WriteInside | source/smrsim_kmod/dm-smrsim.c:1436-1465 | A pass-through write inside a sequential zone counts each broken rule and moves the pointer on by its length wherever it was, except that a FULL zone takes the end of the write. |
| PassThrough.PointerPastEndIff | source/smrsim_kmod/dm-smrsim.c:1436-1448 | The pointer leaves the zone exactly when the zone is not FULL and the length of the write does not fit behind the pointer. |
| PassThrough.WriteAcross | source/smrsim_kmod/dm-smrsim.c:1388-1432 | A pass-through write across the border fills the zones it covers, leaves the remainder in the last one and touches no other; a write of exactly two zones also sets the pointer of the zone behind them to 0. |
| Unmarked.UnmarkedChangeIff | source/smrsim_kmod/dm-smrsim.c:1622-1676 | A request changes what is persisted without leaving a mark exactly when it breaks a rule, is satisfied without delay and does not leave its zones as they were: reads and writes, every kind of zone, every policy and switch. |
| ConfigRuns.WritePointersOnly | source/smrsim_kmod/dm-smrsim.c:1263-1466 | The write rule changes only pointers and conditions of zones, under every policy. |
| ConfigRuns.ShapeStep | source/smrsim_kmod/dm-smrsim.c:716-1041 | Every operation under every policy keeps the table's shape: zone count equal to the count kept with the statistics, each live zone carrying its own index and the common length. |
| ConfigRuns.ZonesTileTheDevice | source/smrsim_kmod/dm-smrsim.c:148-229 | Over every run of all operations each sector below the end of the zones lies inside the capacity and in exactly one zone, the one the map function computes. |
| ConfigRuns.PointersNeverPassTheEnd | source/smrsim_kmod/dm-smrsim.c:1302-1456 | While writes are rejected, over every run with any research switches and all configuration operations, no sequential pointer passes the end of its zone. |
| ConfigRuns.AcceptedWriteEndsAtPointer | source/smrsim_kmod/dm-smrsim.c:1443-1456 | In reject mode an accepted write inside a sequential zone leaves the pointer at its end, FULL exactly at the end of the zone, else CLOSED. |
| ConfigRuns.MappedEndsInsideZones | source/smrsim_kmod/dm-smrsim.c:1365-1434 | A request mapped in a strict state ends inside the zones if and only if it is not an overrun of the last, conventional zone. |
| ConfigRuns.AddBehindTheTableIff | source/smrsim_kmod/dm-smrsim.c:1003-1035 | A zone that does not fit the allocated table is accepted for some entry if and only if the table is full and the zones are fewer than at start-up. |
| ConfigEffects.ResetOutcome | source/smrsim_kmod/dm-smrsim.c:1085-1117 | A zone reset takes effect if and only if its sector is the start of a zone and the zone its 32-bit index names is live and not conventional; then the pointer is 0 and a sequential zone EMPTY, and no other entry changes; if not, nothing changes. |
| ConfigEffects.ResetEmptiesEveryZone | source/smrsim_kmod/dm-smrsim.c:1085-1117 | The reset of the first sector of any live sequential zone, whatever its condition, leaves it EMPTY with pointer 0 and all others as they were. |
| ConfigEffects.InitialIsFresh | source/smrsim_kmod/dm-smrsim.c:175-229 | Start-up fills the capacity with zones, first and last conventional, the others sequential and empty, all counters 0, the policy rejecting. |
| ConfigEffects.SizeChangeOutcome | source/smrsim_kmod/dm-smrsim.c:716-741 | A size change to a power of two from 2^3 on leaves such a fresh table of as many zones as the capacity holds and the rejecting policy, whatever was configured before; any other size changes nothing. |
| ConfigEffects.ZoneConfigResetOutcome | source/smrsim_kmod/dm-smrsim.c:857-877 | The reset of the zone configuration restores the default size and the rejecting policy after any changes. |
| ConfigEffects.DeviceConfigResetOutcome | source/smrsim_kmod/dm-smrsim.c:754-770 | The reset of the device configuration restores the policy and touches nothing else. |
| ConfigEffects.SettersOutcome | source/smrsim_kmod/dm-smrsim.c:785-815 | Each policy and switch operation sets its own field and no other. |
| ConfigEffects.ClearOutcome | source/smrsim_kmod/dm-smrsim.c:880-892 | Clearing leaves no live zones in the same allocation, with the live entries and counters zeroed. |
| ConfigEffects.StatsResetOutcome | source/smrsim_kmod/dm-smrsim.c:1044-1070 | A statistics reset zeroes the counters of all counted zones, or of the live zone its sector is in, and touches nothing else. |
| ConfigEffects.AddOutcome | source/smrsim_kmod/dm-smrsim.c:996-1041 | Exactly which zones may be added, and the stored entry: type, condition and checkpoint as given, pointer 0, border flag off. |
| ConfigEffects.ModifyAcceptedIff | source/smrsim_kmod/dm-smrsim.c:926-978 | Exactly which modifications are accepted, the last sequential zone included. |
| ConfigEffects.ModifyOutcome | source/smrsim_kmod/dm-smrsim.c:926-993 | The stored entry of an accepted modification, field by field; every other one changes nothing. |
| ConfigEffects.SequentialZoneRemains | source/smrsim_kmod/dm-smrsim.c:926-944 | No modification to an ordinary type takes the last sequential zone away. |
| PersistenceArea.AreaBehindZonesIff | source/smrsim_kmod/dm-smrsim.c:485-487 | For a target at the start of the disk, every capacity and zone size: the zones end at or below the persisted state if and only if the capacity is below 2^32 sectors and either zones are at least of the default size or no whole zone lies behind the last default zone. |
| PersistenceArea.MappedEndsByUserEnd | source/smrsim_kmod/dm-smrsim.c:1345-1434 | Over every strict run a mapped request inside the capacity ends by the end of the zones, or, if the last zone is conventional, less than a zone further. |
| PersistenceArea.WrittenSectorIff | source/smrsim_kmod/dm-smrsim.c:1345-1434 | Exactly which sectors some strict run followed by a write covers, for every capacity and zone size. |
| PersistenceArea.PageOverwrittenIff | source/smrsim_kmod/dm-smrsim.c:383-487 | For a target at any start of the disk: some strict run followed by a write puts user data on a page of the persisted state if and only if the page and those sectors have a sector of the disk in common. |
| PersistenceArea.PersistedStateSafeIff | source/smrsim_kmod/dm-smrsim.c:383-1683 | No page that a save or a flush writes is ever overwritten over all strict runs if and only if the persisted state and those sectors are apart on the disk, or no request but an empty one is ever mapped. |
| PersistenceArea.ApartAtStartZeroIff | source/smrsim_kmod/dm-smrsim.c:485-487 | For a target at the start of the disk they are apart exactly when its zones are clear of the persisted state and either the last zone is sequential or the capacity is made of whole default zones. |
| Query.NegativeQueryAnswers | source/smrsim_kmod/dm-smrsim.c:1776-1846 | A negative criterion returns the first zones from the start zone on that meet it, in ascending order, at most as many as requested, and reports their number. `Query.AnswersByCondition` says which meet it. |
| Query.AnswersByCondition | source/smrsim_kmod/dm-smrsim.c:1776-1846 | A zone is in the whole-device answer to code -1, -2, -3, -4 or -5 exactly if it is FULL, CLOSED with a pointer other than 0, EMPTY, READ ONLY or OFFLINE. |
| Query.AnswersByPointer | source/smrsim_kmod/dm-smrsim.c:1776-1818 | Over every strict run without empty writes: FREE lists exactly the sequential zones with pointer 0, NFULL and FULL together those with a pointer above 0, FULL only zones written to the end, and with crossing off all of these. |
| Query.MatchAllAnswers | source/smrsim_kmod/dm-smrsim.c:1772-1775 | Match-all returns the zones from the start zone on, by index, as many as requested. |
| Query.QueryRefusedIff | source/smrsim_kmod/dm-smrsim.c:1746-1752 | A query is refused exactly if it asks for no zones or, in 32 bits, for zones behind the last. |
| Query.UnknownCodeAnswers | source/smrsim_kmod/dm-smrsim.c:1864-1868 | An unknown code writes no zone and leaves the requested number as it is. |
| Query.PositiveQueryAnswers | source/smrsim_kmod/dm-smrsim.c:1757-1770 | A positive criterion returns exactly the zones of the requested slice with at least that many sectors left, in 32-bit arithmetic. |
| Query.QueryAgreesWithWrite | source/smrsim_kmod/dm-smrsim.c:1593-1769 | With crossing off, a query for c free sectors returns a sequential zone with room exactly when a write of c sectors at its pointer would be mapped, for c a multiple of 8 and zones below 2^31 sectors; a zone whose pointer is at its end is never returned. |
| Query.AnswersPartitionSequentialZones | source/smrsim_kmod/dm-smrsim.c:1776-1818 | Over every strict run the whole-device answers to FULL, NFULL and FREE are disjoint and together are exactly the sequential zones. |
| DirtyQueue.EnqueueStep | source/smrsim_kmod/dm-smrsim.c:1640-1649 | Enqueueing keeps the queue at most 128 long and its zones more than 92 apart, covers the zone, uncovers none, and changes the gap counter only when the queue is full. |
| DirtyQueue.EnqueueOutcome | source/smrsim_kmod/dm-smrsim.c:1640-1649 | A queue of 128 zones is left as it is and a full save becomes due; a zone within 92 of an entry changes nothing; any other is appended. |
| DirtyQueue.MarkOutcome | source/smrsim_kmod/dm-smrsim.c:1640-1689 | Which flag each kind of mark sets, and what it leaves alone. |
| DirtyQueue.QueueCoversEveryMark | source/smrsim_kmod/dm-smrsim.c:1530-1649 | From a cleared queue, after any sequence of marks, every marked zone is within 92 of an entry or a full save is pending, and the gap counter is 0 or 2. |
| DirtyQueue.QueueLength | source/smrsim_kmod/dm-smrsim.c:1530-1541 | A queue of zones below n has fewer than n/93 + 1 entries, so it is full only with more than 11811 zones. |
| DirtyQueue.PersistTask.QueueOk | source/smrsim_kmod/dm-smrsim.c:1530-1541 | True exactly if every queued zone is more than 92 away. |
| DirtyQueue.PersistTask.GapOk | source/smrsim_kmod/dm-smrsim.c:1543-1554 | True exactly if some queued zone is at most 184 away. |
| DirtyQueue.PersistTask.NoteStatus | source/smrsim_kmod/dm-smrsim.c:1640-1649 | Sets the status flag and enqueues the zone as the enqueue function does. |
| DirtyQueue.PersistTask.NoteStats | source/smrsim_kmod/dm-smrsim.c:1687-1689 | Sets the statistics flag and the zone it concerns. |
| DirtyQueue.PersistTask.ClearQueue | source/smrsim_kmod/dm-smrsim.c:571-574 | Clears flags, gap counter and queue. |
| DirtyRuns.MappedWritesAreCovered | source/smrsim_kmod/dm-smrsim.c:1640-1649 | Over every strict run each mapped write is in a zone that the queue covers or that a pending full save will write. |
| Simulator.Simulator.InitZoneStatus | source/smrsim_kmod/dm-smrsim.c:188-206 | The loop fills the table with the initial zones: first and last conventional when there is more than one, the rest sequential and empty. |
| Simulator.Simulator.InitZoneState | source/smrsim_kmod/dm-smrsim.c:208-229 | Fresh tables, default policy, and the initial zones. |
| Simulator.Simulator.constructor | source/smrsim_kmod/dm-smrsim.c:231-253 | Start-up leaves the initial device of the capacity and nothing pending. |
| Simulator.Simulator.SetSizeZoneDefault | source/smrsim_kmod/dm-smrsim.c:716-741 | Refuses all but accepted sizes unchanged; otherwise reinitialises with the shift of the size. |
| Simulator.Simulator.ResetDefaultZoneConfig | source/smrsim_kmod/dm-smrsim.c:857-877 | Reinitialises with the default shift and zone count. |
| Simulator.Simulator.ClearZoneConfig | source/smrsim_kmod/dm-smrsim.c:880-892 | Zeroes the live entries and counters and leaves no live zones in the same allocation. |
| Simulator.Simulator.AddZoneConfig | source/smrsim_kmod/dm-smrsim.c:996-1041 | Appends an accepted zone with its border flag off and counts it in both zone counts, or refuses unchanged. |
| Simulator.Simulator.ZoneSeqCount | source/smrsim_kmod/dm-smrsim.c:895-908 | The number of sequential live zones. |
| Simulator.Simulator.ModifyZoneConfig | source/smrsim_kmod/dm-smrsim.c:926-993 | Changes pointer, checkpoint, condition, type and border flag of an accepted zone and nothing else, or refuses unchanged. |
| Simulator.Simulator.ResetStats | source/smrsim_kmod/dm-smrsim.c:1062-1070 | Zeroes the counters of all zones counted in the statistics. |
| Simulator.Simulator.ResetZoneStats | source/smrsim_kmod/dm-smrsim.c:1044-1059 | Zeroes the counters of one zone, or refuses unchanged. |
| Simulator.Simulator.BorderAcross | source/smrsim_kmod/dm-smrsim.c:1893-1921 | Sets the border flag of one zone, of all sequential zones, or clears it for all. |
| Simulator.Simulator.BlkdevResetZonePtr | source/smrsim_kmod/dm-smrsim.c:1085-1117 | Empties the zone of an accepted reset, or refuses unchanged (which are accepted: `ConfigEffects.ResetOutcome`). |
| Simulator.Simulator.WriteRuleCheck | source/smrsim_kmod/dm-smrsim.c:1263-1466 | The in-place write check equals the five-stage write rule on the device value, verdict included (splits: `Crossing.CrossingWrite`). |
| Simulator.Simulator.CheckBorder | source/smrsim_kmod/dm-smrsim.c:1365-1435 | The in-place border test equals the border stage: split, refusal or filling of the covered zones (splits: `Crossing.CrossingWrite`). |
| Simulator.Simulator.FillSpanned | source/smrsim_kmod/dm-smrsim.c:1413-1429 | The loop fills the covered zones and leaves the remainder in the last one. |
| Simulator.Simulator.FindOther | source/smrsim_kmod/dm-smrsim.c:1399-1412 | The scan finds a zone that is not conventional among those a conventional write reaches exactly if there is one. |
| Simulator.Simulator.ReadRuleCheck | source/smrsim_kmod/dm-smrsim.c:1468-1528 | The in-place read check equals the read rule, counters and verdict. |
| Simulator.Simulator.MapRequest | source/smrsim_kmod/dm-smrsim.c:1556-1692 | The in-place map equals the map function: table, counters, mapped or not, and the flags and queue of the persistence thread (which requests are mapped: `RequestOutcomes.WritesAreSatisfied`, `RequestOutcomes.ReadOutcome`, `RequestOutcomes.RefusedBeforeTheRules`). |
| Simulator.Simulator.ScanMatching | source/smrsim_kmod/dm-smrsim.c:1776-1846 | The scan loop writes the first matches and nothing past them (which zones match: `Query.AnswersByCondition`). |
| Simulator.Simulator.ScanFree | source/smrsim_kmod/dm-smrsim.c:1757-1770 | The loop writes exactly the zones of the slice with that much room, in order. |
| Simulator.Simulator.CopySlice | source/smrsim_kmod/dm-smrsim.c:1772-1775 | Copies the slice and nothing past it. |
| Simulator.Simulator.QueryZones | source/smrsim_kmod/dm-smrsim.c:1733-1869 | Writes exactly the answer to the caller's buffer, nothing past it, and reports its number; a refused query writes nothing (which zones are answered: `Query.AnswersByCondition`). |
| Persistence.HeldBytesLoadIff | source/smrsim_kmod/dm-smrsim.c:498-534 | Pages that hold well-formed state bytes of any length load as exactly these bytes if their checksum is right, and not at all if it is wrong, whatever follows them on disk. |
| Persistence.FlushLoadsIff | source/smrsim_kmod/dm-smrsim.c:376-383 | Writing page 0 alone loads back if and only if the other pages already hold their part of the state. |
| Persistence.LoadOutcome | source/smrsim_kmod/dm-smrsim.c:498-534 | What a load returns for every disk with a sane header: the announced bytes if the magic number is 0xBEEFBEEF and the checksum is that of the bytes from 16 on, else nothing. |
| Persistence.PagesForBounds | source/smrsim_kmod/dm-smrsim.c:444-460 | A save writes as many pages of 4096 bytes as the state needs, and not one more. |
| Persistence.Store.SavePersistence | source/smrsim_kmod/dm-smrsim.c:422-467 | Afterwards the pages hold the state bytes with their checksum, and pages beyond are untouched. |
| Persistence.Store.FlushPersistence | source/smrsim_kmod/dm-smrsim.c:352-420 | Whatever the flags, exactly page 0 is written and the flags end up 0. |
| Persistence.Store.LoadPersistence | source/smrsim_kmod/dm-smrsim.c:498-534 | Reads back the announced number of bytes and accepts them exactly if magic number and checksum are right. |
| Persistence.Store.SaveThenLoad | source/smrsim_kmod/dm-smrsim.c:422-534 | Save then load is the identity on the state bytes for every length and every earlier disk content. |
| StateImage.StatusRoundTrip | source/smrsim_kmod/smrsim_types.h:41-50 | A zone status record read back from its 24 bytes is the record. |
| StateImage.FullTableRecovered | source/smrsim_kmod/dm-smrsim.c:535-539 | With every allocated zone live, the bytes give back zone count, policy, counters, zone table and zone shift. |
| StateImage.RecoveryOverRuns | source/smrsim_kmod/dm-smrsim.c:535-1041 | Over every run of all operations the persisted state is recovered if and only if every allocated zone is live. |
| StateImage.AllocationFitsIff | source/smrsim_kmod/dm-smrsim.c:138-146 | After an accepted size change the 32-bit allocation is as large as the state if and only if the capacity has fewer than 97612893 zones of that size. |
| StateLayout.FrontLayout | source/smrsim_kmod/smrsim_types.h:52-122 | Byte offset of each field of header, configuration, idle times and zone count, the magic number at both ends, and the size 44 + 44 n. |
| StateLayout.CountersLayout | source/smrsim_kmod/smrsim_types.h:80-104 | Where the five counters of each zone lie, in order. |
| StateLayout.RecordLayout | source/smrsim_kmod/smrsim_types.h:23-50 | Byte offsets of a zone status record and the codes of its condition and type. |
| StateLayout.StatusPlace | source/smrsim_kmod/dm-smrsim.c:223-225 | The status records follow the counters at the allocated number of zones. |
| Durability.QuietMeansDurable | source/smrsim_kmod/dm-smrsim.c:352-584 | For 1 to 92 zones, under every interleaving in which no border flag changes and no idle time changes between checksum and copy: whenever the lock is free, the flag word is 0 and no configuration call is between its change and its flag, loading the disk gives back the state in memory. `FullSaves.SaveDueIsDurable` has no such bound for full saves. |
| Durability.QuietMeansDurableButFlags | source/smrsim_kmod/dm-smrsim.c:1893-1921 | When border flags change too, but not between checksum and copy, loading gives back everything else, and the state is durable exactly when the border flags on disk are those in memory. |
| FullSaves.SaveDueIsDurable | source/smrsim_kmod/dm-smrsim.c:554-584 | For any number of zones, all allocated ones live: if the configuration flag is set or the queue has overrun when the thread takes the lock, then over all interleaved steps without a lost border flag or idle time the disk is durable when it releases the lock; the flag word is 0 unless a configuration call sets its flag meanwhile, and an overrun queue is empty. |
| FullSaves.SaveCanFinish | source/smrsim_kmod/dm-smrsim.c:554-584 | From every such state the thread can reach its release by steps of its own. |
| FullSaves.NoZonesNothingSaved | source/smrsim_kmod/dm-smrsim.c:561-563 | With no live zones a configuration change is forgotten without writing. |
| FullSaves.ChangedIffAccepted | source/smrsim_kmod/dm-smrsim.c:2035-2047 | A configuration call counts as a change exactly if it is accepted, stated for each call by the state before it. |
| FullSaves.FlagFollowsChange | source/smrsim_kmod/dm-smrsim.c:2035-2047 | The call sets the configuration flag after releasing the lock exactly if something was accepted. |
| FullSaves.ThreadWakesIff | source/smrsim_kmod/dm-smrsim.c:558-560 | The sleeping thread wakes exactly if some change flag is set, and then waits for the lock. |
| FullSaves.FlaggedChangeIsDue | source/smrsim_kmod/dm-smrsim.c:554-565 | Once a configuration call has set its flag, the next thing the sleeping thread does is the full save of `SaveDueIsDurable`. |
| Durability.StartedBySaving | source/smrsim_kmod/dm-smrsim.c:600-603 | Start-up that saves the state it has set up leaves a state from which these runs begin. |
| Durability.FlushStopsAtFirstPage | source/smrsim_kmod/dm-smrsim.c:379-414 | Under every interleaving, for any number of zones, the flush never reaches the code that writes further pages. |
| Durability.HeldLoadsIff | source/smrsim_kmod/dm-smrsim.c:498-539 | The state bytes on disk load as the persisted state if their checksum field fits them, and not at all otherwise. |
| Durability.SumCovers | source/smrsim_kmod/dm-smrsim.c:445-447 | The checksum covers exactly the bytes behind the header, so not its own field. |
| Durability.UnmarkedMeansUnchanged | source/smrsim_kmod/dm-smrsim.c:1622-1691 | With out-of-policy reads not satisfied, a request that changes the device leaves a mark. |
| Staleness.PassedRequestGoesStale | source/smrsim_kmod/dm-smrsim.c:1622-1691 | The run of one request from a quiet state on disk ends quiet with a stale disk exactly when the request broke a rule, was satisfied without delay and did not leave its zones as they were. |
| Staleness.BorderCallGoesStale | source/smrsim_kmod/dm-smrsim.c:1893-1921 | The steps of a border call from a quiet state on disk end quiet, and the disk is stale exactly when the flag of a live zone has changed. |
| Staleness.TornSave | source/smrsim_kmod/dm-smrsim.c:434-460 | A border flag or idle time written between checksum and copy of a save: the disk loads as the state in memory if the old checksum fits the new bytes, and not at all otherwise. |
| Staleness.TornFlush | source/smrsim_kmod/dm-smrsim.c:376-414 | The same in the run of a flush of a one-page state, which ends with the flag word 0. |
| Staleness.FlushLosesFarZone | source/smrsim_kmod/dm-smrsim.c:379-414 | After a flush the disk does not load as the state in memory when the status of a zone behind the first page has changed since the disk was durable. |
| Staleness.FarWriteIsLost | source/smrsim_kmod/dm-smrsim.c:352-420 | The run of a mapped write that changes such a zone, and of the flush it causes, ends quiet with a stale disk. |
| Staleness.NinetyThreeZonesLoseAWrite | source/smrsim_kmod/dm-smrsim.c:352-420 | From 93 zones on one block written to the unwritten last zone is lost that way: 92 zones are the most for which the protocol is durable. |
| Failures.OverrunIsReachable | source/smrsim_kmod/dm-smrsim.c:1345-1363 | Three writes inside the capacity put data on the first persisted page although the zones are clear of it. |
| Failures.ShiftedTargetIsOverwritten | source/smrsim_kmod/dm-smrsim.c:1681-1683 | A target of whole default zones one block into the disk can have its first persisted page overwritten, one at the start of the disk cannot. |
| Failures.LookBehindIsReachable | source/smrsim_kmod/dm-smrsim.c:1368-1370 | One zone written up to its last block, then a write of two blocks across its end, which is refused after a look behind the table. |
| Failures.EmptyWriteIsReachable | source/smrsim_kmod/dm-smrsim.c:1447-1455 | A flush request to a device of one zone leaves that zone CLOSED with pointer 0. |
| Failures.PartialTableIsReachable | source/smrsim_kmod/dm-smrsim.c:535-539 | After clearing three zones and adding one, the persisted state is not recovered. |
| Failures.WrongResetIsReachable | source/smrsim_kmod/dm-smrsim.c:1092-1110 | An accepted reset of a sector far behind the device empties zone 1. |
| Failures.AddBehindTheTableIsReachable | source/smrsim_kmod/dm-smrsim.c:1003-1035 | After a change to zones twice as large, an accepted zone does not fit the table. |
| Failures.WrappedSizeIsReachable | source/smrsim_kmod/dm-smrsim.c:138-146 | A change to zones of one block on 97612893 of them allocates 40 bytes for the state. |

## Left out

- QuietMeansDurable: covers at most 92 zones, all allocated zones live, out-of-policy reads not
  satisfied, and no unlocked write that matters; each bound is needed, as "What the code does not keep"
  shows. Idle times are not part of what is recovered.
- MapRequest: the accesses of a crossing write must stay inside the allocated table
  (`ZoneRules.MapInTable`); what the source reads or overwrites behind the table is not modelled.
- WriteRuleCheck: the same bound on crossing writes, at zone and offset (`ZoneRules.InTable`).
- CheckBorder: the same bound; it tests that there is a next zone before it looks at its type.
- BorderAcross: the single-zone code must name an allocated zone; the source takes any number.
- QueryZones: a query that copies a slice must not lead behind the live zones (`Query.SliceInTable`);
  only a 32-bit sum of zone index and count that wraps can make it.
- PositiveQueryAnswers: the same bound.
- ScanFree: the same bound.
- CopySlice: the same bound.
- SetSizeZoneDefault: the tables have as many entries as there are zones; what the source does behind an
  allocation whose 32-bit size has wrapped is not modelled (`StateImage.AllocationFitsIff`).
- AddZoneConfig: an accepted zone must fit the allocated table; what the source overwrites otherwise is
  not modelled.
- LoadPersistence: a header with the right magic number must announce at least 16 bytes; fields of the
  state are read by the function `StateImage.Recovered` rather than in place.
- PageOverwrittenIff: sectors of the disk are unbounded numbers; a start near 2^64 does not wrap.
- Operations that change the device without the zone lock and mark it afterwards (statistics resets,
  clearing) are part of the sequential runs but not of the interleavings.
- Layout of `Simulator` and `Store`: the state in memory is an array of records in one and an array of
  bytes in the other, connected by `StateImage.Image`; the sharing of one allocation is not modelled.
- CRC-32 itself: every checksum function is covered.
- Page reads and writes that fail, memory that cannot be allocated, `copy_to_user` and `copy_from_user`.
- Checkpoint offsets (only stored), the disabled WNEC query, zone types other than the four named ones.
- Last-error values, logging, trace points, penalty sleeps, delay settings, the constructor and
  destructor of the target, status and merge callbacks, and the command-line utility.
