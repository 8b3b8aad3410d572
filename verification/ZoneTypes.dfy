/** The records of the simulated device: zone status, zone statistics, device state, requests. */
module ZoneTypes {
  import opened Geometry

  datatype ZoneType = Reserved | Conventional | Sequential | Preferred

  datatype Condition = NoWp | Empty | ImpOpen | ExpOpen | Closed | ReadOnly | Full | Offline

  /** Values of a zone's border-crossing flag. */
  const CROSS_OFF: u8 := 0x00
  const CROSS_SEQ: u8 := 0x02
  const CROSS_CUR: u8 := 0x04

  /** Default delay of an out-of-policy request, in milliseconds. */
  const PENALTY_DEFAULT: u16 := 4000

  /** Largest simulated capacity, 10 TB in sectors. */
  const MAX_CAPACITY: nat := 21474836480

  /** The zone count of a capacity, stored in 32 bits. */
  function ZonesFor(capacity: nat, shift: nat): u32 { Wrap32(ShiftedDown(capacity, shift)) }

  datatype ZoneStatus = ZoneStatus(
    start: u64,
    length: u32,
    wp: u32,
    checkpoint: u32,
    cond: Condition,
    ztype: ZoneType,
    flag: u8)

  /** A cleared table entry: all bytes zero. */
  const ZERO_STATUS := ZoneStatus(0, 0, 0, 0, NoWp, Reserved, CROSS_OFF)

  datatype ZoneStats = ZoneStats(
    beyondSwp: u32,
    readSpan: u32,
    notOnSwp: u32,
    writeSpan: u32,
    unaligned: u32)

  const ZERO_STATS := ZoneStats(0, 0, 0, 0, 0)

  /** Capacity and zone counts: the capacity, the zone count at start-up, the zone shift, the number
      of live zones and the copy of it kept with the statistics. */
  datatype Layout = Layout(
    capacity: u64,
    defaultZones: u32,
    zoneShift: nat,
    numZones: u32,
    statsZones: u32)

  /** What to do with out-of-policy requests: 0 rejects them, 1 delays and satisfies them. */
  datatype Policy = Policy(readFlag: u32, writeFlag: u32, readDelay: u16, writeDelay: u16)

  const DEFAULT_POLICY := Policy(0, 0, PENALTY_DEFAULT, PENALTY_DEFAULT)

  /** The research switches that move a write pointer to fit a write. */
  datatype Switches = Switches(resetOn: bool, adjustOn: bool)

  /** The device: its layout, the zone table as allocated (of which `N()` entries are live), the
      violation counters beside it, the policy and the research switches. */
  datatype Device = Device(
    layout: Layout,
    status: seq<ZoneStatus>,
    stats: seq<ZoneStats>,
    policy: Policy,
    switches: Switches)
  {
    /** Number of live zones. */
    function N(): u32 { layout.numZones }

    /** `num_sectors_zone()` */
    function Z(): (z: nat)
      ensures z >= 8 && z % 8 == 0
    {
      ZoneSectors(layout.zoneShift)
    }

    predicate Valid() {
      && layout.zoneShift <= ZONE_SIZE_SHIFT_MAX
      && N() <= |status| == |stats|
      && layout.statsZones <= |stats|
    }

    predicate IsSeq(i: nat)
      requires i < |status|
    {
      status[i].ztype.Sequential?
    }

    predicate IsConv(i: nat)
      requires i < |status|
    {
      status[i].ztype.Conventional?
    }

    /** Out-of-policy requests are refused and no research switch moves a write pointer. */
    predicate Strict() {
      policy.readFlag == 0 && policy.writeFlag == 0 && switches == Switches(false, false)
    }
  }

  datatype Direction = Read | Write

  /** A block request; `sectors` is 0 for a flush. */
  datatype Request = Request(dir: Direction, lba: nat, sectors: nat)
  {
    predicate Valid() { lba + sectors < TWO64 }
  }

  datatype Verdict =
    | Pass
    | ReadBorder
    | ReadPointer
    | WriteBorder
    | WritePointer
    | WriteAlign
    | OutOfPolicy

  datatype Outcome = Outcome(device: Device, verdict: Verdict)

  /** What a request leaves for the persistence thread. */
  datatype Mark = NoMark | StatusMark(zone: nat) | StatsMark(zone: nat)

  datatype MapResult = MapResult(device: Device, mapped: bool, mark: Mark)

  /** The change flags of the persistence thread, one bit each. */
  datatype ChangeFlags = ChangeFlags(config: bool, stats: bool, status: bool)
  {
    /** The flag word is not 0. */
    predicate Any() { config || stats || status }

    /** `flag |= bits` */
    function Set(bits: ChangeFlags): ChangeFlags {
      ChangeFlags(config || bits.config, stats || bits.stats, status || bits.status)
    }

    /** `flag &= bits` */
    function Keep(bits: ChangeFlags): ChangeFlags {
      ChangeFlags(config && bits.config, stats && bits.stats, status && bits.status)
    }
  }

  const NO_CHANGE := ChangeFlags(false, false, false)
  const CONFIG_CHANGE := ChangeFlags(true, false, false)
  const STATS_CHANGE := ChangeFlags(false, true, false)
  const STATUS_CHANGE := ChangeFlags(false, false, true)
  const ALL_BUT_CONFIG := ChangeFlags(false, true, true)
}
