/** Configuration operations, and runs of operations from a device state. */
module Operations {
  import opened Geometry
  import opened ZoneTypes
  import opened ZoneRules

  // --------------------------------------------------------- initialisation

  /** The first and last zone are conventional when there is more than one. */
  predicate ConventionalByDefault(i: nat, n: nat) {
    n > 1 && (i == 0 || i + 1 == n)
  }

  function InitialZone(i: u32, n: nat, z: u32): ZoneStatus {
    if ConventionalByDefault(i, n)
    then ZoneStatus(i, z, 0, 0, NoWp, Conventional, CROSS_OFF)
    else ZoneStatus(i, z, 0, 0, Empty, Sequential, CROSS_OFF)
  }

  function InitialStatus(n: u32, z: u32): (r: seq<ZoneStatus>)
    ensures |r| == n
  {
    seq(n, i requires 0 <= i < n => InitialZone(i, n, z))
  }

  function InitialStats(n: nat): (r: seq<ZoneStats>)
    ensures |r| == n
  {
    seq(n, i => ZERO_STATS)
  }

  /** `smrsim_init_zone_state_default` on a table freshly allocated for `n` zones. */
  function Reinitialised(d: Device, shift: nat, n: u32): (r: Device)
    requires d.Valid() && shift <= ZONE_SIZE_SHIFT_MAX
    ensures r.Valid()
  {
    ZoneSectorsBound(shift);
    d.(layout := d.layout.(zoneShift := shift, numZones := n, statsZones := n),
       status := InitialStatus(n, ZoneSectors(shift)), stats := InitialStats(n),
       policy := DEFAULT_POLICY)
  }

  /** The device of a given capacity as start-up leaves it (with the default shift) or an accepted
      size change. */
  function Initial(capacity: nat, shift: nat): (r: Device)
    requires capacity <= MAX_CAPACITY && shift <= ZONE_SIZE_SHIFT_MAX
    ensures r.Valid()
  {
    var defaultZones := ZonesFor(capacity, ZONE_SIZE_SHIFT_DEFAULT);
    var blank := Device(Layout(capacity, defaultZones, shift, 0, 0), [], [], DEFAULT_POLICY, Switches(false, false));
    Reinitialised(blank, shift, ZonesFor(capacity, shift))
  }

  // ----------------------------------------------------------- configuration

  /** `smrsim_set_size_zone_default`; a refused size changes nothing. */
  function SetSize(d: Device, size: u32): (r: Device)
    requires d.Valid()
    ensures r.Valid()
  {
    if !SizeAccepted(size) then d
    else
      SizeGeometry(size, d.layout.capacity);
      Reinitialised(d, Log2(size / 8), ZonesFor(d.layout.capacity, Log2(size / 8)))
  }

  /** `smrsim_reset_default_zone_config` */
  function ResetZoneConfig(d: Device): (r: Device)
    requires d.Valid()
    ensures r.Valid()
  {
    Reinitialised(d, ZONE_SIZE_SHIFT_DEFAULT, d.layout.defaultZones)
  }

  /** `smrsim_reset_default_device_config` */
  function ResetDeviceConfig(d: Device): Device {
    d.(policy := DEFAULT_POLICY)
  }

  /** Entries below `n` replaced by `x`. */
  function FillPrefix<T>(s: seq<T>, n: nat, x: T): (r: seq<T>)
    requires n <= |s|
    ensures |r| == |s|
  {
    seq(|s|, i requires 0 <= i < |s| => if i < n then x else s[i])
  }

  /** `smrsim_clear_zone_config` */
  function ClearZones(d: Device): (r: Device)
    requires d.Valid()
    ensures r.Valid()
  {
    d.(stats := FillPrefix(d.stats, d.layout.statsZones, ZERO_STATS),
       status := FillPrefix(d.status, d.N(), ZERO_STATUS),
       layout := d.layout.(numZones := 0, statsZones := 0))
  }

  predicate AddAccepted(d: Device, e: ZoneStatus) {
    && e.start < d.layout.defaultZones
    && e.start == d.N()
    && (e.ztype.Conventional? || e.ztype.Sequential?)
    && (e.ztype.Conventional? ==> e.cond.NoWp?)
    && (e.ztype.Sequential? ==> e.cond.Empty?)
    && e.length == d.Z()
    && e.wp == 0
  }

  /** `smrsim_add_zone_config`; the allocated table must still have room for an accepted zone. */
  function AddZone(d: Device, e: ZoneStatus): (r: Device)
    requires d.Valid()
    requires AddAccepted(d, e) ==> d.N() < |d.status| && d.layout.statsZones < |d.stats|
    ensures r.Valid()
  {
    if !AddAccepted(d, e) then d
    else
      d.(status := d.status[d.N() := e.(flag := CROSS_OFF)],
         layout := d.layout.(numZones := d.N() + 1, statsZones := Wrap32(d.layout.statsZones + 1)))
  }

  /** Number of sequential zones among the first `n` entries. */
  function SeqCount(s: seq<ZoneStatus>, n: nat): nat
    requires n <= |s|
  {
    if n == 0 then 0
    else SeqCount(s, n - 1) + (if s[n - 1].ztype.Sequential? then 1 else 0)
  }

  predicate CondAllowed(c: Condition) {
    c.NoWp? || c.Empty? || c.Closed? || c.ReadOnly? || c.Full? || c.Offline?
  }

  predicate ModifyAccepted(d: Device, e: ZoneStatus)
    requires d.Valid()
  {
    && e.start < d.N()
    && !(SeqCount(d.status, d.N()) <= 1 && e.ztype.Conventional? && d.IsSeq(e.start))
    && e.length == d.Z()
    && e.wp <= d.Z()
    && !(e.wp == d.Z() && !d.status[e.start].cond.Full?)
    && e.checkpoint < d.Z()
    && CondAllowed(e.cond)
    && !(e.cond.NoWp? && !e.ztype.Conventional?)
    && !(e.cond.Empty? && e.ztype.Sequential? && e.wp != 0)
  }

  /** `smrsim_modify_zone_config` */
  function ModifyZone(d: Device, e: ZoneStatus): (r: Device)
    requires d.Valid()
    ensures r.Valid()
  {
    if !ModifyAccepted(d, e) then d
    else
      var s := d.status[e.start];
      SetStatus(d, e.start, s.(wp := e.wp, checkpoint := e.checkpoint, cond := e.cond,
                               ztype := e.ztype, flag := CROSS_OFF))
  }

  /** `smrsim_reset_stats` */
  function ResetStats(d: Device): (r: Device)
    requires d.Valid()
    ensures r.Valid()
  {
    d.(stats := FillPrefix(d.stats, d.layout.statsZones, ZERO_STATS))
  }

  /** `smrsim_reset_zone_stats` */
  function ResetZoneStats(d: Device, sector: nat): (r: Device)
    requires d.Valid()
    ensures r.Valid()
  {
    if d.N() <= ZoneOf(d, sector) then d
    else SetStats(d, ZoneOf(d, sector), ZERO_STATS)
  }

  function WithFlag(s: ZoneStatus, flag: u8): ZoneStatus { s.(flag := flag) }

  /** `smrsim_border_across`; the single-zone code indexes the table without a range test. */
  function BorderAcross(d: Device, code: u8, zone: nat): (r: Device)
    requires d.Valid() && (code == CROSS_CUR ==> zone < |d.status|)
    ensures r.Valid()
  {
    if code == CROSS_CUR then SetStatus(d, zone, WithFlag(d.status[zone], code))
    else if code == CROSS_OFF || code == CROSS_SEQ then
      d.(status := seq(|d.status|, i requires 0 <= i < |d.status| =>
        if i < d.N() && (code == CROSS_OFF || d.IsSeq(i))
        then WithFlag(d.status[i], code) else d.status[i]))
    else d
  }

  // -------------------------------------------------------------------- runs

  datatype Op =
    | Io(rq: Request)
    | ZoneReset(sector: nat)
    | Border(code: u8, zone: nat)
    | StatsReset
    | ZoneStatsReset(sector: nat)
    | SizeChange(size: u32)
    | ZoneConfigReset
    | DeviceConfigReset
    | Clear
    | Add(entry: ZoneStatus)
    | Modify(entry: ZoneStatus)
    | ReadPolicy(flag: u32)
    | WritePolicy(flag: u32)
    | ResetSwitch(on: bool)
    | AdjustSwitch(on: bool)
  {
    /** Reads, writes, zone resets, border switches and statistics resets. */
    predicate KeepsConfig() {
      Io? || ZoneReset? || Border? || StatsReset? || ZoneStatsReset?
    }

    /** A request that writes. */
    predicate IsWrite() { Io? && rq.dir.Write? }
  }

  /** What the operation does is determined by the allocated table: nothing behind the table decides
      it, and nothing behind the table is changed. */
  predicate Enabled(d: Device, op: Op)
    requires d.Valid()
  {
    match op
    case Io(rq) => MapInTable(d, rq)
    case Border(code, zone) => code == CROSS_CUR ==> zone < |d.status|
    case Add(e) => AddAccepted(d, e) ==> d.N() < |d.status| && d.layout.statsZones < |d.stats|
    case _ => true
  }

  function Step(d: Device, op: Op): (r: Device)
    requires d.Valid() && Enabled(d, op)
    ensures r.Valid()
  {
    match op
    case Io(rq) => Map(d, rq).device
    case ZoneReset(sector) => ResetZone(d, sector)
    case Border(code, zone) => BorderAcross(d, code, zone)
    case StatsReset => ResetStats(d)
    case ZoneStatsReset(sector) => ResetZoneStats(d, sector)
    case SizeChange(size) => SetSize(d, size)
    case ZoneConfigReset => ResetZoneConfig(d)
    case DeviceConfigReset => ResetDeviceConfig(d)
    case Clear => ClearZones(d)
    case Add(e) => AddZone(d, e)
    case Modify(e) => ModifyZone(d, e)
    case ReadPolicy(flag) => d.(policy := d.policy.(readFlag := flag))
    case WritePolicy(flag) => d.(policy := d.policy.(writeFlag := flag))
    case ResetSwitch(on) => d.(switches := d.switches.(resetOn := on))
    case AdjustSwitch(on) => d.(switches := d.switches.(adjustOn := on))
  }

  /** The operations can be carried out one after the other. */
  predicate Runs(d: Device, ops: seq<Op>)
    decreases |ops|
  {
    && d.Valid()
    && (ops != [] ==> Enabled(d, ops[0]) && Runs(Step(d, ops[0]), ops[1..]))
  }

  function Run(d: Device, ops: seq<Op>): (r: Device)
    requires Runs(d, ops)
    ensures r.Valid()
    decreases |ops|
  {
    if ops == [] then d else Run(Step(d, ops[0]), ops[1..])
  }

  /** A run of operations that leave the configuration alone. */
  predicate IoRun(d: Device, ops: seq<Op>) {
    && Runs(d, ops)
    && forall op :: op in ops ==> op.KeepsConfig()
  }
}
