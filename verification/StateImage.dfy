/** The device state as bytes, and what loading recovers from them. */
module StateImage {
  import opened Geometry
  import opened ZoneTypes
  import opened Operations
  import opened ZoneRules
  import opened ConfigRuns
  import opened Persistence

  const VERSION: u32 := 0x1_0000

  /** `smrsim_state_size()` */
  function StateSize(n: nat): nat { 44 + 44 * n }

  /** The state fits one page exactly up to 92 zones. */
  lemma OnePageUpTo92Zones(n: nat)
    ensures StateSize(n) <= PAGE_SIZE <==> n <= 92
  {}

  /** The size the source allocates: a 32-bit value. */
  function AllocatedSize(n: nat): u32 { Wrap32(StateSize(n)) }

  /** After an accepted size change the allocation is as large as the state if and only if the capacity
      has fewer than 97612893 zones of that size. */
  lemma AllocationFitsIff(d: Device, size: u32)
    requires TableShape(d) && SizeAccepted(size)
    ensures
      var n := |SetSize(d, size).status|;
      AllocatedSize(n) as nat == StateSize(n) <==> d.layout.capacity < 97612893 * size
  {
    SizeGeometry(size, d.layout.capacity);
    var n := |SetSize(d, size).status|;
    ZoneCountExact(d.layout.capacity, Log2(size / 8));
    ZonesAgainst(d.layout.capacity, size, n, 97612893);
  }

  lemma ZonesAgainst(capacity: nat, size: nat, n: nat, limit: nat)
    requires n * size <= capacity < (n + 1) * size
    ensures n < limit <==> capacity < limit * size
  {
    if n < limit { MulMonotone(n + 1, limit, size); } else { MulMonotone(limit, n, size); }
  }

  // ------------------------------------------------------------------ records

  function TypeCode(t: ZoneType): u8 {
    match t
    case Reserved => 0x00
    case Conventional => 0x01
    case Sequential => 0x02
    case Preferred => 0x03
  }

  function TypeOf(code: u8): ZoneType {
    if code == 0x01 then Conventional else if code == 0x02 then Sequential
    else if code == 0x03 then Preferred else Reserved
  }

  function CondCode(c: Condition): u16 {
    match c
    case NoWp => 0x00
    case Empty => 0x01
    case ImpOpen => 0x02
    case ExpOpen => 0x03
    case Closed => 0x04
    case ReadOnly => 0x0D
    case Full => 0x0E
    case Offline => 0x0F
  }

  function CondOf(code: u16): Condition {
    if code == 0x01 then Empty else if code == 0x02 then ImpOpen else if code == 0x03 then ExpOpen
    else if code == 0x04 then Closed else if code == 0x0D then ReadOnly else if code == 0x0E then Full
    else if code == 0x0F then Offline else NoWp
  }

  function StatusBytes(s: ZoneStatus): (b: Bytes)
    ensures |b| == 24
  {
    Le32(s.start % 0x1_0000_0000) + Le32(s.start / 0x1_0000_0000) + Le32(s.length) + Le32(s.wp) + Le32(s.checkpoint)
    + Le16(CondCode(s.cond)) + [TypeCode(s.ztype), s.flag]
  }

  function ReadStatus(b: Bytes, at: nat): ZoneStatus
    requires at + 24 <= |b|
  {
    ZoneStatus(
      Read32(b, at) as int + 0x1_0000_0000 * Read32(b, at + 4) as int,
      Read32(b, at + 8), Read32(b, at + 12), Read32(b, at + 16),
      CondOf(Read16(b, at + 20)), TypeOf(b[at + 22]), b[at + 23])
  }

  function StatsBytes(s: ZoneStats): (b: Bytes)
    ensures |b| == 20
  {
    Le32(s.beyondSwp) + Le32(s.readSpan) + Le32(s.notOnSwp) + Le32(s.writeSpan) + Le32(s.unaligned)
  }

  function ReadStats(b: Bytes, at: nat): ZoneStats
    requires at + 20 <= |b|
  {
    ZoneStats(Read32(b, at), Read32(b, at + 4), Read32(b, at + 8), Read32(b, at + 12), Read32(b, at + 16))
  }

  /** A field at an offset inside a record that sits at `at`. */
  lemma Field32(b: Bytes, at: nat, rec: Bytes, off: nat, x: u32)
    requires at + |rec| <= |b| && b[at..at + |rec|] == rec
    requires off + 4 <= |rec| && rec[off..off + 4] == Le32(x)
    ensures Read32(b, at + off) == x
  {
    SubSlice(b, at, rec, off, 4);
    Le32RoundTrip(b, at + off, x);
  }

  lemma Field16(b: Bytes, at: nat, rec: Bytes, off: nat, x: u16)
    requires at + |rec| <= |b| && b[at..at + |rec|] == rec
    requires off + 2 <= |rec| && rec[off..off + 2] == Le16(x)
    ensures Read16(b, at + off) == x
  {
    SubSlice(b, at, rec, off, 2);
    Le16RoundTrip(b, at + off, x);
  }

  lemma SubSlice(b: Bytes, at: nat, rec: Bytes, off: nat, n: nat)
    requires at + |rec| <= |b| && b[at..at + |rec|] == rec && off + n <= |rec|
    ensures b[at + off..at + off + n] == rec[off..off + n]
  {
    var x, y := b[at + off..at + off + n], rec[off..off + n];
    forall k | 0 <= k < n
      ensures x[k] == y[k]
    {
      assert b[at..at + |rec|][off + k] == b[at + (off + k)];
    }
    assert x == y;
  }

  /** The slices of a record put together from five words, two bytes and two more. */
  lemma SevenParts(a: Bytes, b: Bytes, c: Bytes, d: Bytes, e: Bytes, f: Bytes, g: Bytes)
    requires |a| == |b| == |c| == |d| == |e| == 4 && |f| == |g| == 2
    ensures
      var r := a + b + c + d + e + f + g;
      && r[0..4] == a && r[4..8] == b && r[8..12] == c && r[12..16] == d && r[16..20] == e
      && r[20..22] == f && r[22] == g[0] && r[23] == g[1]
  {}

  lemma StatusRoundTrip(b: Bytes, at: nat, s: ZoneStatus)
    requires at + 24 <= |b| && b[at..at + 24] == StatusBytes(s)
    ensures ReadStatus(b, at) == s
  {
    var r := StatusBytes(s);
    SevenParts(Le32(s.start % 0x1_0000_0000), Le32(s.start / 0x1_0000_0000), Le32(s.length), Le32(s.wp),
               Le32(s.checkpoint), Le16(CondCode(s.cond)), [TypeCode(s.ztype), s.flag]);
    Field32(b, at, r, 0, s.start % 0x1_0000_0000);
    Field32(b, at, r, 4, s.start / 0x1_0000_0000);
    Field32(b, at, r, 8, s.length);
    Field32(b, at, r, 12, s.wp);
    Field32(b, at, r, 16, s.checkpoint);
    Field16(b, at, r, 20, CondCode(s.cond));
    assert b[at + 22] == b[at..at + 24][22] && b[at + 23] == b[at..at + 24][23];
  }

  lemma StatsRoundTrip(b: Bytes, at: nat, s: ZoneStats)
    requires at + 20 <= |b| && b[at..at + 20] == StatsBytes(s)
    ensures ReadStats(b, at) == s
  {
    var r := StatsBytes(s);
    Field32(b, at, r, 0, s.beyondSwp);
    Field32(b, at, r, 4, s.readSpan);
    Field32(b, at, r, 8, s.notOnSwp);
    Field32(b, at, r, 12, s.writeSpan);
    Field32(b, at, r, 16, s.unaligned);
  }

  // ------------------------------------------------------------------- tables

  function StatusTable(s: seq<ZoneStatus>): (b: Bytes)
    ensures |b| == 24 * |s|
  {
    if s == [] then [] else StatusTable(s[..|s| - 1]) + StatusBytes(s[|s| - 1])
  }

  function StatsTable(s: seq<ZoneStats>): (b: Bytes)
    ensures |b| == 20 * |s|
  {
    if s == [] then [] else StatsTable(s[..|s| - 1]) + StatsBytes(s[|s| - 1])
  }

  lemma SliceOfAppend(x: Bytes, y: Bytes, i: nat, j: nat)
    requires i <= j <= |x|
    ensures (x + y)[i..j] == x[i..j]
  {}

  lemma {:induction false} StatusEntry(s: seq<ZoneStatus>, i: nat)
    requires i < |s|
    ensures StatusTable(s)[24 * i..24 * i + 24] == StatusBytes(s[i])
  {
    var init := s[..|s| - 1];
    if i == |init| {
    } else {
      StatusEntry(init, i);
      SliceOfAppend(StatusTable(init), StatusBytes(s[|s| - 1]), 24 * i, 24 * i + 24);
    }
  }

  lemma {:induction false} StatsEntry(s: seq<ZoneStats>, i: nat)
    requires i < |s|
    ensures StatsTable(s)[20 * i..20 * i + 20] == StatsBytes(s[i])
  {
    var init := s[..|s| - 1];
    if i == |init| {
    } else {
      StatsEntry(init, i);
      SliceOfAppend(StatsTable(init), StatsBytes(s[|s| - 1]), 20 * i, 20 * i + 20);
    }
  }

  // --------------------------------------------------------------- the image

  /** Longest and shortest idle time; they are not part of the device model. */
  datatype Idle = Idle(max: u32, min: u32)

  /** Header, configuration, idle times and zone count: the 40 bytes before the tables. The length
      field is the allocated size, which clearing and adding zones leave as it is. */
  function Front(d: Device, idle: Idle, crc: u32): (b: Bytes)
    requires StateSize(|d.status|) < TWO32
    ensures |b| == 40
  {
    Le32(MAGIC) + Le32(StateSize(|d.status|)) + Le32(VERSION) + Le32(crc)
    + Le32(d.policy.readFlag) + Le32(d.policy.writeFlag)
    + Le16(d.policy.readDelay) + Le16(d.policy.writeDelay)
    + Le32(idle.max) + Le32(idle.min) + Le32(d.layout.statsZones)
  }

  /** The state in memory: the tables stand where the allocation put them, the status table behind
      the statistics of all allocated zones. */
  function Image(d: Device, idle: Idle, crc: u32): (b: Bytes)
    requires d.Valid() && StateSize(|d.status|) < TWO32
    ensures |b| == StateSize(|d.status|)
  {
    Front(d, idle, crc) + StatsTable(d.stats) + StatusTable(d.status) + Le32(MAGIC)
  }

  lemma FrontFields(b: Bytes, d: Device, idle: Idle, crc: u32)
    requires StateSize(|d.status|) < TWO32
    requires |b| >= 40 && b[..40] == Front(d, idle, crc)
    ensures Read32(b, 0) == MAGIC && Read32(b, 4) == StateSize(|d.status|) && Read32(b, 12) == crc
    ensures Read32(b, 16) == d.policy.readFlag && Read32(b, 20) == d.policy.writeFlag
    ensures Read16(b, 24) == d.policy.readDelay && Read16(b, 26) == d.policy.writeDelay
    ensures Read32(b, 36) == d.layout.statsZones
  {
    var f := Front(d, idle, crc);
    assert b[0..0 + |f|] == f;
    Field32(b, 0, f, 0, MAGIC);
    Field32(b, 0, f, 4, StateSize(|d.status|));
    Field32(b, 0, f, 12, crc);
    Field32(b, 0, f, 16, d.policy.readFlag);
    Field32(b, 0, f, 20, d.policy.writeFlag);
    Field16(b, 0, f, 24, d.policy.readDelay);
    Field16(b, 0, f, 26, d.policy.writeDelay);
    Field32(b, 0, f, 36, d.layout.statsZones);
  }

  lemma ImageWellFormed(d: Device, idle: Idle, crc: u32)
    requires d.Valid() && StateSize(|d.status|) < TWO32
    ensures WellFormed(Image(d, idle, crc))
    ensures Read32(Image(d, idle, crc), 12) == crc
  {
    FrontFields(Image(d, idle, crc), d, idle, crc);
  }

  /** What the checksum covers does not depend on the checksum field. */
  lemma ImageBody(d: Device, idle: Idle, crc: u32, other: u32)
    requires d.Valid() && StateSize(|d.status|) < TWO32
    ensures Image(d, idle, crc)[HEADER_SIZE..] == Image(d, idle, other)[HEADER_SIZE..]
  {
    assert Front(d, idle, crc)[16..] == Front(d, idle, other)[16..];
    BodyOfSum(Front(d, idle, crc), StatsTable(d.stats) + StatusTable(d.status) + Le32(MAGIC), Image(d, idle, crc));
    BodyOfSum(Front(d, idle, other), StatsTable(d.stats) + StatusTable(d.status) + Le32(MAGIC), Image(d, idle, other));
  }

  lemma BodyOfSum(front: Bytes, rest: Bytes, b: Bytes)
    requires |front| == 40 && b == front + rest
    ensures b[HEADER_SIZE..] == front[HEADER_SIZE..] + rest
  {}

  /** Storing a checksum in the image only changes the checksum field. */
  lemma ImageWithChecksum(crc: Checksum, d: Device, idle: Idle, stale: u32)
    requires d.Valid() && StateSize(|d.status|) < TWO32
    ensures
      var body := Image(d, idle, stale)[HEADER_SIZE..];
      WithChecksum(crc, Image(d, idle, stale)) == Image(d, idle, crc(body))
  {
    var before := Image(d, idle, stale);
    var sum := crc(before[HEADER_SIZE..]);
    var after := Image(d, idle, sum);
    ImageBody(d, idle, sum, stale);
    HeaderOfImage(d, idle, stale);
    HeaderOfImage(d, idle, sum);
    assert after == after[..12] + after[12..16] + after[HEADER_SIZE..];
  }

  lemma HeaderOfImage(d: Device, idle: Idle, crc: u32)
    requires d.Valid() && StateSize(|d.status|) < TWO32
    ensures Image(d, idle, crc)[..12] == Le32(MAGIC) + Le32(StateSize(|d.status|)) + Le32(VERSION)
    ensures Image(d, idle, crc)[12..16] == Le32(crc)
  {
    var f := Front(d, idle, crc);
    assert f[..12] == Le32(MAGIC) + Le32(StateSize(|d.status|)) + Le32(VERSION) && f[12..16] == Le32(crc);
    FrontOfSum(f, StatsTable(d.stats) + StatusTable(d.status) + Le32(MAGIC), Image(d, idle, crc));
  }

  lemma FrontOfSum(front: Bytes, rest: Bytes, b: Bytes)
    requires |front| == 40 && b == front + rest
    ensures b[..12] == front[..12] && b[12..16] == front[12..16]
  {}

  // ----------------------------------------------------------------- recovery

  /** What survives in the persisted state. */
  datatype Persisted = Persisted(policy: Policy, stats: seq<ZoneStats>, status: seq<ZoneStatus>, zoneShift: nat)

  function PersistedOf(d: Device): Persisted
    requires d.Valid()
  {
    Persisted(d.policy, d.stats[..d.N()], d.status[..d.N()], d.layout.zoneShift)
  }

  function StatusAt(b: Bytes, n: nat, i: nat): ZoneStatus
    requires i < n && StateSize(n) <= |b|
  {
    ReadStatus(b, 40 + 20 * n + 24 * i)
  }

  /** Loading takes the zone count from the state and places the status table behind that many
      statistics entries; the zone shift comes from the length of zone 0. */
  function Recovered(b: Bytes): Persisted
    requires |b| >= 40 && Read32(b, 36) >= 1 && StateSize(Read32(b, 36)) <= |b|
  {
    var n := Read32(b, 36);
    Persisted(
      Policy(Read32(b, 16), Read32(b, 20), Read16(b, 24), Read16(b, 26)),
      seq(n, i requires 0 <= i < n => ReadStats(b, 40 + 20 * i)),
      seq(n, i requires 0 <= i < n => StatusAt(b, n, i)),
      Log2(StatusAt(b, n, 0).length / 8))
  }

  lemma TableSlices(d: Device, idle: Idle, crc: u32)
    requires d.Valid() && StateSize(|d.status|) < TWO32
    ensures
      var b, m := Image(d, idle, crc), |d.status|;
      && b[..40] == Front(d, idle, crc)
      && b[40..40 + 20 * m] == StatsTable(d.stats)
      && b[40 + 20 * m..40 + 20 * m + 24 * m] == StatusTable(d.status)
  {}

  lemma StatsFromImage(d: Device, idle: Idle, crc: u32, i: nat)
    requires d.Valid() && StateSize(|d.status|) < TWO32 && i < |d.stats|
    ensures ReadStats(Image(d, idle, crc), 40 + 20 * i) == d.stats[i]
  {
    var b, at := Image(d, idle, crc), 40 + 20 * i;
    TableSlices(d, idle, crc);
    StatsEntry(d.stats, i);
    assert b[at..at + 20] ==
           b[40..40 + 20 * |d.stats|][20 * i..20 * i + 20];
    StatsRoundTrip(b, at, d.stats[i]);
  }

  /** A status record inside a table `t` that stands at `base`. */
  lemma RecordInTable(b: Bytes, base: nat, t: Bytes, off: nat, x: ZoneStatus)
    requires base + |t| <= |b| && b[base..base + |t|] == t
    requires off + 24 <= |t| && t[off..off + 24] == StatusBytes(x)
    ensures ReadStatus(b, base + off) == x
  {
    SubSlice(b, base, t, off, 24);
    StatusRoundTrip(b, base + off, x);
  }

  lemma StatusFromImage(d: Device, idle: Idle, crc: u32, i: nat)
    requires d.Valid() && StateSize(|d.status|) < TWO32 && i < |d.status|
    ensures StatusAt(Image(d, idle, crc), |d.status|, i) == d.status[i]
  {
    TableSlices(d, idle, crc);
    StatusEntry(d.status, i);
    RecordInTable(Image(d, idle, crc), 40 + 20 * |d.status|, StatusTable(d.status), 24 * i, d.status[i]);
  }

  /** The fields of the image that precede the tables, as loading reads them. */
  predicate FrontReads(b: Bytes, d: Device)
    requires |b| >= 40
  {
    && Read32(b, 36) == d.N()
    && Policy(Read32(b, 16), Read32(b, 20), Read16(b, 24), Read16(b, 26)) == d.policy
  }

  lemma ImageFront(d: Device, idle: Idle, crc: u32)
    requires TableShape(d) && StateSize(|d.status|) < TWO32
    ensures FrontReads(Image(d, idle, crc), d)
  {
    TableSlices(d, idle, crc);
    FrontFields(Image(d, idle, crc), d, idle, crc);
  }

  lemma RecoveredFrom(b: Bytes, d: Device)
    requires TableShape(d) && d.N() as nat == |d.status| >= 1 && |b| == StateSize(|d.status|)
    requires FrontReads(b, d)
    requires forall i :: 0 <= i < |d.stats| ==> ReadStats(b, 40 + 20 * i) == d.stats[i]
    requires forall i :: 0 <= i < |d.status| ==> StatusAt(b, |d.status|, i) == d.status[i]
    ensures Recovered(b) == PersistedOf(d)
  {
    StoredLengthGivesShift(d.layout.zoneShift);
    assert StatusAt(b, |d.status|, 0).length == d.Z();
    assert Recovered(b).stats == d.stats[..d.N()];
    assert Recovered(b).status == d.status[..d.N()];
  }

  /** With every allocated zone live, loading recovers the policy, the counters, the zone table and
      the zone shift. */
  lemma FullTableRecovered(d: Device, idle: Idle, crc: u32)
    requires TableShape(d) && StateSize(|d.status|) < TWO32 && d.N() as nat == |d.status| >= 1
    ensures Read32(Image(d, idle, crc), 36) == d.N()
    ensures Recovered(Image(d, idle, crc)) == PersistedOf(d)
  {
    var b := Image(d, idle, crc);
    ImageFront(d, idle, crc);
    forall i | 0 <= i < |d.status|
      ensures ReadStats(b, 40 + 20 * i) == d.stats[i]
      ensures StatusAt(b, |d.status|, i) == d.status[i]
    {
      StatsFromImage(d, idle, crc, i);
      StatusFromImage(d, idle, crc, i);
    }
    RecoveredFrom(b, d);
  }

  // ------------------------------------------------ after clearing and adding

  /** Counters of zones that are allocated but not live are zero. */
  predicate SpareStatsZero(d: Device)
    requires d.Valid()
  {
    forall i :: d.N() <= i < |d.stats| ==> d.stats[i] == ZERO_STATS
  }

  /** When zones were cleared and only some added again, the status table still stands behind the
      statistics of all allocated zones, while loading looks for it nearer: it reads zeros as the
      length of zone 0. */
  lemma PartialTableMisread(d: Device, idle: Idle, crc: u32)
    requires TableShape(d) && SpareStatsZero(d) && StateSize(|d.status|) < TWO32
    requires 1 <= d.N() as nat < |d.status|
    ensures Read32(Image(d, idle, crc), 36) == d.N()
    ensures Recovered(Image(d, idle, crc)).status[0].length == 0
  {
    ImageFront(d, idle, crc);
    StatsFromImage(d, idle, crc, d.N());
    LengthInsideStats(Image(d, idle, crc), d.N());
  }

  /** The length of the first status entry read at the place of a statistics entry is a counter. */
  lemma LengthInsideStats(b: Bytes, n: nat)
    requires n >= 1 && StateSize(n) <= |b| && 40 + 20 * n + 24 <= |b|
    requires ReadStats(b, 40 + 20 * n) == ZERO_STATS
    ensures StatusAt(b, n, 0).length == 0
  {
    assert ReadStats(b, 40 + 20 * n).notOnSwp == Read32(b, 40 + 20 * n + 8);
  }

  /** Loading recovers the persisted state if and only if every allocated zone is live. */
  lemma RecoveredIffTableFull(d: Device, idle: Idle, crc: u32)
    requires TableShape(d) && SpareStatsZero(d) && StateSize(|d.status|) < TWO32 && d.N() >= 1
    ensures Read32(Image(d, idle, crc), 36) == d.N()
    ensures Recovered(Image(d, idle, crc)) == PersistedOf(d) <==> d.N() as nat == |d.status|
  {
    if d.N() as nat == |d.status| {
      FullTableRecovered(d, idle, crc);
    } else {
      PartialTableMisread(d, idle, crc);
      assert PersistedOf(d).status[0].length == d.Z() >= 8;
    }
  }

  /** Every operation keeps the spare counters zero. */
  lemma SpareStatsStep(d: Device, op: Op)
    requires TableShape(d) && SpareStatsZero(d) && Enabled(d, op)
    ensures SpareStatsZero(Step(d, op))
  {
    match op
    case Io(rq) =>
      CountsOwnZoneOnly(d, rq);
    case _ =>
  }

  /** A request changes the counters of at most the zone it starts in. */
  lemma CountsOwnZoneOnly(d: Device, rq: Request)
    requires d.Valid() && MapInTable(d, rq)
    ensures forall k :: 0 <= k < |d.stats| && k != ZoneOf(d, rq.lba) as nat ==>
              Map(d, rq).device.stats[k] == d.stats[k]
    ensures !Addressable(d, rq) ==> Map(d, rq).device == d
  {
    if Addressable(d, rq) && rq.dir.Write? && Writable(d, ZoneOf(d, rq.lba), OffsetOf(d, rq.lba)) {
      AddressableOffset(d, rq);
      WriteCountsOwn(d, ZoneOf(d, rq.lba), OffsetOf(d, rq.lba), rq.sectors);
    }
  }

  lemma WriteCountsOwn(d: Device, i: nat, off: nat, n: nat)
    requires d.Valid() && i < |d.status|
    requires off < d.Z() && off + n <= 2 * d.Z() && InTable(d, i, off, n)
    ensures forall k :: 0 <= k < |d.stats| && k != i ==> CheckWrite(d, i, off, n).device.stats[k] == d.stats[k]
  {
    var a := AlignStage(d, i, n);
    if a.Continue? {
      var p := PointerStage(a.device, i, off, a.violated);
      if p.Continue? { PlaceCountsOwn(p.device, i, off, n, p.violated); }
    }
  }

  lemma PlaceCountsOwn(d: Device, i: nat, off: nat, n: nat, violated: bool)
    requires d.Valid() && i < |d.status|
    requires off < d.Z() && off + n <= 2 * d.Z() && InTable(d, i, off, n)
    ensures forall k :: 0 <= k < |d.stats| && k != i ==>
      PlaceWrite(d, i, off, n, violated).device.stats[k] == d.stats[k]
  {}

  /** Over every run of all operations: loading the image recovers the persisted state if and only
      if every allocated zone is live. */
  lemma RecoveryOverRuns(capacity: nat, shift: nat, ops: seq<Op>, idle: Idle, crc: u32)
    requires capacity <= MAX_CAPACITY && shift <= ZONE_SIZE_SHIFT_MAX
    requires Runs(Initial(capacity, shift), ops)
    requires
      var d := Run(Initial(capacity, shift), ops);
      StateSize(|d.status|) < TWO32 && d.N() >= 1
    ensures
      var d := Run(Initial(capacity, shift), ops);
      var b := Image(d, idle, crc);
      && Read32(b, 36) == d.N()
      && (Recovered(b) == PersistedOf(d) <==> d.N() as nat == |d.status|)
  {
    InitialShape(capacity, shift);
    SpareStatsRun(Initial(capacity, shift), ops);
    RecoveredIffTableFull(Run(Initial(capacity, shift), ops), idle, crc);
  }

  lemma {:induction false} SpareStatsRun(d: Device, ops: seq<Op>)
    requires TableShape(d) && SpareStatsZero(d) && Runs(d, ops)
    ensures TableShape(Run(d, ops)) && SpareStatsZero(Run(d, ops))
    decreases |ops|
  {
    if ops == [] {
    } else {
      ShapeStep(d, ops[0]);
      SpareStatsStep(d, ops[0]);
      SpareStatsRun(Step(d, ops[0]), ops[1..]);
    }
  }
}
