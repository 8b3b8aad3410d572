/** Runs from initialisation that show the failing cases of the properties with a condition. */
module Failures {
  import opened Geometry
  import opened ZoneTypes
  import opened ZoneRules
  import opened Operations
  import opened StrictRules
  import opened StrictTotals
  import opened ConfigRuns
  import opened Leaks
  import opened Persistence
  import opened StateImage
  import opened PersistenceArea
  import opened TableAccess

  // ------------------------------------------------------------------ overrun

  /** Three default zones and two blocks more. */
  const ODD_CAPACITY: nat := 3 * SMALL_ZONE + 16

  lemma OddPlacement(d: Device)
    requires TableShape(d) && d.layout.capacity == ODD_CAPACITY
    ensures PstoreLba(d) == 3 * SMALL_ZONE
  {
    DefaultZoneSectors();
    ShiftIsDivision(ODD_CAPACITY, ZONE_SIZE_SHIFT_DEFAULT);
  }

  /** Two writes to the last zone and a third across its end, inside the capacity, write onto the
      persisted state although the zones are clear of it. */
  lemma OverrunIsReachable()
    ensures ZonesClear(ODD_CAPACITY, ZoneSectors(16)) && IoRun(Initial(ODD_CAPACITY, 16), TwiceThen(2, []))
    ensures
      var d, rq := Run(Initial(ODD_CAPACITY, 16), TwiceThen(2, [])), Across(2).rq;
      && MapInTable(d, rq) && Map(d, rq).mapped
      && Overrun(d, rq)
      && rq.lba + rq.sectors <= ODD_CAPACITY
      && OnPage(0, d, rq, 0)
  {
    var d := AfterTwice(ODD_CAPACITY, 2);
    TwiceRuns(ODD_CAPACITY, 2, []);
    AcrossIsMapped(d, 2);
    InitialShape(ODD_CAPACITY, 16);
    ShapeRun(Initial(ODD_CAPACITY, 16), TwiceThen(2, []));
    CapacityKept(Initial(ODD_CAPACITY, 16), TwiceThen(2, []));
    OddPlacement(d);
    DefaultZoneSectors();
  }

  // ------------------------------------------------------------ shifted target

  /** A target of whole default zones that starts one block into the disk: a strict run can overwrite the
      first persisted page, while at the start of the disk the two are apart. */
  lemma ShiftedTargetIsOverwritten(capacity: nat)
    requires capacity == 3 * SMALL_ZONE
    ensures Apart(capacity, 16, 0)
    ensures exists ops, rq :: StrictWrite(capacity, 16, ops, rq) && OnPage(8, Initial(capacity, 16), rq, 0)
  {
    var d := Initial(capacity, 16);
    DefaultZoneSectors();
    ShiftIsDivision(capacity, 16);
    TopOfZones(capacity, 16);
    assert PstoreLba(d) == capacity && UserEnd(capacity, 16) == capacity;
    PageOverwrittenIff(capacity, 16, 8, 0);
  }

  // -------------------------------------------------------------- empty write

  /** A flush request: a write of no sectors to sector 0. */
  const FLUSH_REQUEST: Op := Io(Request(Write, 0, 0))

  lemma FlushCloses(d: Device)
    requires StrictState(d) && d.N() >= 1 && d.IsSeq(0) && d.status[0].wp == 0
    ensures Enabled(d, FLUSH_REQUEST) && EmptyWrite(d, FLUSH_REQUEST)
    ensures |Step(d, FLUSH_REQUEST).status| == |d.status|
    ensures Step(d, FLUSH_REQUEST).status[0].cond.Closed? && Step(d, FLUSH_REQUEST).status[0].wp == 0
  {
    AddressOf(d, 0, 0);
    assert ZoneOk(d.status[0], d.Z());
    StrictMap(d, FLUSH_REQUEST.rq);
  }

  lemma OneZone(capacity: nat)
    requires SMALL_ZONE <= capacity < 2 * SMALL_ZONE
    ensures
      var d := Initial(capacity, 16);
      |d.status| == d.N() as nat == 1 && d.IsSeq(0) && d.status[0].wp == 0
  {
    DefaultZoneSectors();
    ShiftIsDivision(capacity, 16);
  }

  /** A flush request to a device of one zone leaves that zone CLOSED with nothing written. */
  lemma EmptyWriteIsReachable(capacity: nat) returns (d: Device)
    requires SMALL_ZONE <= capacity < 2 * SMALL_ZONE
    ensures d == Initial(capacity, 16) && d.N() == 1
    ensures Enabled(d, FLUSH_REQUEST) && EmptyWrite(d, FLUSH_REQUEST)
    ensures |Step(d, FLUSH_REQUEST).status| == 1
    ensures Step(d, FLUSH_REQUEST).status[0].cond.Closed? && Step(d, FLUSH_REQUEST).status[0].wp == 0
  {
    d := Initial(capacity, 16);
    OneZone(capacity);
    StrictInitial(capacity, 16);
    FlushCloses(d);
  }

  // ------------------------------------------------------- a look behind the table

  /** One zone written up to its last block, then a write of two blocks across its end: the write is
      refused after a look at a zone behind the table. */
  lemma LookBehindIsReachable(capacity: nat) returns (d: Device, rq: Request)
    requires SMALL_ZONE <= capacity < 2 * SMALL_ZONE
    ensures
      var d0, op := Initial(capacity, 16), Io(Request(Write, 0, SMALL_ZONE - 8));
      Enabled(d0, op) && Map(d0, op.rq).mapped && d == Step(d0, op)
    ensures rq == Request(Write, SMALL_ZONE - 8, 16) && PeeksBehind(d, rq)
    ensures MapInTable(d, rq) && !Map(d, rq).mapped
  {
    var d0, op := Initial(capacity, 16), Io(Request(Write, 0, SMALL_ZONE - 8));
    OneZone(capacity);
    DefaultZoneSectors();
    StrictInitial(capacity, 16);
    WriteFromStart(d0, 0, SMALL_ZONE - 8);
    StrictStep(d0, op);
    d, rq := Step(d0, op), Request(Write, SMALL_ZONE - 8, 16);
    AcrossTheEnd(d, rq);
  }

  lemma AcrossTheEnd(d: Device, rq: Request)
    requires StrictState(d) && d.layout.zoneShift == 16 && |d.status| == d.N() as nat == 1 && d.IsSeq(0)
    requires d.status[0].wp == SMALL_ZONE - 8 && rq == Request(Write, SMALL_ZONE - 8, 16)
    ensures PeeksBehind(d, rq) && MapInTable(d, rq) && !Map(d, rq).mapped
  {
    DefaultZoneSectors();
    AddressOf(d, 0, SMALL_ZONE - 8);
    ByteAlignment(16);
    assert ZoneOk(d.status[0], d.Z());
    PeekDecidesNothing(d, rq);
  }

  // ------------------------------------------------------------ partial table

  const FIRST_ZONE := ZoneStatus(0, SMALL_ZONE, 0, 0, NoWp, Conventional, CROSS_OFF)

  lemma ClearThenAdd(d: Device)
    requires d == Initial(3 * SMALL_ZONE, 16)
    ensures Runs(d, [Clear] + ([Add(FIRST_ZONE)] + []))
    ensures
      var r := Run(d, [Clear] + ([Add(FIRST_ZONE)] + []));
      r.N() == 1 && |r.status| == 3
  {
    SmallInitial(3 * SMALL_ZONE, 0);
    DefaultZoneSectors();
    var c := Step(d, Clear);
    assert c.N() == 0 && |c.status| == 3 && c.layout.defaultZones == 3;
    assert Enabled(c, Add(FIRST_ZONE));
    Cons(c, Add(FIRST_ZONE), []);
    Cons(d, Clear, [Add(FIRST_ZONE)] + []);
  }

  /** After clearing three zones and adding one again, the persisted state is not recovered. */
  lemma PartialTableIsReachable(idle: Idle, crc: u32)
    ensures Runs(Initial(3 * SMALL_ZONE, 16), [Clear] + ([Add(FIRST_ZONE)] + []))
    ensures
      var d := Run(Initial(3 * SMALL_ZONE, 16), [Clear] + ([Add(FIRST_ZONE)] + []));
      && StateSize(|d.status|) < TWO32
      && Read32(Image(d, idle, crc), 36) == 1
      && Recovered(Image(d, idle, crc)) != PersistedOf(d)
  {
    ClearThenAdd(Initial(3 * SMALL_ZONE, 16));
    RecoveryOverRuns(3 * SMALL_ZONE, 16, [Clear] + ([Add(FIRST_ZONE)] + []), idle, crc);
  }

  // -------------------------------------------------------------- wrong reset

  /** The first sector of zone 2^32 + 1, far behind the device. */
  const FAR_SECTOR: nat := (TWO32 + 1) * SMALL_ZONE

  lemma FarSectorIsZoneOne(d: Device)
    requires d.layout.zoneShift == 16
    ensures d.Z() == SMALL_ZONE && ZoneOf(d, FAR_SECTOR) == 1 && FAR_SECTOR % d.Z() == 0
  {
    DefaultZoneSectors();
    ShiftIsDivision(FAR_SECTOR, 16);
  }

  const ONE_BLOCK: Op := Io(Request(Write, SMALL_ZONE, 8))

  /** After one block has been written to zone 1, the reset of a sector far behind the device is
      accepted and empties zone 1. */
  lemma WrongResetIsReachable() returns (d: Device)
    ensures Enabled(Initial(3 * SMALL_ZONE, 16), ONE_BLOCK) && d == Step(Initial(3 * SMALL_ZONE, 16), ONE_BLOCK)
    ensures |d.status| == 3 && d.status[1].wp == 8
    ensures ResetAccepted(d, FAR_SECTOR) && ResetZone(d, FAR_SECTOR).status[1].wp == 0
  {
    SmallInitial(3 * SMALL_ZONE, 0);
    d := BlockInZoneOne(Initial(3 * SMALL_ZONE, 16));
    FarSectorIsZoneOne(d);
  }

  lemma BlockInZoneOne(d: Device) returns (r: Device)
    requires Small(d, 0) && d.IsSeq(1) && d.status[1].wp == 0
    ensures Enabled(d, ONE_BLOCK) && r == Step(d, ONE_BLOCK)
    ensures Small(r, 0) && r.IsSeq(1) && r.status[1].wp == 8
  {
    DefaultZoneSectors();
    WriteFromStart(d, 1, 8);
    StrictStep(d, ONE_BLOCK);
    r := Step(d, ONE_BLOCK);
  }

  // ------------------------------------------------- adding behind the table

  lemma DoubleSize()
    ensures SizeAccepted(2 * SMALL_ZONE) && Log2(2 * SMALL_ZONE / 8) == 17 && ZoneSectors(17) == 2 * SMALL_ZONE
  {
    Pow2Values();
    assert Pow2(17) == 2 * Pow2(16) && Pow2(20) == 2 * (2 * (2 * Pow2(17)));
    Pow2IsPowerOfTwo(20);
    StoredLengthGivesShift(17);
  }

  /** After a change to zones twice as large, an accepted zone does not fit the table. */
  lemma AddBehindTheTableIsReachable()
    ensures
      var d := Step(Initial(3 * SMALL_ZONE, 16), SizeChange(2 * SMALL_ZONE));
      exists e :: AddAccepted(d, e) && !Enabled(d, Add(e))
  {
    var d0 := Initial(3 * SMALL_ZONE, 16);
    var d := Step(d0, SizeChange(2 * SMALL_ZONE));
    InitialShape(3 * SMALL_ZONE, 16);
    ShapeStep(d0, SizeChange(2 * SMALL_ZONE));
    DoubleSize();
    DefaultZoneSectors();
    ShiftIsDivision(3 * SMALL_ZONE, 16);
    ShiftIsDivision(3 * SMALL_ZONE, 17);
    AddBehindTheTableIff(d);
  }

  // ----------------------------------------------------------- wrapped state size

  /** With zones of one block on a capacity of 97612893 of them, a state of more than 2^32 bytes gets an
      allocation of 40. */
  lemma WrappedSizeIsReachable(capacity: nat) returns (d: Device)
    requires 97612893 * 8 <= capacity < 97612894 * 8
    ensures SizeAccepted(8) && d == SetSize(Initial(capacity, 16), 8)
    ensures |d.status| == 97612893 && AllocatedSize(|d.status|) == 40
  {
    InitialShape(capacity, 16);
    d := SetSize(Initial(capacity, 16), 8);
    assert Log2(8 / 8) == 0 && IsPowerOfTwo(8);
    SizeGeometry(8, capacity);
    ZoneCountExact(capacity, 0);
    QuotientUnique(capacity, 8, 97612893);
    ShiftIsDivision(capacity, 0);
  }
}
