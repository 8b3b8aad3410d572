/** Runs of every operation, configuration included: the shape of the zone table under any policy,
    and the bound on write pointers while out-of-policy writes are rejected. */
module ConfigRuns {
  import opened Geometry
  import opened ZoneTypes
  import opened ZoneRules
  import opened Operations
  import opened StrictRules

  // ------------------------------------------------------------- table shape

  /** The rules change only pointers and conditions of zones. */
  predicate PointersOnly(d: Device, r: Device) {
    && |r.status| == |d.status|
    && forall k :: 0 <= k < |d.status| ==>
        r.status[k] == d.status[k].(wp := r.status[k].wp, cond := r.status[k].cond)
  }

  lemma WritePointersOnly(d: Device, i: nat, off: nat, n: nat)
    requires d.Valid() && i < |d.status|
    requires off < d.Z() && off + n <= 2 * d.Z() && InTable(d, i, off, n)
    ensures PointersOnly(d, CheckWrite(d, i, off, n).device)
  {
    var a := AlignStage(d, i, n);
    if a.Continue? {
      var p := PointerStage(a.device, i, off, a.violated);
      assert PointersOnly(d, p.device);
      if p.Continue? { PlacePointersOnly(p.device, i, off, n, p.violated); }
    }
  }

  lemma PlacePointersOnly(d: Device, i: nat, off: nat, n: nat, violated: bool)
    requires d.Valid() && i < |d.status|
    requires off < d.Z() && off + n <= 2 * d.Z() && InTable(d, i, off, n)
    ensures PointersOnly(d, PlaceWrite(d, i, off, n, violated).device)
  {
    var c := ConventionalStage(d, i, off, n, violated);
    if c.Continue? {
      var b := BorderStage(d, i, off, n, c.violated);
      BorderPointersOnly(d, i, off, n, c.violated);
      if b.Continue? {
        assert PointersOnly(b.device, AdvanceStage(b.device, i, off, n, b.violated).device);
      }
    }
  }

  lemma BorderPointersOnly(d: Device, i: nat, off: nat, n: nat, violated: bool)
    requires d.Valid() && i < |d.status|
    requires off < d.Z() && off + n <= 2 * d.Z() && InTable(d, i, off, n)
    requires d.IsConv(i) ==> off + n >= d.status[i].wp
    ensures PointersOnly(d, BorderStage(d, i, off, n, violated).device)
  {
    if off + n > d.Z() && !Splits(d, i, off + n) {
      CrossPointersOnly(d, i, off + n, violated);
    }
  }

  lemma CrossPointersOnly(d: Device, i: nat, end: nat, violated: bool)
    requires d.Valid() && i < |d.status|
    requires d.Z() < end <= 2 * d.Z()
    requires d.IsConv(i) ==>
      && i + 1 < |d.status|
      && (EndZone(i, end, d.Z()) < |d.status| || (d.policy.writeFlag == 0 && !d.IsConv(i + 1)))
    requires !d.IsConv(i) && d.policy.writeFlag == 1 ==> EndZone(i, end, d.Z()) < |d.status|
    ensures PointersOnly(d, CrossStage(d, i, end, violated).device)
  {}

  /** The table is as long as the zones of the capacity, `stats.num_zones` equals the zone count, and
      every live zone knows its own index and the common length. */
  predicate TableShape(d: Device) {
    && d.Valid()
    && d.layout.capacity <= MAX_CAPACITY
    && d.layout.defaultZones == ZonesFor(d.layout.capacity, ZONE_SIZE_SHIFT_DEFAULT)
    && d.layout.statsZones == d.N()
    && |d.status| == ZonesFor(d.layout.capacity, d.layout.zoneShift)
    && forall i :: 0 <= i < d.N() ==> d.status[i].start == i && d.status[i].length == d.Z()
  }

  lemma InitialShape(capacity: nat, shift: nat)
    requires capacity <= MAX_CAPACITY && shift <= ZONE_SIZE_SHIFT_MAX
    ensures TableShape(Initial(capacity, shift))
  {
    ReinitialisedShape(Initial(capacity, shift), shift);
  }

  lemma ReinitialisedShape(d: Device, shift: nat)
    requires d.Valid() && d.layout.capacity <= MAX_CAPACITY && shift <= ZONE_SIZE_SHIFT_MAX
    requires d.layout.defaultZones == ZonesFor(d.layout.capacity, ZONE_SIZE_SHIFT_DEFAULT)
    ensures TableShape(Reinitialised(d, shift, ZonesFor(d.layout.capacity, shift)))
  {
    ZoneSectorsBound(shift);
  }

  /** Every operation, under every policy and switch setting, keeps the shape of the table. */
  lemma ShapeStep(d: Device, op: Op)
    requires TableShape(d) && Enabled(d, op)
    ensures TableShape(Step(d, op))
  {
    match op
    case Io(rq) => IoShape(d, rq);
    case SizeChange(size) =>
      if SizeAccepted(size) {
        SizeGeometry(size, d.layout.capacity);
        ReinitialisedShape(d, Log2(size / 8));
      }
    case ZoneConfigReset => ReinitialisedShape(d, ZONE_SIZE_SHIFT_DEFAULT);
    case _ =>
  }

  lemma IoShape(d: Device, rq: Request)
    requires TableShape(d) && MapInTable(d, rq)
    ensures TableShape(Map(d, rq).device)
  {
    var i, off, n := ZoneOf(d, rq.lba), OffsetOf(d, rq.lba), rq.sectors;
    if rq.dir.Write? && Addressable(d, rq) && Writable(d, i, off) {
      AddressableOffset(d, rq);
      WritePointersOnly(d, i, off, n);
    }
  }

  lemma {:induction false} ShapeRun(d: Device, ops: seq<Op>)
    requires TableShape(d) && Runs(d, ops)
    ensures TableShape(Run(d, ops))
    decreases |ops|
  {
    if ops == [] {
    } else {
      ShapeStep(d, ops[0]);
      ShapeRun(Step(d, ops[0]), ops[1..]);
    }
  }

  lemma ZoneCountExact(capacity: nat, shift: nat)
    requires capacity <= MAX_CAPACITY
    ensures ZonesFor(capacity, shift) == ShiftedDown(capacity, shift)
    ensures ZonesFor(capacity, shift) * ZoneSectors(shift) <= capacity
  {
    ShiftIsDivision(capacity, shift);
    QuotientBounds(capacity, ZoneSectors(shift));
    assert ZoneSectors(shift) >= 8;
    MulMonotone(8, ZoneSectors(shift), ShiftedDown(capacity, shift));
  }

  /** Over every run of all operations the live zones tile the sectors below `N * z`, which lie
      inside the capacity: each such sector is in exactly one zone, the one the map function
      computes, and that zone's entry carries its index. */
  lemma ZonesTileTheDevice(capacity: nat, shift: nat, ops: seq<Op>, sector: nat)
    requires capacity <= MAX_CAPACITY && shift <= ZONE_SIZE_SHIFT_MAX
    requires Runs(Initial(capacity, shift), ops)
    requires var d := Run(Initial(capacity, shift), ops); sector < d.N() * d.Z()
    ensures
      var d := Run(Initial(capacity, shift), ops);
      var i := ZoneOf(d, sector);
      && sector < capacity
      && i < d.N() == d.layout.statsZones
      && d.status[i].start == i && d.status[i].length == d.Z()
      && i * d.Z() <= sector < (i + 1) * d.Z()
      && forall j: nat :: j * d.Z() <= sector < (j + 1) * d.Z() ==> j == i
  {
    InitialShape(capacity, shift);
    ShapeRun(Initial(capacity, shift), ops);
    var d := Run(Initial(capacity, shift), ops);
    CapacityKept(Initial(capacity, shift), ops);
    ZoneCountExact(capacity, d.layout.zoneShift);
    MulMonotone(d.N(), |d.status|, d.Z());
    SectorInExactlyOneZone(sector, d.layout.zoneShift, d.N());
  }

  lemma {:induction false} CapacityKept(d: Device, ops: seq<Op>)
    requires Runs(d, ops)
    ensures Run(d, ops).layout.capacity == d.layout.capacity
    decreases |ops|
  {
    if ops == [] {
    } else {
      CapacityKept(Step(d, ops[0]), ops[1..]);
    }
  }

  // ------------------------------------------------------------- reject mode

  /** No sequential zone's pointer lies past the end of the zone. */
  predicate PointersInZone(d: Device)
    requires d.Valid()
  {
    forall i :: 0 <= i < d.N() && d.IsSeq(i) ==> d.status[i].wp <= d.Z()
  }

  predicate WritesRejected(d: Device) { d.Valid() && d.policy.writeFlag == 0 }

  /** The pointers of sequential zones stay in their zones, and types do not change. */
  predicate Contained(d: Device, r: Device) {
    && |r.status| == |d.status|
    && forall k :: 0 <= k < |d.status| ==>
        && r.status[k].ztype == d.status[k].ztype
        && (d.status[k].ztype.Sequential? && d.status[k].wp <= d.Z() ==> r.status[k].wp <= d.Z())
  }

  /** What an accepted write to a sequential zone leaves when it does not cross the border. */
  predicate EndsAtPointer(r: Device, i: nat, end: nat)
    requires i < |r.status|
  {
    && r.status[i].wp == end
    && r.status[i].cond == (if end == r.Z() then Full else Closed)
  }

  lemma RejectSequentialWrite(d: Device, i: nat, off: nat, n: nat)
    requires WritesRejected(d) && i < |d.status| && d.IsSeq(i)
    requires off < d.Z() && off + n <= 2 * d.Z() && InTable(d, i, off, n)
    ensures Contained(d, CheckWrite(d, i, off, n).device)
    ensures CheckWrite(d, i, off, n).verdict.Pass? && off + n <= d.Z() ==>
              EndsAtPointer(CheckWrite(d, i, off, n).device, i, off + n)
  {
    var a := AlignStage(d, i, n);
    ZoneSectorsBound(d.layout.zoneShift);
    if a.Continue? {
      var p := PointerStage(d, i, off, false);
      assert Contained(d, p.device);
      if p.Continue? {
        assert p.device.status[i].wp == off;
        assert ConventionalStage(p.device, i, off, n, p.violated) == Continue(p.device, p.violated);
        RejectBorder(p.device, i, off, n, p.violated);
      }
    }
  }

  lemma RejectBorder(d: Device, i: nat, off: nat, n: nat, violated: bool)
    requires WritesRejected(d) && i < |d.status| && d.IsSeq(i) && d.status[i].wp == off
    requires off < d.Z() && off + n <= 2 * d.Z() && InTable(d, i, off, n)
    ensures
      var b := BorderStage(d, i, off, n, violated);
      if off + n <= d.Z() then
        && b == Continue(d, violated)
        && Contained(d, AdvanceStage(d, i, off, n, violated).device)
        && EndsAtPointer(AdvanceStage(d, i, off, n, violated).device, i, off + n)
      else b.Stop? && Contained(d, b.device)
  {
    ZoneSectorsBound(d.layout.zoneShift);
  }

  lemma RejectOtherWrite(d: Device, i: nat, off: nat, n: nat)
    requires WritesRejected(d) && i < |d.status| && !d.IsSeq(i)
    requires off < d.Z() && off + n <= 2 * d.Z() && InTable(d, i, off, n)
    ensures Contained(d, CheckWrite(d, i, off, n).device)
  {
    assert AlignStage(d, i, n) == Continue(d, false);
    assert PointerStage(d, i, off, false) == Continue(d, false);
  }

  lemma RejectIo(d: Device, rq: Request)
    requires WritesRejected(d) && PointersInZone(d) && MapInTable(d, rq)
    ensures PointersInZone(Map(d, rq).device)
  {
    var i, off, n := ZoneOf(d, rq.lba), OffsetOf(d, rq.lba), rq.sectors;
    if rq.dir.Write? && Addressable(d, rq) && Writable(d, i, off) {
      AddressableOffset(d, rq);
      if d.IsSeq(i) { RejectSequentialWrite(d, i, off, n); } else { RejectOtherWrite(d, i, off, n); }
      assert Contained(d, Map(d, rq).device);
    }
  }

  /** The operation does not switch the rejection of writes off. */
  predicate KeepsRejecting(op: Op) { op.WritePolicy? ==> op.flag == 0 }

  lemma RejectStep(d: Device, op: Op)
    requires WritesRejected(d) && PointersInZone(d) && Enabled(d, op) && KeepsRejecting(op)
    ensures WritesRejected(Step(d, op)) && PointersInZone(Step(d, op))
  {
    if op.Io? { RejectIo(d, op.rq); }
  }

  lemma {:induction false} RejectRun(d: Device, ops: seq<Op>)
    requires WritesRejected(d) && PointersInZone(d) && Runs(d, ops)
    requires forall op :: op in ops ==> KeepsRejecting(op)
    ensures WritesRejected(Run(d, ops)) && PointersInZone(Run(d, ops))
    decreases |ops|
  {
    if ops == [] {
    } else {
      RejectStep(d, ops[0]);
      RejectRun(Step(d, ops[0]), ops[1..]);
    }
  }

  /** Reject mode, any research switches, all configuration operations: no write pointer of a
      sequential zone ever passes the end of its zone, rejected writes that moved it included. */
  lemma PointersNeverPassTheEnd(capacity: nat, shift: nat, ops: seq<Op>, i: nat)
    requires capacity <= MAX_CAPACITY && shift <= ZONE_SIZE_SHIFT_MAX
    requires Runs(Initial(capacity, shift), ops)
    requires forall op :: op in ops ==> KeepsRejecting(op)
    requires var d := Run(Initial(capacity, shift), ops); i < d.N() && d.IsSeq(i)
    ensures var d := Run(Initial(capacity, shift), ops); d.status[i].wp <= d.Z()
  {
    RejectRun(Initial(capacity, shift), ops);
  }

  /** In reject mode an accepted write that stays in a sequential zone ends at the pointer, whatever
      the switches did to the pointer first; FULL exactly at the end of the zone, else CLOSED. */
  lemma AcceptedWriteEndsAtPointer(d: Device, rq: Request)
    requires WritesRejected(d) && rq.dir.Write? && MapInTable(d, rq)
    requires Addressable(d, rq) && d.IsSeq(ZoneOf(d, rq.lba)) && Map(d, rq).mapped
    requires OffsetOf(d, rq.lba) + rq.sectors <= d.Z()
    ensures
      var r, i := Map(d, rq).device, ZoneOf(d, rq.lba);
      && r.status[i].wp == rq.lba + rq.sectors - i * d.Z()
      && r.status[i].cond == (if r.status[i].wp == d.Z() then Full else Closed)
  {
    AddressableOffset(d, rq);
    RejectSequentialWrite(d, ZoneOf(d, rq.lba), OffsetOf(d, rq.lba), rq.sectors);
  }

  // ----------------------------------------------------- where requests may end

  /** A write accepted in the last zone although it ends past it: the conventional stage lets it
      through below a pointer that has run past the end. */
  predicate Overrun(d: Device, rq: Request)
    requires d.Valid()
  {
    && rq.dir.Write? && Addressable(d, rq)
    && var i, end := ZoneOf(d, rq.lba), OffsetOf(d, rq.lba) + rq.sectors;
      i + 1 == d.N() && d.IsConv(i) && d.Z() < end < d.status[i].wp
  }

  /** Allocated entries that are not live are of no kind: clearing leaves them so. */
  predicate SpareReserved(d: Device)
    requires d.Valid()
  {
    forall i :: d.N() <= i < |d.status| ==> d.status[i].ztype.Reserved?
  }

  lemma SpareReservedStep(d: Device, op: Op)
    requires d.Valid() && SpareReserved(d) && Enabled(d, op)
    ensures SpareReserved(Step(d, op))
  {
    if op.Io? { SpareReservedIo(d, op.rq); }
  }

  lemma SpareReservedIo(d: Device, rq: Request)
    requires d.Valid() && SpareReserved(d) && MapInTable(d, rq)
    ensures SpareReserved(Map(d, rq).device)
  {
    var i, off := ZoneOf(d, rq.lba), OffsetOf(d, rq.lba);
    if rq.dir.Write? && Addressable(d, rq) && Writable(d, i, off) {
      AddressableOffset(d, rq);
      WritePointersOnly(d, i, off, rq.sectors);
    }
  }

  /** Over every run of all operations the spare entries are of no kind. */
  lemma {:induction false} SpareReservedRun(d: Device, ops: seq<Op>)
    requires d.Valid() && SpareReserved(d) && Runs(d, ops)
    ensures SpareReserved(Run(d, ops))
    decreases |ops|
  {
    if ops == [] {
    } else {
      SpareReservedStep(d, ops[0]);
      SpareReservedRun(Step(d, ops[0]), ops[1..]);
    }
  }

  /** A request mapped in a strict state ends inside the live zones unless it is an overrun. */
  lemma MappedEndsInsideZones(d: Device, rq: Request)
    requires StrictState(d) && SpareReserved(d) && MapInTable(d, rq) && Map(d, rq).mapped
    ensures rq.lba + rq.sectors <= d.N() * d.Z() <==> !Overrun(d, rq)
  {
    StrictMap(d, rq);
    AddressableOffset(d, rq);
    MappedEnd(d, rq, Map(d, rq));
    EndVersusZones(ZoneOf(d, rq.lba), OffsetOf(d, rq.lba) + rq.sectors, d.Z(), d.N());
  }

  /** In relative terms: only an overrun leaves the last zone, and nothing goes past two zones. */
  lemma MappedEnd(d: Device, rq: Request, r: MapResult)
    requires StrictState(d) && SpareReserved(d) && StrictMapped(d, rq, r) && r.mapped
    requires Addressable(d, rq)
    ensures ZoneOf(d, rq.lba) as nat + 1 == d.N() ==>
              (OffsetOf(d, rq.lba) + rq.sectors > d.Z() <==> Overrun(d, rq))
    ensures OffsetOf(d, rq.lba) + rq.sectors <= 2 * d.Z()
  {
    AddressableOffset(d, rq);
    assert ZoneOk(d.status[ZoneOf(d, rq.lba)], d.Z());
  }

  lemma EndVersusZones(i: nat, end: nat, z: nat, n: nat)
    requires i < n && end <= 2 * z
    ensures if i + 1 == n then (i * z + end <= n * z <==> end <= z) else i * z + end <= n * z
  {
    assert (i + 1) * z == i * z + z && (i + 2) * z == i * z + 2 * z;
    if i + 2 <= n { MulMonotone(i + 2, n, z); }
  }

  // ---------------------------------------------------------------- adding zones

  /** An accepted zone fits the table exactly if some allocated zone is not live. */
  lemma AcceptedAddFitsIff(d: Device, e: ZoneStatus)
    requires TableShape(d) && AddAccepted(d, e)
    ensures Enabled(d, Add(e)) <==> d.N() as nat < |d.status|
  {}

  /** A zone that does not fit is accepted exactly when the table is full and the zones are fewer than
      at start-up, as after a change to larger zones. */
  lemma AddBehindTheTableIff(d: Device)
    requires TableShape(d)
    ensures (exists e :: AddAccepted(d, e) && !Enabled(d, Add(e))) <==>
            |d.status| == d.N() as nat < d.layout.defaultZones
  {
    ZoneSectorsBound(d.layout.zoneShift);
    var next := ZoneStatus(d.N(), d.Z(), 0, 0, Empty, Sequential, CROSS_OFF);
    assert d.N() < d.layout.defaultZones ==> AddAccepted(d, next);
    forall e | AddAccepted(d, e)
      ensures Enabled(d, Add(e)) <==> d.N() as nat < |d.status|
    {
      AcceptedAddFitsIff(d, e);
    }
  }
}
