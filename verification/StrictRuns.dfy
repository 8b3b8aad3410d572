/** Whole strict runs against the log of what was written: each sector of a sequential zone below
    the write pointer was written exactly once since the zone's last reset, and no other was. */
module StrictRuns {
  import opened Geometry
  import opened ZoneTypes
  import opened ZoneRules
  import opened Operations
  import opened StrictRules

  // ------------------------------------------------------------ the history

  function SectorAt(z: nat, i: nat, o: nat): nat { i * z + o }

  predicate Covers(rq: Request, s: nat) { rq.lba <= s < rq.lba + rq.sectors }

  predicate InZone(z: nat, i: nat, s: nat) { i * z <= s < (i + 1) * z }

  /** How often sector `s` has been written since its zone's last reset, after one more operation. */
  function CountAfter(d: Device, op: Op, s: nat, count: nat): nat
    requires d.Valid() && Enabled(d, op)
  {
    if op.IsWrite() && Map(d, op.rq).mapped && Covers(op.rq, s) then count + 1
    else if op.ZoneReset? && ResetAccepted(d, op.sector) && InZone(d.Z(), ZoneOf(d, op.sector), s) then 0
    else count
  }

  /** The same after a whole run that began with `count`. */
  function WritesSinceReset(d: Device, ops: seq<Op>, s: nat, count: nat): nat
    requires Runs(d, ops)
    decreases |ops|
  {
    if ops == [] then count
    else WritesSinceReset(Step(d, ops[0]), ops[1..], s, CountAfter(d, ops[0], s, count))
  }

  /** 1 below the write pointer of zone `i`, 0 from it on. */
  function Below(d: Device, i: nat, o: nat): nat
    requires i < |d.status|
  {
    if o < d.status[i].wp then 1 else 0
  }

  predicate NoLeaks(d: Device, ops: seq<Op>)
    requires Runs(d, ops)
    decreases |ops|
  {
    ops == [] || (!LeakOp(d, ops[0]) && NoLeaks(Step(d, ops[0]), ops[1..]))
  }

  // ------------------------------------------------------------ one request

  lemma WriteHistory(d: Device, rq: Request, r: MapResult, i: nat, o: nat)
    requires StrictState(d) && rq.dir.Write? && StrictMapped(d, rq, r)
    requires i < d.N() && d.IsSeq(i) && o < d.Z()
    ensures |r.device.status| == |d.status|
    ensures
      var c := if r.mapped && Covers(rq, SectorAt(d.Z(), i, o)) then 1 else 0;
      && Below(r.device, i, o) <= Below(d, i, o) + c
      && (!Leak(d, rq) ==> Below(r.device, i, o) == Below(d, i, o) + c)
      && (Leak(d, rq) && i == ZoneOf(d, rq.lba) + 1 && o == 0 ==>
            c == 1 && r.device.status[i] == d.status[i])
  {
    if Addressable(d, rq) && Writable(d, ZoneOf(d, rq.lba), OffsetOf(d, rq.lba)) {
      AddressableOffset(d, rq);
      var j, off, n := ZoneOf(d, rq.lba), OffsetOf(d, rq.lba), rq.sectors;
      CoverageByZone(d.Z(), j, off, n, i, o);
      assert ZoneOk(d.status[j], d.Z());
      if d.IsSeq(j) {
        SequentialHistory(d, j, off, n, r.device, r.mapped, i, o);
      }
    }
  }

  lemma SequentialHistory(d: Device, j: nat, off: nat, n: nat, r: Device, passed: bool, i: nat, o: nat)
    requires StrictState(d) && j < d.N() && d.IsSeq(j) && i < d.N() && d.IsSeq(i)
    requires off < d.Z() && off + n <= 2 * d.Z() && o < d.Z()
    requires SequentialOutcome(d, j, off, n, r, passed)
    ensures |r.status| == |d.status|
    ensures
      var c := if passed && ((i == j && off <= o < off + n) || (i == j + 1 && o + d.Z() < off + n)) then 1 else 0;
      Below(r, i, o) == Below(d, i, o) + c
  {
    ZoneSectorsBound(d.layout.zoneShift);
  }

  lemma ResetHistory(d: Device, sector: nat, i: nat, o: nat)
    requires StrictState(d) && i < d.N() && d.IsSeq(i) && o < d.Z()
    ensures
      Below(ResetZone(d, sector), i, o) ==
      if ResetAccepted(d, sector) && InZone(d.Z(), ZoneOf(d, sector), SectorAt(d.Z(), i, o))
      then 0 else Below(d, i, o)
  {
    SectorInZone(d.Z(), ZoneOf(d, sector), i, o);
  }

  lemma SectorInZone(z: nat, j: nat, i: nat, o: nat)
    requires o < z
    ensures InZone(z, j, SectorAt(z, i, o)) <==> i == j
  {
    CoverageByZone(z, j, 0, z, i, o);
    assert (j + 1) * z == j * z + z;
  }

  /** One operation of a strict run, seen from one sector of a sequential zone. */
  lemma StepHistory(d: Device, op: Op, i: nat, o: nat, count: nat)
    requires StrictState(d) && Enabled(d, op) && op.KeepsConfig()
    requires i < d.N() && d.IsSeq(i) && o < d.Z()
    ensures SameLayout(d, Step(d, op))
    ensures
      var s := SectorAt(d.Z(), i, o);
      && (Below(d, i, o) <= count ==> Below(Step(d, op), i, o) <= CountAfter(d, op, s, count))
      && (Below(d, i, o) == count && !LeakOp(d, op) ==>
            Below(Step(d, op), i, o) == CountAfter(d, op, s, count))
  {
    StrictStep(d, op);
    if op.Io? {
      StrictMap(d, op.rq);
      if op.rq.dir.Write? { WriteHistory(d, op.rq, Map(d, op.rq), i, o); }
    } else if op.ZoneReset? {
      ResetHistory(d, op.sector, i, o);
    }
  }

  /** The log `count` says of every sector of every sequential zone exactly what the write pointers
      say: written once if it lies below the pointer, not written if it does not. */
  ghost predicate Exact(d: Device, count: nat -> nat)
    requires d.Valid()
  {
    forall i, o {:trigger count(SectorAt(d.Z(), i, o))} ::
      0 <= i < d.N() && d.IsSeq(i) && 0 <= o < d.Z() ==> count(SectorAt(d.Z(), i, o)) == Below(d, i, o)
  }

  /** An operation of a strict run keeps the log exact if and only if it is not a leak. */
  lemma ExactUnlessLeak(d: Device, op: Op, count: nat -> nat)
    requires StrictState(d) && Enabled(d, op) && op.KeepsConfig()
    requires Exact(d, count)
    ensures Exact(Step(d, op), s => CountAfter(d, op, s, count(s))) <==> !LeakOp(d, op)
  {
    var r := Step(d, op);
    var after := (s: nat) => CountAfter(d, op, s, count(s));
    StrictStep(d, op);
    if LeakOp(d, op) {
      var i := ZoneOf(d, op.rq.lba) + 1;
      var s := SectorAt(d.Z(), i, 0);
      StrictMap(d, op.rq);
      WriteHistory(d, op.rq, Map(d, op.rq), i, 0);
      assert count(s) == Below(d, i, 0);
      assert after(s) == Below(r, i, 0) + 1;
      assert !Exact(r, after);
    } else {
      forall i, o | 0 <= i < r.N() && r.IsSeq(i) && 0 <= o < r.Z()
        ensures after(SectorAt(r.Z(), i, o)) == Below(r, i, o)
      {
        assert count(SectorAt(d.Z(), i, o)) == Below(d, i, o);
        StepHistory(d, op, i, o, count(SectorAt(d.Z(), i, o)));
      }
    }
  }

  // ------------------------------------------------------------- whole runs

  /** Over every strict run the sectors below each write pointer have been written since the last
      reset; without a leak, exactly those, and each exactly once. */
  lemma {:induction false} StrictHistory(d: Device, ops: seq<Op>, i: nat, o: nat, count: nat)
    requires StrictState(d) && IoRun(d, ops)
    requires i < d.N() && d.IsSeq(i) && o < d.Z()
    requires Below(d, i, o) <= count
    ensures SameLayout(d, Run(d, ops))
    ensures Below(Run(d, ops), i, o) <= WritesSinceReset(d, ops, SectorAt(d.Z(), i, o), count)
    ensures Below(d, i, o) == count && NoLeaks(d, ops) ==>
              Below(Run(d, ops), i, o) == WritesSinceReset(d, ops, SectorAt(d.Z(), i, o), count)
    decreases |ops|
  {
    if ops == [] {
    } else {
      var s := SectorAt(d.Z(), i, o);
      StepHistory(d, ops[0], i, o, count);
      StrictStep(d, ops[0]);
      StrictHistory(Step(d, ops[0]), ops[1..], i, o, CountAfter(d, ops[0], s, count));
    }
  }

  /** The main statement, from initialisation. */
  lemma WrittenExactlyBelowPointer(capacity: nat, shift: nat, ops: seq<Op>, i: nat, o: nat)
    requires capacity <= MAX_CAPACITY && shift <= ZONE_SIZE_SHIFT_MAX
    requires IoRun(Initial(capacity, shift), ops)
    requires NoLeaks(Initial(capacity, shift), ops)
    requires var d := Run(Initial(capacity, shift), ops); i < d.N() && d.IsSeq(i) && o < d.Z()
    ensures
      var d := Run(Initial(capacity, shift), ops);
      WritesSinceReset(Initial(capacity, shift), ops, SectorAt(d.Z(), i, o), 0) ==
      if o < d.status[i].wp then 1 else 0
  {
    var d0 := Initial(capacity, shift);
    StrictInitial(capacity, shift);
    StrictRun(d0, ops);
    StrictHistory(d0, ops, i, o, 0);
  }

  /** Every accepted read of a sequential zone covers only written sectors, leaks or not. */
  lemma AcceptedReadIsWritten(capacity: nat, shift: nat, ops: seq<Op>, rq: Request, s: nat)
    requires capacity <= MAX_CAPACITY && shift <= ZONE_SIZE_SHIFT_MAX
    requires IoRun(Initial(capacity, shift), ops)
    requires rq.dir.Read? && Covers(rq, s)
    requires
      var d := Run(Initial(capacity, shift), ops);
      Map(d, rq).mapped && d.IsSeq(ZoneOf(d, rq.lba))
    ensures WritesSinceReset(Initial(capacity, shift), ops, s, 0) >= 1
  {
    var d0 := Initial(capacity, shift);
    StrictInitial(capacity, shift);
    StrictRun(d0, ops);
    var d := Run(d0, ops);
    StrictMap(d, rq);
    AddressableOffset(d, rq);
    var i := ZoneOf(d, rq.lba);
    var o := s - i * d.Z();
    assert s == SectorAt(d.Z(), i, o);
    StrictHistory(d0, ops, i, o, 0);
  }

  /** A write accepted in a conventional zone that touches a sector of a sequential zone is a leak,
      and a leak is accepted and touches one. */
  lemma ConventionalTouchesSequentialIffLeak(d: Device, rq: Request)
    requires StrictState(d) && MapInTable(d, rq) && rq.dir.Write?
    requires Addressable(d, rq) && d.IsConv(ZoneOf(d, rq.lba))
    ensures Leak(d, rq) <==>
      && Map(d, rq).mapped
      && exists i, o ::
          && 0 <= i < d.N() && 0 <= o < d.Z()
          && d.IsSeq(i) && Covers(rq, SectorAt(d.Z(), i, o))
  {
    StrictMap(d, rq);
    AddressableOffset(d, rq);
    var j: nat, off, n, z := ZoneOf(d, rq.lba), OffsetOf(d, rq.lba), rq.sectors, d.Z();
    assert ZoneOk(d.status[j], z);
    if Leak(d, rq) {
      CoverageByZone(z, j, off, n, j + 1, 0);
      assert Covers(rq, SectorAt(z, j + 1, 0));
    }
    forall i, o | 0 <= i < d.N() && 0 <= o < z && d.IsSeq(i) && Covers(rq, SectorAt(z, i, o))
      ensures Map(d, rq).mapped ==> Leak(d, rq)
    {
      CoverageByZone(z, j, off, n, i, o);
    }
  }
}
