/** Further invariants of strict runs: conservation of written sectors, agreement of condition and
    write pointer, alignment, and the accounting of violations. */
module StrictTotals {
  import opened Geometry
  import opened ZoneTypes
  import opened ZoneRules
  import opened Operations
  import opened StrictRules

  // ------------------------------------------------------------ conservation

  function Weight(s: ZoneStatus): nat { if s.ztype.Sequential? then s.wp else 0 }

  /** Sum of the write pointers of the sequential zones among the first `n`. */
  function SumWp(s: seq<ZoneStatus>, n: nat): nat
    requires n <= |s|
  {
    if n == 0 then 0 else SumWp(s, n - 1) + Weight(s[n - 1])
  }

  lemma {:induction false} SumUpdate(s: seq<ZoneStatus>, n: nat, i: nat, x: ZoneStatus)
    requires n <= |s| && i < |s|
    ensures SumWp(s[i := x], n) == SumWp(s, n) + if i < n then Weight(x) - Weight(s[i]) else 0
  {
    if n == 0 {
    } else {
      SumUpdate(s, n - 1, i, x);
    }
  }

  lemma {:induction false} SumSame(s: seq<ZoneStatus>, t: seq<ZoneStatus>, n: nat)
    requires n <= |s| == |t|
    requires forall k :: 0 <= k < n ==> Weight(s[k]) == Weight(t[k])
    ensures SumWp(s, n) == SumWp(t, n)
  {
    if n == 0 {
    } else {
      SumSame(s, t, n - 1);
    }
  }

  /** Sectors of an accepted write that starts in a sequential zone. */
  function Accepted(d: Device, op: Op): nat
    requires d.Valid() && Enabled(d, op)
  {
    if op.IsWrite() && Addressable(d, op.rq) && d.IsSeq(ZoneOf(d, op.rq.lba)) && Map(d, op.rq).mapped
    then op.rq.sectors else 0
  }

  /** Sectors a zone reset throws away. */
  function Discarded(d: Device, op: Op): nat
    requires d.Valid()
  {
    if op.ZoneReset? && ResetAccepted(d, op.sector) then Weight(d.status[ZoneOf(d, op.sector)]) else 0
  }

  function TotalAccepted(d: Device, ops: seq<Op>): nat
    requires Runs(d, ops)
    decreases |ops|
  {
    if ops == [] then 0 else Accepted(d, ops[0]) + TotalAccepted(Step(d, ops[0]), ops[1..])
  }

  function TotalDiscarded(d: Device, ops: seq<Op>): nat
    requires Runs(d, ops)
    decreases |ops|
  {
    if ops == [] then 0 else Discarded(d, ops[0]) + TotalDiscarded(Step(d, ops[0]), ops[1..])
  }

  lemma WriteConserves(d: Device, i: nat, off: nat, n: nat, r: Device, passed: bool)
    requires StrictState(d) && i < d.N() && d.IsSeq(i)
    requires off < d.Z() && off + n <= 2 * d.Z() && SequentialOutcome(d, i, off, n, r, passed)
    ensures |r.status| == |d.status|
    ensures SumWp(r.status, d.N()) == SumWp(d.status, d.N()) + if passed then n else 0
  {
    ZoneSectorsBound(d.layout.zoneShift);
    var z, end := d.Z(), off + n;
    if passed {
      if end <= z {
        SumUpdate(d.status, d.N(), i, r.status[i]);
      } else {
        SumUpdate(d.status, d.N(), i, r.status[i]);
        SumUpdate(d.status[i := r.status[i]], d.N(), i + 1, r.status[i + 1]);
      }
    }
  }

  lemma StepConserves(d: Device, op: Op)
    requires StrictState(d) && Enabled(d, op) && op.KeepsConfig()
    ensures SameLayout(d, Step(d, op))
    ensures SumWp(Step(d, op).status, d.N()) == SumWp(d.status, d.N()) + Accepted(d, op) - Discarded(d, op)
  {
    StrictStep(d, op);
    if op.Io? {
      StrictMap(d, op.rq);
      IoConserves(d, op.rq, Map(d, op.rq));
    } else if op.ZoneReset? {
      if ResetAccepted(d, op.sector) {
        var i := ZoneOf(d, op.sector);
        SumUpdate(d.status, d.N(), i, ResetZone(d, op.sector).status[i]);
      }
    } else {
      SumSame(d.status, Step(d, op).status, d.N());
    }
  }

  lemma IoConserves(d: Device, rq: Request, r: MapResult)
    requires StrictState(d) && StrictMapped(d, rq, r)
    ensures |r.device.status| == |d.status|
    ensures SumWp(r.device.status, d.N()) == SumWp(d.status, d.N()) +
      if rq.dir.Write? && Addressable(d, rq) && d.IsSeq(ZoneOf(d, rq.lba)) && r.mapped then rq.sectors else 0
  {
    if rq.dir.Write? && Addressable(d, rq) && Writable(d, ZoneOf(d, rq.lba), OffsetOf(d, rq.lba)) {
      AddressableOffset(d, rq);
      var i, off, n := ZoneOf(d, rq.lba), OffsetOf(d, rq.lba), rq.sectors;
      assert ZoneOk(d.status[i], d.Z());
      if d.IsSeq(i) {
        WriteConserves(d, i, off, n, r.device, r.mapped);
      } else {
        SumSame(d.status, r.device.status, d.N());
      }
    }
  }

  lemma {:induction false} RunConserves(d: Device, ops: seq<Op>)
    requires StrictState(d) && IoRun(d, ops)
    ensures SameLayout(d, Run(d, ops))
    ensures SumWp(Run(d, ops).status, d.N()) + TotalDiscarded(d, ops) ==
            SumWp(d.status, d.N()) + TotalAccepted(d, ops)
    decreases |ops|
  {
    if ops == [] {
    } else {
      StepConserves(d, ops[0]);
      StrictStep(d, ops[0]);
      RunConserves(Step(d, ops[0]), ops[1..]);
    }
  }

  /** Conservation: the pointers of the sequential zones add up to the sectors of all accepted
      writes that began in one, less the sectors thrown away by resets. */
  lemma Conservation(capacity: nat, shift: nat, ops: seq<Op>)
    requires capacity <= MAX_CAPACITY && shift <= ZONE_SIZE_SHIFT_MAX
    requires IoRun(Initial(capacity, shift), ops)
    ensures
      var d0 := Initial(capacity, shift);
      var d := Run(d0, ops);
      && d.N() <= |d.status|
      && SumWp(d.status, d.N()) == TotalAccepted(d0, ops) - TotalDiscarded(d0, ops)
  {
    var d0 := Initial(capacity, shift);
    StrictInitial(capacity, shift);
    RunConserves(d0, ops);
    NothingWritten(d0.status, d0.N());
  }

  lemma NothingWritten(s: seq<ZoneStatus>, n: nat)
    requires n <= |s| && forall k :: 0 <= k < n ==> s[k].wp == 0
    ensures SumWp(s, n) == 0
  {}

  // --------------------------------------------- condition and write pointer

  /** Sequential zones are EMPTY exactly when nothing is written. */
  predicate Agrees(d: Device)
    requires d.Valid()
  {
    forall i :: 0 <= i < d.N() && d.IsSeq(i) ==> (d.status[i].cond.Empty? <==> d.status[i].wp == 0)
  }

  /** A zero-length write to an empty sequential zone; a flush is such a write when zone 0 is
      sequential. */
  predicate EmptyWrite(d: Device, op: Op)
    requires d.Valid()
  {
    && op.IsWrite() && op.rq.sectors == 0
    && Addressable(d, op.rq)
    && var i := ZoneOf(d, op.rq.lba);
      && d.IsSeq(i) && d.status[i].wp == 0 && OffsetOf(d, op.rq.lba) == 0
  }

  /** An operation of a strict run keeps condition and pointer in agreement if and only if it is not
      a zero-length write to an empty zone, which leaves that zone CLOSED with pointer 0. */
  lemma AgreementUnlessEmptyWrite(d: Device, op: Op)
    requires StrictState(d) && Agrees(d) && Enabled(d, op) && op.KeepsConfig()
    ensures Agrees(Step(d, op)) <==> !EmptyWrite(d, op)
  {
    StrictStep(d, op);
    if op.Io? {
      StrictMap(d, op.rq);
      IoAgreement(d, op.rq, Map(d, op.rq));
    }
  }

  lemma IoAgreement(d: Device, rq: Request, r: MapResult)
    requires StrictState(d) && Agrees(d) && StrictMapped(d, rq, r) && r.device.Valid()
    ensures Agrees(r.device) <==> !EmptyWrite(d, Io(rq))
  {
    StrictMapState(d, rq, r);
    if rq.dir.Write? && Addressable(d, rq) {
      AddressableOffset(d, rq);
      var i, off, n := ZoneOf(d, rq.lba), OffsetOf(d, rq.lba), rq.sectors;
      assert ZoneOk(d.status[i], d.Z());
      if d.IsSeq(i) && Writable(d, i, off) {
        SequentialAgreement(d, i, off, n, r.device, r.mapped);
      }
    }
  }

  lemma SequentialAgreement(d: Device, i: nat, off: nat, n: nat, r: Device, passed: bool)
    requires StrictState(d) && Agrees(d) && i < d.N() && d.IsSeq(i)
    requires off < d.Z() && off + n <= 2 * d.Z() && SequentialOutcome(d, i, off, n, r, passed)
    requires r.Valid()
    ensures Agrees(r) <==> !(n == 0 && d.status[i].wp == 0 && off == 0)
  {
    ZoneSectorsBound(d.layout.zoneShift);
    if n == 0 && d.status[i].wp == 0 && off == 0 {
      assert r.IsSeq(i) && r.status[i].wp == 0 && r.status[i].cond.Closed?;
    } else {
      forall k | 0 <= k < d.N() && r.IsSeq(k)
        ensures r.status[k].cond.Empty? <==> r.status[k].wp == 0
      {
        assert d.IsSeq(k);
      }
    }
  }

  predicate NoEmptyWrites(d: Device, ops: seq<Op>)
    requires Runs(d, ops)
    decreases |ops|
  {
    ops == [] || (!EmptyWrite(d, ops[0]) && NoEmptyWrites(Step(d, ops[0]), ops[1..]))
  }

  lemma {:induction false} RunAgrees(d: Device, ops: seq<Op>)
    requires StrictState(d) && Agrees(d) && IoRun(d, ops) && NoEmptyWrites(d, ops)
    ensures Agrees(Run(d, ops))
    decreases |ops|
  {
    if ops == [] {
    } else {
      AgreementUnlessEmptyWrite(d, ops[0]);
      StrictStep(d, ops[0]);
      RunAgrees(Step(d, ops[0]), ops[1..]);
    }
  }

  /** Condition and pointer over every strict run without zero-length writes to empty zones. */
  lemma ConditionMatchesPointer(capacity: nat, shift: nat, ops: seq<Op>, i: nat)
    requires capacity <= MAX_CAPACITY && shift <= ZONE_SIZE_SHIFT_MAX
    requires IoRun(Initial(capacity, shift), ops)
    requires NoEmptyWrites(Initial(capacity, shift), ops)
    requires i < Run(Initial(capacity, shift), ops).N()
    ensures
      var d := Run(Initial(capacity, shift), ops);
      var s := d.status[i];
      if d.IsSeq(i) then
        && (s.cond.Empty? || s.cond.Closed? || s.cond.Full?)
        && (s.cond.Empty? <==> s.wp == 0)
        && (s.cond.Full? ==> s.wp == d.Z())
        && (s.cond.Closed? ==> 0 < s.wp <= d.Z())
      else d.IsConv(i) && s.cond.NoWp?
  {
    var d0 := Initial(capacity, shift);
    StrictInitial(capacity, shift);
    RunAgrees(d0, ops);
    StrictRun(d0, ops);
    assert ZoneOk(Run(d0, ops).status[i], Run(d0, ops).Z());
  }

  predicate ClosedAtEnd(d: Device, k: nat)
    requires k < |d.status|
  {
    d.IsSeq(k) && d.status[k].cond.Closed? && d.status[k].wp == d.Z()
  }

  /** The request is a mapped write whose split exactly fills zone `k`, the second of two zones. */
  predicate ExactSplit(d: Device, rq: Request, mapped: bool, k: nat)
    requires d.Valid() && k < |d.status|
  {
    && rq.dir.Write? && Addressable(d, rq) && mapped
    && k == ZoneOf(d, rq.lba) + 1
    && Splits(d, k - 1, 2 * d.Z())
    && OffsetOf(d, rq.lba) + rq.sectors == 2 * d.Z()
  }

  /** A zone becomes CLOSED with a full pointer only by a split that exactly fills it, as the second
      of two zones. */
  lemma ClosedAtEndOnlyBySplit(d: Device, op: Op, k: nat)
    requires StrictState(d) && Enabled(d, op) && op.KeepsConfig() && k < d.N()
    ensures SameLayout(d, Step(d, op))
    ensures !ClosedAtEnd(d, k) && ClosedAtEnd(Step(d, op), k) ==>
              op.Io? && ExactSplit(d, op.rq, Map(d, op.rq).mapped, k)
  {
    StrictStep(d, op);
    if op.Io? {
      StrictMap(d, op.rq);
      IoClosedAtEnd(d, op.rq, Map(d, op.rq), k);
    }
  }

  lemma IoClosedAtEnd(d: Device, rq: Request, r: MapResult, k: nat)
    requires StrictState(d) && StrictMapped(d, rq, r) && SameLayout(d, r.device) && k < d.N()
    ensures !ClosedAtEnd(d, k) && ClosedAtEnd(r.device, k) ==> ExactSplit(d, rq, r.mapped, k)
  {
    if Addressable(d, rq) {
      AddressableOffset(d, rq);
      var i, off, n := ZoneOf(d, rq.lba), OffsetOf(d, rq.lba), rq.sectors;
      assert ZoneOk(d.status[i], d.Z());
      if rq.dir.Write? && Writable(d, i, off) && d.IsSeq(i) {
        SequentialClosedAtEnd(d, i, off, n, r.device, r.mapped, k);
      }
    }
  }

  lemma SequentialClosedAtEnd(d: Device, i: nat, off: nat, n: nat, r: Device, passed: bool, k: nat)
    requires StrictState(d) && i < d.N() && d.IsSeq(i) && k < d.N()
    requires off < d.Z() && off + n <= 2 * d.Z() && SequentialOutcome(d, i, off, n, r, passed)
    requires |r.status| == |d.status| && r.Z() == d.Z()
    ensures !ClosedAtEnd(d, k) && ClosedAtEnd(r, k) ==>
              passed && k == i + 1 && off + n == 2 * d.Z() && Splits(d, i, off + n)
  {
    ZoneSectorsBound(d.layout.zoneShift);
  }

  /** Without border crossing, FULL means exactly that the pointer is at the end. */
  predicate FullAtEnd(d: Device)
    requires d.Valid()
  {
    forall i :: 0 <= i < d.N() ==>
      && d.status[i].flag == CROSS_OFF
      && (d.IsSeq(i) ==> (d.status[i].cond.Full? <==> d.status[i].wp == d.Z()))
  }

  predicate CrossingStaysOff(op: Op) {
    op.Border? ==> op.code != CROSS_SEQ && op.code != CROSS_CUR
  }

  lemma FullAtEndStep(d: Device, op: Op)
    requires StrictState(d) && FullAtEnd(d) && Enabled(d, op) && op.KeepsConfig() && CrossingStaysOff(op)
    ensures FullAtEnd(Step(d, op))
  {
    StrictStep(d, op);
    if op.Io? {
      StrictMap(d, op.rq);
      IoFullAtEnd(d, op.rq, Map(d, op.rq));
    }
  }

  lemma IoFullAtEnd(d: Device, rq: Request, r: MapResult)
    requires StrictState(d) && FullAtEnd(d) && StrictMapped(d, rq, r) && r.device.Valid()
    ensures FullAtEnd(r.device)
  {
    StrictMapState(d, rq, r);
    if rq.dir.Write? && Addressable(d, rq) && Writable(d, ZoneOf(d, rq.lba), OffsetOf(d, rq.lba)) {
      AddressableOffset(d, rq);
      ZoneSectorsBound(d.layout.zoneShift);
      var i, off, n := ZoneOf(d, rq.lba), OffsetOf(d, rq.lba), rq.sectors;
      assert ZoneOk(d.status[i], d.Z());
      assert d.status[i].flag == CROSS_OFF;
    }
  }

  lemma FullIffPointerAtEnd(capacity: nat, shift: nat, ops: seq<Op>, i: nat)
    requires capacity <= MAX_CAPACITY && shift <= ZONE_SIZE_SHIFT_MAX
    requires IoRun(Initial(capacity, shift), ops)
    requires forall op :: op in ops ==> CrossingStaysOff(op)
    requires var d := Run(Initial(capacity, shift), ops); i < d.N() && d.IsSeq(i)
    ensures var d := Run(Initial(capacity, shift), ops); d.status[i].cond.Full? <==> d.status[i].wp == d.Z()
  {
    StrictInitial(capacity, shift);
    FullAtEndRun(Initial(capacity, shift), ops);
  }

  lemma {:induction false} FullAtEndRun(d: Device, ops: seq<Op>)
    requires StrictState(d) && FullAtEnd(d) && IoRun(d, ops)
    requires forall op :: op in ops ==> CrossingStaysOff(op)
    ensures FullAtEnd(Run(d, ops))
    decreases |ops|
  {
    if ops == [] {
    } else {
      FullAtEndStep(d, ops[0]);
      StrictStep(d, ops[0]);
      FullAtEndRun(Step(d, ops[0]), ops[1..]);
    }
  }

  // --------------------------------------------------------------- alignment

  /** A write accepted into a sequential zone starts and ends on a 4 KiB boundary. */
  lemma AcceptedWriteIsAligned(capacity: nat, shift: nat, ops: seq<Op>, rq: Request)
    requires capacity <= MAX_CAPACITY && shift <= ZONE_SIZE_SHIFT_MAX
    requires IoRun(Initial(capacity, shift), ops)
    requires
      var d := Run(Initial(capacity, shift), ops);
      && rq.dir.Write? && MapInTable(d, rq)
      && Addressable(d, rq) && d.IsSeq(ZoneOf(d, rq.lba)) && Map(d, rq).mapped
    ensures rq.lba % 8 == 0 && (rq.lba + rq.sectors) % 8 == 0
  {
    StrictInitial(capacity, shift);
    StrictRun(Initial(capacity, shift), ops);
    var d := Run(Initial(capacity, shift), ops);
    StrictMap(d, rq);
    AlignedInState(d, rq, Map(d, rq));
  }

  lemma AlignedInState(d: Device, rq: Request, r: MapResult)
    requires StrictState(d) && StrictMapped(d, rq, r)
    requires rq.dir.Write? && Addressable(d, rq) && d.IsSeq(ZoneOf(d, rq.lba)) && r.mapped
    ensures rq.lba % 8 == 0 && (rq.lba + rq.sectors) % 8 == 0
  {
    OffsetAligned(d, rq, r);
    AddressAligned(d, rq);
  }

  lemma AddressAligned(d: Device, rq: Request)
    requires d.Valid() && Addressable(d, rq)
    requires OffsetOf(d, rq.lba) % 8 == 0 && rq.sectors % 8 == 0
    ensures rq.lba % 8 == 0 && (rq.lba + rq.sectors) % 8 == 0
  {
    AddressableOffset(d, rq);
    var start, off := ZoneOf(d, rq.lba) * d.Z(), OffsetOf(d, rq.lba);
    ZoneStartAligned(ZoneOf(d, rq.lba), d.layout.zoneShift);
    SumOfEights(start, off, rq.sectors);
  }

  lemma OffsetAligned(d: Device, rq: Request, r: MapResult)
    requires StrictState(d) && StrictMapped(d, rq, r)
    requires rq.dir.Write? && Addressable(d, rq) && d.IsSeq(ZoneOf(d, rq.lba)) && r.mapped
    ensures OffsetOf(d, rq.lba) % 8 == 0 && rq.sectors % 8 == 0
  {
    assert ZoneOk(d.status[ZoneOf(d, rq.lba)], d.Z());
  }

  lemma ZoneStartAligned(i: nat, shift: nat)
    ensures (i * ZoneSectors(shift)) % 8 == 0
  {
    EightTimes(i, Pow2(shift));
  }

  // -------------------------------------------------------------- accounting

  /** The request reaches a rule check of zone `i`. */
  predicate Checked(d: Device, rq: Request, i: nat)
    requires d.Valid()
  {
    && Addressable(d, rq) && ZoneOf(d, rq.lba) == i
    && (rq.dir.Write? ==> Writable(d, i, OffsetOf(d, rq.lba)))
  }

  /** Unbounded counts of the five kinds of violation of one zone. */
  datatype Tally = Tally(beyondSwp: nat, readSpan: nat, notOnSwp: nat, writeSpan: nat, unaligned: nat)

  const NO_VIOLATIONS := Tally(0, 0, 0, 0, 0)

  function Wrapped(t: Tally): ZoneStats {
    ZoneStats(Wrap32(t.beyondSwp), Wrap32(t.readSpan), Wrap32(t.notOnSwp), Wrap32(t.writeSpan), Wrap32(t.unaligned))
  }

  /** Every checked request violates at most one rule, the first of: alignment, starting at the
      write pointer, staying inside the zone (a split counts; a conventional write counts when it
      is refused), and for reads staying inside the zone, staying below the write pointer. */
  function TallyAfter(d: Device, op: Op, i: nat, t: Tally): Tally
    requires d.Valid() && Enabled(d, op) && i < d.N()
  {
    if op.StatsReset? || (op.ZoneStatsReset? && ZoneOf(d, op.sector) == i) then NO_VIOLATIONS
    else if op.Io? && Checked(d, op.rq, i) then
      var off, end := OffsetOf(d, op.rq.lba), OffsetOf(d, op.rq.lba) + op.rq.sectors;
      if op.rq.dir.Read? then
        if end > d.Z() then t.(readSpan := t.readSpan + 1)
        else if d.IsSeq(i) && end > d.status[i].wp then t.(beyondSwp := t.beyondSwp + 1)
        else t
      else if d.IsConv(i) then
        if Map(d, op.rq).mapped then t else t.(writeSpan := t.writeSpan + 1)
      else if op.rq.sectors % 8 != 0 then t.(unaligned := t.unaligned + 1)
      else if off != d.status[i].wp then t.(notOnSwp := t.notOnSwp + 1)
      else if end > d.Z() then t.(writeSpan := t.writeSpan + 1)
      else t
    else t
  }

  /** The violations of zone `i` since its statistics were last reset. */
  function Violations(d: Device, ops: seq<Op>, i: nat, t: Tally): Tally
    requires Runs(d, ops)
    decreases |ops|
  {
    if ops == [] || d.N() <= i then t
    else Violations(Step(d, ops[0]), ops[1..], i, TallyAfter(d, ops[0], i, t))
  }

  /** A refused request leaves the zone table as it was; one refused before its rule check leaves
      the statistics as they were too. */
  lemma RefusedRequestKeepsTable(d: Device, rq: Request)
    requires StrictState(d) && MapInTable(d, rq) && !Map(d, rq).mapped
    ensures Map(d, rq).device == d.(stats := Map(d, rq).device.stats)
    ensures !Checked(d, rq, ZoneOf(d, rq.lba)) ==> Map(d, rq).device == d
  {
    StrictMap(d, rq);
    if Addressable(d, rq) { assert ZoneOk(d.status[ZoneOf(d, rq.lba)], d.Z()); }
  }

  lemma StepAccounts(d: Device, op: Op, i: nat, t: Tally)
    requires StrictState(d) && Enabled(d, op) && op.KeepsConfig()
    requires i < d.N() == d.layout.statsZones
    requires d.stats[i] == Wrapped(t)
    ensures |Step(d, op).stats| == |d.stats|
    ensures Step(d, op).stats[i] == Wrapped(TallyAfter(d, op, i, t))
  {
    if op.Io? {
      StrictMap(d, op.rq);
      if Checked(d, op.rq, i) { IoAccounts(d, op.rq, Map(d, op.rq), i, t); }
    }
  }

  lemma IoAccounts(d: Device, rq: Request, r: MapResult, i: nat, t: Tally)
    requires StrictState(d) && MapInTable(d, rq) && r == Map(d, rq) && StrictMapped(d, rq, r)
    requires i < d.N() && Checked(d, rq, i) && d.stats[i] == Wrapped(t)
    ensures |r.device.stats| == |d.stats|
    ensures r.device.stats[i] == Wrapped(TallyAfter(d, Io(rq), i, t))
  {
    AddressableOffset(d, rq);
    assert ZoneOk(d.status[i], d.Z());
    var off, n := OffsetOf(d, rq.lba), rq.sectors;
    if rq.dir.Write? && d.IsSeq(i) {
      SequentialAccounts(d, i, off, n, r.device, r.mapped, t);
    } else if rq.dir.Read? {
      ReadAccounts(d, rq, r, i, t);
    } else {
      WrapNext(t.writeSpan);
    }
  }

  lemma ReadAccounts(d: Device, rq: Request, r: MapResult, i: nat, t: Tally)
    requires StrictState(d) && StrictMapped(d, rq, r) && rq.dir.Read?
    requires i < d.N() && Checked(d, rq, i) && d.stats[i] == Wrapped(t)
    ensures |r.device.stats| == |d.stats|
    ensures r.device.stats[i] == Wrapped(
      var end := OffsetOf(d, rq.lba) + rq.sectors;
      if end > d.Z() then t.(readSpan := t.readSpan + 1)
      else if d.IsSeq(i) && end > d.status[i].wp then t.(beyondSwp := t.beyondSwp + 1)
      else t)
  {
    assert ZoneOk(d.status[i], d.Z());
    WrapNext(t.beyondSwp);
    WrapNext(t.readSpan);
  }

  lemma SequentialAccounts(d: Device, i: nat, off: nat, n: nat, r: Device, passed: bool, t: Tally)
    requires d.Valid() && i < d.N() && SequentialOutcome(d, i, off, n, r, passed)
    requires off + n <= 2 * d.Z() && d.stats[i] == Wrapped(t)
    ensures |r.stats| == |d.stats|
    ensures r.stats[i] == Wrapped(
      if n % 8 != 0 then t.(unaligned := t.unaligned + 1)
      else if off != d.status[i].wp then t.(notOnSwp := t.notOnSwp + 1)
      else if off + n > d.Z() then t.(writeSpan := t.writeSpan + 1)
      else t)
  {
    WrapNext(t.notOnSwp);
    WrapNext(t.writeSpan);
    WrapNext(t.unaligned);
  }

  lemma WrapNext(a: nat)
    ensures Wrap32(Wrap32(a) + 1) == Wrap32(a + 1)
  {}

  lemma {:induction false} RunAccounts(d: Device, ops: seq<Op>, i: nat, t: Tally)
    requires StrictState(d) && IoRun(d, ops) && i < d.N() == d.layout.statsZones
    requires d.stats[i] == Wrapped(t)
    ensures SameLayout(d, Run(d, ops))
    ensures Run(d, ops).stats[i] == Wrapped(Violations(d, ops, i, t))
    decreases |ops|
  {
    if ops == [] {
    } else {
      StepAccounts(d, ops[0], i, t);
      StrictStep(d, ops[0]);
      RunAccounts(Step(d, ops[0]), ops[1..], i, TallyAfter(d, ops[0], i, t));
    }
  }

  /** Accounting: each 32-bit counter of a zone is, modulo 2^32, the number of violations of its
      kind since the last statistics reset. */
  lemma CountersMatchViolations(capacity: nat, shift: nat, ops: seq<Op>, i: nat)
    requires capacity <= MAX_CAPACITY && shift <= ZONE_SIZE_SHIFT_MAX
    requires IoRun(Initial(capacity, shift), ops)
    requires i < Run(Initial(capacity, shift), ops).N()
    ensures Run(Initial(capacity, shift), ops).stats[i] ==
            Wrapped(Violations(Initial(capacity, shift), ops, i, NO_VIOLATIONS))
  {
    StrictInitial(capacity, shift);
    StrictRun(Initial(capacity, shift), ops);
    RunAccounts(Initial(capacity, shift), ops, i, NO_VIOLATIONS);
  }
}
