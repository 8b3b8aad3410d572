/** The dirty-zone queue over whole strict runs of the device. */
module DirtyRuns {
  import opened Geometry
  import opened ZoneTypes
  import opened ZoneRules
  import opened Operations
  import opened StrictRules
  import opened DirtyQueue

  /** The persisted state of `n` zones must have a 32-bit size. */
  predicate StateSizeFits(n: nat) { 44 + 44 * n < TWO32 }

  function MarkOf(d: Device, op: Op): Mark
    requires d.Valid() && Enabled(d, op)
  {
    if op.Io? then Map(d, op.rq).mark else NoMark
  }

  function RunMarks(d: Device, ops: seq<Op>): seq<Mark>
    requires Runs(d, ops)
    decreases |ops|
  {
    if ops == [] then [] else [MarkOf(d, ops[0])] + RunMarks(Step(d, ops[0]), ops[1..])
  }

  lemma MapMark(d: Device, rq: Request)
    requires StrictState(d) && MapInTable(d, rq)
    ensures rq.dir.Write? && Map(d, rq).mapped <==> Map(d, rq).mark.StatusMark?
    ensures Map(d, rq).mark.StatusMark? ==>
              Map(d, rq).mark.zone == ZoneOf(d, rq.lba) && ZoneOf(d, rq.lba) < d.N()
  {
    StrictMap(d, rq);
    if Addressable(d, rq) { assert ZoneOk(d.status[ZoneOf(d, rq.lba)], d.Z()); }
  }

  lemma {:induction false} RunMarksBelow(d: Device, ops: seq<Op>)
    requires StrictState(d) && IoRun(d, ops)
    ensures |RunMarks(d, ops)| == |ops|
    ensures forall m :: m in RunMarks(d, ops) ==> MarkBelow(m, d.N())
    decreases |ops|
  {
    if ops == [] {
    } else {
      StrictStep(d, ops[0]);
      if ops[0].Io? { MapMark(d, ops[0].rq); }
      RunMarksBelow(Step(d, ops[0]), ops[1..]);
    }
  }

  lemma {:induction false} MarkAt(d: Device, ops: seq<Op>, k: nat)
    requires StrictState(d) && IoRun(d, ops) && k < |ops|
    ensures |RunMarks(d, ops)| == |ops| && Runs(d, ops[..k])
    ensures StrictState(Run(d, ops[..k])) && Enabled(Run(d, ops[..k]), ops[k])
    ensures RunMarks(d, ops)[k] == MarkOf(Run(d, ops[..k]), ops[k])
    decreases |ops|
  {
    RunMarksBelow(d, ops);
    if k == 0 {
      assert ops[..0] == [];
    } else {
      StrictStep(d, ops[0]);
      MarkAt(Step(d, ops[0]), ops[1..], k - 1);
      assert ops[..k][1..] == ops[1..][..k - 1];
    }
  }

  /** Every write a strict run has mapped is in a zone that the queue covers or that a pending full
      save will write; the queue holds at most 128 zones, pairwise more than 92 apart, and can only
      be full on a device with more than 11811 zones. */
  lemma MappedWritesAreCovered(capacity: nat, shift: nat, ops: seq<Op>, k: nat)
    requires capacity <= MAX_CAPACITY && shift <= ZONE_SIZE_SHIFT_MAX
    requires IoRun(Initial(capacity, shift), ops) && StateSizeFits(Initial(capacity, shift).N())
    requires k < |ops| && ops[k].IsWrite()
    ensures
      var d0 := Initial(capacity, shift);
      var p := MarkedAll(NOTHING_PENDING, RunMarks(d0, ops));
      && QueueInv(p, d0.N())
      && (|p.queue| == QUEUE_DEPTH ==> d0.N() > 11811)
      && Runs(d0, ops[..k])
      && var d := Run(d0, ops[..k]);
        && Enabled(d, ops[k])
        && (Map(d, ops[k].rq).mapped ==> Covered(p, ZoneOf(d, ops[k].rq.lba)))
  {
    var d0 := Initial(capacity, shift);
    StrictInitial(capacity, shift);
    RunMarksBelow(d0, ops);
    MarkAt(d0, ops, k);
    MapMark(Run(d0, ops[..k]), ops[k].rq);
    var marks := RunMarks(d0, ops);
    QueueCoversEveryMark(marks, d0.N());
    var p := MarkedAll(NOTHING_PENDING, marks);
    if p.queue != [] { QueueLength(p, d0.N()); }
    assert marks[k] in marks;
  }
}
