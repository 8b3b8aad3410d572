/** What the rules do in strict mode, and the invariant that strict runs keep. */
module StrictRules {
  import opened Geometry
  import opened ZoneTypes
  import opened ZoneRules
  import opened Operations

  /** The condition of a zone agrees with its write pointer, as far as zero-length writes allow. */
  predicate ZoneOk(s: ZoneStatus, z: nat) {
    && (s.ztype.Conventional? || s.ztype.Sequential?)
    && (s.ztype.Conventional? ==> s.cond.NoWp?)
    && (s.ztype.Sequential? ==>
      && s.wp <= z
      && s.wp % 8 == 0
      && (s.cond.Empty? || s.cond.Closed? || s.cond.Full?)
      && (s.cond.Empty? ==> s.wp == 0)
      && (s.cond.Full? ==> s.wp == z))
  }

  predicate StrictState(d: Device) {
    && d.Valid()
    && d.Strict()
    && forall i :: 0 <= i < d.N() ==> ZoneOk(d.status[i], d.Z())
  }

  /** Same layout and zone types. */
  predicate SameLayout(d: Device, r: Device) {
    && r.layout == d.layout
    && |r.status| == |d.status|
    && forall k :: 0 <= k < |d.status| ==> r.status[k].ztype == d.status[k].ztype
  }

  function Advanced(d: Device, i: nat, end: nat): Device
    requires i < |d.status|
  {
    SetStatus(d, i, d.status[i].(wp := Wrap32(end), cond := if end == d.Z() then Full else Closed))
  }

  /** A strict write to a sequential zone: three refusals, an advance or a split. */
  predicate SequentialOutcome(d: Device, i: nat, off: nat, n: nat, r: Device, passed: bool)
    requires d.Valid() && i < |d.status|
  {
    if n % 8 != 0 then r == CountUnaligned(d, i) && !passed
    else if d.status[i].wp != off then r == CountNotOnSwp(d, i) && !passed
    else if off + n <= d.Z() then r == Advanced(d, i, off + n) && passed
    else if Splits(d, i, off + n) then r == Split(d, i, off + n) && passed
    else r == CountWriteSpan(d, i) && !passed
  }

  lemma StrictSequentialWrite(d: Device, i: nat, off: nat, n: nat)
    requires d.Valid() && d.Strict() && i < |d.status| && d.IsSeq(i)
    requires off < d.Z() && off + n <= 2 * d.Z() && InTable(d, i, off, n)
    ensures var r := CheckWrite(d, i, off, n); SequentialOutcome(d, i, off, n, r.device, r.verdict.Pass?)
  {
    ByteAlignment(n);
    if n % 8 == 0 && d.status[i].wp == off {
      assert AlignStage(d, i, n) == Continue(d, false);
      assert PointerStage(d, i, off, false) == Continue(d, false);
      assert ConventionalStage(d, i, off, n, false) == Continue(d, false);
      StrictBorder(d, i, off, n);
      if off + n <= d.Z() { StrictAdvance(d, i, off, n); }
    }
  }

  lemma StrictBorder(d: Device, i: nat, off: nat, n: nat)
    requires d.Valid() && d.Strict() && i < |d.status| && d.IsSeq(i) && d.status[i].wp == off
    requires off < d.Z() && off + n <= 2 * d.Z() && InTable(d, i, off, n)
    ensures
      var b := BorderStage(d, i, off, n, false);
      if off + n <= d.Z() then b == Continue(d, false)
      else if Splits(d, i, off + n) then b == Stop(Split(d, i, off + n), Pass)
      else b == Stop(CountWriteSpan(d, i), WriteBorder)
  {}

  lemma StrictAdvance(d: Device, i: nat, off: nat, n: nat)
    requires d.Valid() && d.policy.writeFlag == 0 && i < |d.status| && d.IsSeq(i) && d.status[i].wp == off
    requires off + n <= d.Z()
    ensures AdvanceStage(d, i, off, n, false) == Outcome(Advanced(d, i, off + n), Pass)
  {
    ZoneSectorsBound(d.layout.zoneShift);
  }

  lemma ByteAlignment(n: nat)
    ensures (512 * n) % 4096 == 0 <==> n % 8 == 0
  {
    QuotientBounds(n, 8);
    assert 512 * n == 4096 * (n / 8) + 512 * (n % 8);
  }

  /** The zones a conventional write spans, when it is let through by the border stage. */
  predicate SpansConventional(d: Device, i: nat, end: nat)
    requires d.Valid()
  {
    && i + 1 < |d.status| && d.IsConv(i + 1)
    && EndZone(i, end, d.Z()) < |d.status| && d.IsConv(EndZone(i, end, d.Z()))
  }

  /** The pointer of zone `k` after an accepted write to conventional zone `i`. In zone `i` it is a
      high-water mark, except that a write ending exactly at it moves it on by the length of the
      write; a write across the border fills the zones it covers and leaves the remainder, which may
      be less than before, in the last one. */
  function ConventionalWp(d: Device, i: nat, off: nat, n: nat, k: nat): nat
    requires i < |d.status| && k < |d.status|
  {
    var z, end, wp := d.Z(), off + n, d.status[i].wp;
    if k == i then
      if end == z then z else if end < wp then wp else if end > z then z
      else if end == wp then Wrap32(wp + n) else end
    else if end <= z || end < wp then d.status[k].wp
    else if i < k < EndZone(i, end, z) then z
    else if k == EndZone(i, end, z) then (if end < 2 * z then end - z else 0)
    else d.status[k].wp
  }

  /** A strict write to a conventional zone leaves every other kind of zone alone, and counts only
      when it is refused. */
  predicate ConventionalOutcome(d: Device, i: nat, off: nat, n: nat, r: Device, passed: bool)
    requires d.Valid() && i < |d.status|
  {
    var end := off + n;
    && passed == (end <= d.Z() || end < d.status[i].wp || SpansConventional(d, i, end))
    && (if passed then r == d.(status := r.status) else r == CountWriteSpan(d, i))
    && |r.status| == |d.status|
    && forall k :: 0 <= k < |d.status| ==>
        && r.status[k] == d.status[k].(wp := r.status[k].wp, cond := r.status[k].cond)
        && (passed ==> r.status[k].wp == ConventionalWp(d, i, off, n, k))
        && (!d.IsConv(k) ==> r.status[k] == d.status[k])
        && (d.IsConv(k) ==> r.status[k].cond.NoWp? || r.status[k].cond == d.status[k].cond)
  }

  lemma StrictConventionalWrite(d: Device, i: nat, off: nat, n: nat)
    requires d.Valid() && d.Strict() && i < |d.status| && d.IsConv(i)
    requires off < d.Z() && off + n <= 2 * d.Z() && InTable(d, i, off, n)
    ensures var r := CheckWrite(d, i, off, n); ConventionalOutcome(d, i, off, n, r.device, r.verdict.Pass?)
  {
    ZoneSectorsBound(d.layout.zoneShift);
  }

  /** The case the conventional stage lets through unseen: the zone's pointer has run past the end
      of the zone, and the write ends below that stale pointer inside the next, sequential zone. */
  predicate Leak(d: Device, rq: Request)
    requires d.Valid()
  {
    && rq.dir.Write?
    && Addressable(d, rq)
    && var i, end := ZoneOf(d, rq.lba), OffsetOf(d, rq.lba) + rq.sectors;
      && d.IsConv(i)
      && d.Z() < end < d.status[i].wp
      && i + 1 < d.N()
      && d.IsSeq(i + 1)
  }

  predicate LeakOp(d: Device, op: Op)
    requires d.Valid()
  {
    op.Io? && Leak(d, op.rq)
  }

  /** What the map function does with a request in a strict state. */
  predicate StrictMapped(d: Device, rq: Request, r: MapResult)
    requires d.Valid()
  {
    var i, off, n := ZoneOf(d, rq.lba), OffsetOf(d, rq.lba), rq.sectors;
    if !Addressable(d, rq) || (rq.dir.Write? && !Writable(d, i, off)) then
      r == MapResult(d, false, StatsMark(i))
    else if rq.dir.Write? then
      && r.mark == (if r.mapped then StatusMark(i) else StatsMark(i))
      && (d.IsSeq(i) ==> SequentialOutcome(d, i, off, n, r.device, r.mapped))
      && (d.IsConv(i) ==> ConventionalOutcome(d, i, off, n, r.device, r.mapped))
    else
      && r.mark == (if r.mapped then NoMark else StatsMark(i))
      && r.device.(stats := d.stats) == d
      && (r.mapped <==> off + n <= d.Z() && (d.IsConv(i) || off + n <= d.status[i].wp))
      && (r.mapped ==> r.device == d)
      && (!r.mapped ==>
            r.device == if off + n > d.Z() then CountReadSpan(d, i) else CountBeyondSwp(d, i))
  }

  lemma StrictMap(d: Device, rq: Request)
    requires StrictState(d) && MapInTable(d, rq)
    ensures StrictMapped(d, rq, Map(d, rq))
  {
    if rq.dir.Write? && Addressable(d, rq) && Writable(d, ZoneOf(d, rq.lba), OffsetOf(d, rq.lba)) {
      AddressableOffset(d, rq);
      var i, off, n := ZoneOf(d, rq.lba), OffsetOf(d, rq.lba), rq.sectors;
      if d.IsSeq(i) {
        StrictSequentialWrite(d, i, off, n);
      } else {
        StrictConventionalWrite(d, i, off, n);
      }
    }
  }

  /** A write of whole blocks from the start of a zone with pointer 0 is mapped, unless the zones are
      of the largest size. */
  lemma WriteFromStart(d: Device, j: nat, n: nat)
    requires StrictState(d) && d.layout.zoneShift < ZONE_SIZE_SHIFT_MAX
    requires j < d.N() && d.status[j].wp == 0 && 0 < n <= d.Z() && n % 8 == 0
    ensures
      var rq := Request(Write, j * d.Z(), n);
      && ZoneOf(d, rq.lba) == j
      && MapInTable(d, rq)
      && var r := Map(d, rq);
        && r.mapped && r.mark == StatusMark(j)
        && |r.device.status| == |d.status| && r.device.status[j].wp == n
  {
    var rq := Request(Write, j * d.Z(), n);
    AddressOf(d, j, 0);
    NotLargest(d.layout.zoneShift);
    assert ZoneOk(d.status[j], d.Z());
    StrictMap(d, rq);
    FromStart(d, j, n, Map(d, rq));
  }

  lemma FromStart(d: Device, j: nat, n: nat, r: MapResult)
    requires StrictState(d) && d.layout.zoneShift < ZONE_SIZE_SHIFT_MAX
    requires j < d.N() && d.status[j].wp == 0 && 0 < n <= d.Z() && n % 8 == 0
    requires d.IsSeq(j) ==> SequentialOutcome(d, j, 0, n, r.device, r.mapped)
    requires d.IsConv(j) ==> ConventionalOutcome(d, j, 0, n, r.device, r.mapped)
    ensures r.mapped && |r.device.status| == |d.status| && r.device.status[j].wp == n
  {
    NotLargest(d.layout.zoneShift);
    assert ZoneOk(d.status[j], d.Z());
  }

  /** Strict runs keep the strict state and the layout. */
  lemma StrictStep(d: Device, op: Op)
    requires StrictState(d) && Enabled(d, op) && op.KeepsConfig()
    ensures StrictState(Step(d, op))
    ensures SameLayout(d, Step(d, op))
  {
    if op.Io? {
      StrictMap(d, op.rq);
      StrictMapState(d, op.rq, Map(d, op.rq));
    }
  }

  lemma StrictMapState(d: Device, rq: Request, r: MapResult)
    requires StrictState(d) && StrictMapped(d, rq, r)
    ensures StrictState(r.device) && SameLayout(d, r.device)
  {
    if rq.dir.Write? && Addressable(d, rq) && Writable(d, ZoneOf(d, rq.lba), OffsetOf(d, rq.lba)) {
      AddressableOffset(d, rq);
      var i, off, n := ZoneOf(d, rq.lba), OffsetOf(d, rq.lba), rq.sectors;
      assert ZoneOk(d.status[i], d.Z());
      if d.IsConv(i) {
        ConventionalState(d, i, off, n, r.device, r.mapped);
      } else {
        SequentialState(d, i, off, n, r.device, r.mapped);
      }
    }
  }

  lemma ConventionalState(d: Device, i: nat, off: nat, n: nat, r: Device, passed: bool)
    requires StrictState(d) && i < d.N() && ConventionalOutcome(d, i, off, n, r, passed)
    ensures StrictState(r) && SameLayout(d, r)
  {
    forall k | 0 <= k < d.N()
      ensures ZoneOk(r.status[k], d.Z())
    {
      assert ZoneOk(d.status[k], d.Z());
    }
  }

  lemma SequentialState(d: Device, i: nat, off: nat, n: nat, r: Device, passed: bool)
    requires StrictState(d) && i < d.N() && d.IsSeq(i)
    requires off + n <= 2 * d.Z() && SequentialOutcome(d, i, off, n, r, passed)
    ensures StrictState(r) && SameLayout(d, r)
  {
    assert ZoneOk(d.status[i], d.Z());
    if n % 8 == 0 && d.status[i].wp == off {
      SumOfEights(off, n, 0);
      PointedState(d, i, off + n, r);
    } else {
      CountedState(d, r);
    }
  }

  lemma PointedState(d: Device, i: nat, end: nat, r: Device)
    requires StrictState(d) && i < d.N() && d.IsSeq(i) && end <= 2 * d.Z() && end % 8 == 0
    requires r == if end <= d.Z() then Advanced(d, i, end)
                  else if Splits(d, i, end) then Split(d, i, end) else CountWriteSpan(d, i)
    ensures StrictState(r) && SameLayout(d, r)
  {
    if end <= d.Z() {
      AdvancedState(d, i, end);
    } else if Splits(d, i, end) {
      SplitState(d, i, end);
    } else {
      CountedState(d, r);
    }
  }

  lemma CountedState(d: Device, r: Device)
    requires StrictState(d) && r == d.(stats := r.stats) && |r.stats| == |d.stats|
    ensures StrictState(r) && SameLayout(d, r)
  {}

  lemma AdvancedState(d: Device, i: nat, end: nat)
    requires StrictState(d) && i < d.N() && d.IsSeq(i) && end <= d.Z() && end % 8 == 0
    ensures StrictState(Advanced(d, i, end)) && SameLayout(d, Advanced(d, i, end))
  {
    ZoneSectorsBound(d.layout.zoneShift);
  }

  lemma SplitState(d: Device, i: nat, end: nat)
    requires StrictState(d) && i < d.N() && d.Z() < end <= 2 * d.Z() && end % 8 == 0
    requires Splits(d, i, end)
    ensures StrictState(Split(d, i, end)) && SameLayout(d, Split(d, i, end))
  {
    var r, z := Split(d, i, end), d.Z();
    ZoneSectorsBound(d.layout.zoneShift);
    assert (end - z) % 8 == 0;
    forall k | 0 <= k < d.N()
      ensures ZoneOk(r.status[k], z)
    {
      assert ZoneOk(d.status[k], z);
    }
  }

  lemma StrictInitial(capacity: nat, shift: nat)
    requires capacity <= MAX_CAPACITY && shift <= ZONE_SIZE_SHIFT_MAX
    ensures StrictState(Initial(capacity, shift))
  {}

  lemma {:induction false} StrictRun(d: Device, ops: seq<Op>)
    requires StrictState(d) && IoRun(d, ops)
    ensures StrictState(Run(d, ops))
    ensures SameLayout(d, Run(d, ops))
    decreases |ops|
  {
    if ops == [] {
    } else {
      StrictStep(d, ops[0]);
      StrictRun(Step(d, ops[0]), ops[1..]);
    }
  }
}
