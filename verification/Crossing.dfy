/** Border crossing, end to end: which writes are split over two zones after a border call, and what
    the split leaves behind. */
module Crossing {
  import opened Geometry
  import opened ZoneTypes
  import opened ZoneRules
  import opened Operations
  import opened StrictRules

  /** Zone `i` takes a write at its pointer: it is live and sequential, its pointer is inside it, and its
      condition does not get the write refused unseen. */
  predicate Writes(d: Device, i: nat)
    requires d.Valid()
  {
    && i < d.N() && d.status[i].ztype == Sequential && d.status[i].wp < d.Z()
    && d.status[i].cond !in {ReadOnly, Full, Offline}
  }

  /** The write of `n` sectors at the pointer of zone `i`. */
  function AtPointer(d: Device, i: nat, n: nat): Request
    requires i < |d.status|
  {
    Request(Write, i * d.Z() + d.status[i].wp, n)
  }

  /** The next zone is live and sequential, and empty unless the switch that resets pointers is on. */
  predicate NextZoneTakes(d: Device, i: nat)
    requires d.Valid()
  {
    && i + 1 < d.N() && d.status[i + 1].ztype == Sequential
    && (d.status[i + 1].wp == 0 || d.switches.resetOn)
  }

  lemma PointerAddress(d: Device, i: nat, n: nat)
    requires d.Valid() && Writes(d, i)
    ensures var rq := AtPointer(d, i, n); ZoneOf(d, rq.lba) == i && OffsetOf(d, rq.lba) == d.status[i].wp
  {
    AddressOf(d, i, d.status[i].wp);
  }

  /** At the pointer and of whole blocks, a write goes straight to the border stage. */
  lemma ToTheBorder(d: Device, i: nat, n: nat)
    requires d.Valid() && Writes(d, i) && n % 8 == 0
    requires d.Z() < d.status[i].wp + n <= 2 * d.Z() && InTable(d, i, d.status[i].wp, n)
    ensures
      var b := BorderStage(d, i, d.status[i].wp, n, false);
      CheckWrite(d, i, d.status[i].wp, n) ==
      if b.Stop? then Outcome(b.device, b.verdict) else AdvanceStage(b.device, i, d.status[i].wp, n, b.violated)
  {
    var off := d.status[i].wp;
    ByteAlignment(n);
    assert AlignStage(d, i, n) == Continue(d, false);
    assert PointerStage(d, i, off, false) == Continue(d, false);
    assert ConventionalStage(d, i, off, n, false) == Continue(d, false);
  }

  /** The border flag of zone `i` is one of the two codes that allow crossing. */
  predicate MayCross(d: Device, i: nat)
    requires i < |d.status|
  {
    d.status[i].flag == 0x02 || d.status[i].flag == 0x04
  }

  /** The table and the counters after a split: zone `i` is full, zone `i + 1` holds the rest of the
      write, and the split counts as one border violation of zone `i`. */
  predicate SplitDone(d: Device, i: nat, n: nat, r: Device)
    requires d.Valid() && Writes(d, i) && i + 1 < d.N() && d.Z() < d.status[i].wp + n
  {
    && |r.status| == |d.status| && |r.stats| == |d.stats| && r == d.(status := r.status, stats := r.stats)
    && r.status[i] == d.status[i].(wp := r.status[i].wp, cond := Full)
    && r.status[i].wp == d.Z()
    && r.status[i + 1] == d.status[i + 1].(wp := r.status[i + 1].wp, cond := Closed)
    && r.status[i + 1].wp == d.status[i].wp + n - d.Z()
    && (forall k :: 0 <= k < |d.status| && k != i && k != i + 1 ==> r.status[k] == d.status[k])
    && SpanCounted(d, i, r)
  }

  /** One border violation more for zone `i`, modulo 2^32, and no other counter changed. */
  predicate SpanCounted(d: Device, i: nat, r: Device)
    requires i < |d.stats|
  {
    && |r.stats| == |d.stats|
    && r.stats[i] == d.stats[i].(writeSpan := r.stats[i].writeSpan)
    && r.stats[i].writeSpan == (if d.stats[i].writeSpan == 0xFFFF_FFFF then 0 else d.stats[i].writeSpan + 1)
    && forall k :: 0 <= k < |d.stats| && k != i ==> r.stats[k] == d.stats[k]
  }

  lemma BorderSplits(d: Device, i: nat, n: nat)
    requires d.Valid() && Writes(d, i) && d.layout.zoneShift < ZONE_SIZE_SHIFT_MAX
    requires d.Z() < d.status[i].wp + n <= 2 * d.Z() && MayCross(d, i) && NextZoneTakes(d, i)
    ensures InTable(d, i, d.status[i].wp, n)
    ensures
      var b := BorderStage(d, i, d.status[i].wp, n, false);
      b.Stop? && b.verdict == Pass && SplitDone(d, i, n, b.device)
  {
    NotLargest(d.layout.zoneShift);
  }

  lemma BorderRefuses(d: Device, i: nat, n: nat)
    requires d.Valid() && Writes(d, i) && d.policy.writeFlag == 0
    requires d.Z() < d.status[i].wp + n <= 2 * d.Z() && !(MayCross(d, i) && NextZoneTakes(d, i))
    ensures InTable(d, i, d.status[i].wp, n)
    ensures
      var b := BorderStage(d, i, d.status[i].wp, n, false);
      && b.Stop? && b.verdict == WriteBorder
      && b.device == d.(stats := b.device.stats) && SpanCounted(d, i, b.device)
  {}

  /** A write of whole blocks at the pointer that ends past the zone, but not past the next: if the flag
      allows crossing and the next zone takes the rest, it is mapped and split, under every policy; if
      not, and out-of-policy writes are rejected, it is refused and only counted. */
  lemma CrossingWrite(d: Device, i: nat, n: nat)
    requires d.Valid() && Writes(d, i) && d.layout.zoneShift < ZONE_SIZE_SHIFT_MAX
    requires n % 8 == 0 && d.Z() < d.status[i].wp + n <= 2 * d.Z()
    ensures
      var rq := AtPointer(d, i, n);
      if MayCross(d, i) && NextZoneTakes(d, i) then
        MapInTable(d, rq) && Map(d, rq).mapped && SplitDone(d, i, n, Map(d, rq).device)
      else
        d.policy.writeFlag == 0 ==>
          && MapInTable(d, rq) && !Map(d, rq).mapped
          && Map(d, rq).device == d.(stats := Map(d, rq).device.stats) && SpanCounted(d, i, Map(d, rq).device)
  {
    PointerAddress(d, i, n);
    NotLargest(d.layout.zoneShift);
    if MayCross(d, i) && NextZoneTakes(d, i) {
      BorderSplits(d, i, n);
      ToTheBorder(d, i, n);
    } else if d.policy.writeFlag == 0 {
      BorderRefuses(d, i, n);
      ToTheBorder(d, i, n);
    }
  }

  // ---------------------------------------------------------- after border calls

  /** A border call that allows zone `i` to be crossed: code 0x02 for all sequential zones, code 0x04 for
      zone `i` alone. */
  predicate AllowsCrossing(op: Op, i: nat) {
    op.Border? && (op.code == 0x02 || (op.code == 0x04 && op.zone == i))
  }

  /** What a border call does to the flag of a live sequential zone, and that it does nothing else. */
  lemma BorderCallFlags(d: Device, op: Op, i: nat)
    requires d.Valid() && op.Border? && Enabled(d, op) && i < d.N() && d.status[i].ztype == Sequential
    ensures
      var r := Step(d, op);
      && |r.status| == |d.status| && r == d.(status := r.status)
      && (forall k :: 0 <= k < |d.status| ==> r.status[k] == d.status[k].(flag := r.status[k].flag))
      && r.status[i].flag ==
         if op.code == 0x00 then 0x00
         else if op.code == 0x02 then 0x02
         else if op.code == 0x04 && op.zone == i then 0x04
         else d.status[i].flag
  {}

  /** A border call changes nothing else that a write at the pointer depends on. */
  lemma BorderCallKeeps(d: Device, op: Op, i: nat, n: nat)
    requires d.Valid() && op.Border? && Enabled(d, op) && Writes(d, i)
    ensures
      var b := Step(d, op);
      && b.Valid() && b.layout == d.layout && b.policy == d.policy && b.switches == d.switches && b.N() == d.N()
      && Writes(b, i) && b.Z() == d.Z() && b.status[i].wp == d.status[i].wp
      && AtPointer(b, i, n) == AtPointer(d, i, n)
      && (NextZoneTakes(b, i) <==> NextZoneTakes(d, i))
      && (AllowsCrossing(op, i) ==> MayCross(b, i))
      && (op.code == 0x00 ==> !MayCross(b, i))
  {
    BorderCallFlags(d, op, i);
  }

  /** What a write at the pointer does on a device that a border call has led to. */
  predicate CrossesOrNot(b: Device, i: nat, n: nat, rq: Request, crosses: bool)
    requires b.Valid()
  {
    && MapInTable(b, rq)
    && (Map(b, rq).mapped <==> crosses)
    && (crosses ==>
          && Writes(b, i) && i + 1 < b.N() && b.Z() < b.status[i].wp + n
          && SplitDone(b, i, n, Map(b, rq).device))
    && (!crosses ==> Map(b, rq).device.status == b.status)
  }

  lemma WriteCrossesOrNot(b: Device, i: nat, n: nat)
    requires b.Valid() && Writes(b, i) && b.layout.zoneShift < ZONE_SIZE_SHIFT_MAX && b.policy.writeFlag == 0
    requires n % 8 == 0 && b.Z() < b.status[i].wp + n <= 2 * b.Z()
    ensures CrossesOrNot(b, i, n, AtPointer(b, i, n), MayCross(b, i) && NextZoneTakes(b, i))
  {
    CrossingWrite(b, i, n);
  }

  /** After a border call that allows crossing, a write of whole blocks at the pointer of zone `i` that
      ends past the zone is mapped if and only if the next zone takes the rest; it leaves zone `i` FULL
      with its pointer at the end, and the next zone CLOSED with its pointer at the rest. Refused, it
      leaves the table as it was. */
  lemma CrossingAfterBorderCall(d: Device, op: Op, i: nat, n: nat)
    requires d.Valid() && Writes(d, i) && d.layout.zoneShift < ZONE_SIZE_SHIFT_MAX && d.policy.writeFlag == 0
    requires AllowsCrossing(op, i) && Enabled(d, op)
    requires n % 8 == 0 && d.Z() < d.status[i].wp + n <= 2 * d.Z()
    ensures CrossesOrNot(Step(d, op), i, n, AtPointer(d, i, n), NextZoneTakes(d, i))
  {
    BorderCallKeeps(d, op, i, n);
    WriteCrossesOrNot(Step(d, op), i, n);
  }

  /** After a border call that forbids it, every such write is refused. */
  lemma NoCrossingAfterBorderOff(d: Device, zone: nat, i: nat, n: nat)
    requires d.Valid() && Writes(d, i) && d.layout.zoneShift < ZONE_SIZE_SHIFT_MAX && d.policy.writeFlag == 0
    requires n % 8 == 0 && d.Z() < d.status[i].wp + n <= 2 * d.Z()
    ensures CrossesOrNot(Step(d, Border(0x00, zone)), i, n, AtPointer(d, i, n), false)
  {
    BorderCallKeeps(d, Border(0x00, zone), i, n);
    WriteCrossesOrNot(Step(d, Border(0x00, zone)), i, n);
  }
}
