/** Pass-through mode: out-of-policy writes are counted and satisfied, and the pointers pay for it. */
module PassThrough {
  import opened Geometry
  import opened ZoneTypes
  import opened ZoneRules
  import opened StrictRules

  /** Writes pass, and no research switch moves a pointer first. */
  predicate Passing(d: Device) {
    d.Valid() && d.policy.writeFlag == 1 && d.switches == Switches(false, false)
  }

  /** The counters after a write to a sequential zone that may break several rules at once. */
  function Counted(s: ZoneStats, misaligned: bool, offPointer: bool, spans: bool): ZoneStats {
    s.(unaligned := if misaligned then Wrap32(s.unaligned + 1) else s.unaligned,
       notOnSwp := if offPointer then Wrap32(s.notOnSwp + 1) else s.notOnSwp,
       writeSpan := if spans then Wrap32(s.writeSpan + 1) else s.writeSpan)
  }

  /** The device after the alignment and pointer tests, which only count in this mode. */
  function Tested(d: Device, i: nat, off: nat, n: nat): (r: Device)
    requires d.Valid() && i < |d.stats|
    ensures r.Valid() && r == d.(stats := r.stats) && |r.stats| == |d.stats|
  {
    SetStats(d, i, Counted(d.stats[i], n % 8 != 0, off != d.status[i].wp, false))
  }

  lemma TestsOnlyCount(d: Device, i: nat, off: nat, n: nat)
    requires Passing(d) && i < |d.status| && d.IsSeq(i)
    requires off < d.Z() && off + n <= 2 * d.Z() && InTable(d, i, off, n)
    ensures InTable(Tested(d, i, off, n), i, off, n)
    ensures CheckWrite(d, i, off, n) ==
            PlaceWrite(Tested(d, i, off, n), i, off, n, n % 8 != 0 || off != d.status[i].wp)
  {
    ByteAlignment(n);
    var t := Tested(d, i, off, n);
    assert d.stats[i := d.stats[i]] == d.stats;
    var a := AlignStage(d, i, n);
    var p := PointerStage(a.device, i, off, a.violated);
    assert p == Continue(t, n % 8 != 0 || off != d.status[i].wp) by {
      assert p.device.stats == t.stats;
    }
  }

  /** A write that stays in its sequential zone: each broken rule is counted, and the pointer moves on
      by the length of the write, wherever it was; only a FULL zone takes the end of the write. */
  lemma WriteInside(d: Device, i: nat, off: nat, n: nat)
    requires Passing(d) && i < |d.status| && d.IsSeq(i)
    requires off < d.Z() && off + n <= d.Z()
    ensures InTable(d, i, off, n)
    ensures
      var r, s := CheckWrite(d, i, off, n), d.status[i];
      var wp := Wrap32(if s.cond.Full? then off + n else s.wp + n);
      && r.device.status == d.status[i := s.(wp := wp, cond := if wp == d.Z() then Full else Closed)]
      && r.device.stats == d.stats[i := Counted(d.stats[i], n % 8 != 0, off != s.wp, false)]
      && (r.verdict.Pass? <==> n % 8 == 0 && off == s.wp)
  {
    ZoneSectorsBound(d.layout.zoneShift);
    TestsOnlyCount(d, i, off, n);
    var t, v := Tested(d, i, off, n), n % 8 != 0 || off != d.status[i].wp;
    assert ConventionalStage(t, i, off, n, v) == Continue(t, v);
    assert BorderStage(t, i, off, n, v) == Continue(t, v);
  }

  /** The pointer of a sequential zone leaves the zone exactly when the zone is not FULL and the
      length of the write does not fit behind the pointer. */
  lemma PointerPastEndIff(d: Device, i: nat, off: nat, n: nat)
    requires Passing(d) && i < |d.status| && d.IsSeq(i) && d.status[i].wp <= d.Z()
    requires d.layout.zoneShift < ZONE_SIZE_SHIFT_MAX
    requires off < d.Z() && off + n <= d.Z()
    ensures InTable(d, i, off, n)
    ensures CheckWrite(d, i, off, n).device.status[i].wp > d.Z() <==>
            !d.status[i].cond.Full? && d.status[i].wp + n > d.Z()
  {
    WriteInside(d, i, off, n);
    Pow2Monotone(d.layout.zoneShift + 1, ZONE_SIZE_SHIFT_MAX);
    Pow2Values();
  }

  /** What a write leaves behind that was let through across the border of zone `i`: the zones it
      covers are filled; a write of exactly two zones also empties the zone behind them, which it
      never touched. The zone it ends in is CLOSED if sequential. */
  predicate WrittenThrough(before: ZoneStatus, after: ZoneStatus, z: nat) {
    && after == before.(wp := after.wp, cond := if before.ztype == Conventional then NoWp else Full)
    && after.wp == z
  }

  predicate WrittenUpTo(before: ZoneStatus, after: ZoneStatus, tail: nat) {
    && after == before.(wp := after.wp, cond := if before.ztype == Sequential then Closed else before.cond)
    && after.wp == tail
  }

  predicate Filling(s: seq<ZoneStatus>, z: nat, i: nat, end: nat, r: seq<ZoneStatus>)
    requires z < end <= 2 * z && EndZone(i, end, z) < |s|
  {
    && |r| == |s|
    && WrittenThrough(s[i], r[i], z)
    && (if end < 2 * z then WrittenUpTo(s[i + 1], r[i + 1], end - z)
        else WrittenThrough(s[i + 1], r[i + 1], z) && WrittenUpTo(s[i + 2], r[i + 2], 0))
    && forall k :: 0 <= k < |s| && (k < i || k > EndZone(i, end, z)) ==> r[k] == s[k]
  }

  lemma CrossFills(d: Device, i: nat, end: nat, violated: bool)
    requires Passing(d) && i < |d.status| && d.IsSeq(i)
    requires d.Z() < end <= 2 * d.Z() && EndZone(i, end, d.Z()) < |d.status|
    ensures
      var r := CrossStage(d, i, end, violated);
      && r.Stop? && r.verdict == OutOfPolicy
      && Filling(d.status, d.Z(), i, end, r.device.status)
      && r.device.stats == d.stats[i := Counted(d.stats[i], false, false, true)]
  {
    ZoneSectorsBound(d.layout.zoneShift);
  }

  /** A write across the border that is not a split gets to the cross stage with its counters up. */
  lemma ReachesCross(d: Device, i: nat, off: nat, n: nat)
    requires Passing(d) && i < |d.status| && d.IsSeq(i)
    requires off < d.Z() < off + n <= 2 * d.Z()
    requires InTable(d, i, off, n) && !Splits(d, i, off + n)
    ensures EndZone(i, off + n, d.Z()) < |d.status|
    ensures
      var c := CrossStage(Tested(d, i, off, n), i, off + n, n % 8 != 0 || off != d.status[i].wp);
      c.Stop? && CheckWrite(d, i, off, n) == Outcome(c.device, c.verdict)
  {
    TestsOnlyCount(d, i, off, n);
    var t, v := Tested(d, i, off, n), n % 8 != 0 || off != d.status[i].wp;
    assert ConventionalStage(t, i, off, n, v) == Continue(t, v);
    assert BorderStage(t, i, off, n, v) == CrossStage(t, i, off + n, v);
  }

  /** A pass-through write across the border of a sequential zone that is not a split. */
  lemma WriteAcross(d: Device, i: nat, off: nat, n: nat)
    requires Passing(d) && i < |d.status| && d.IsSeq(i)
    requires off < d.Z() < off + n <= 2 * d.Z()
    requires InTable(d, i, off, n) && !Splits(d, i, off + n)
    ensures EndZone(i, off + n, d.Z()) < |d.status|
    ensures
      var r := CheckWrite(d, i, off, n);
      && r.verdict == OutOfPolicy
      && Filling(d.status, d.Z(), i, off + n, r.device.status)
      && r.device.stats == d.stats[i := Counted(d.stats[i], n % 8 != 0, off != d.status[i].wp, true)]
  {
    ReachesCross(d, i, off, n);
    AcrossTested(d, i, off, n);
  }

  lemma AcrossTested(d: Device, i: nat, off: nat, n: nat)
    requires Passing(d) && i < |d.status| && d.IsSeq(i)
    requires d.Z() < off + n <= 2 * d.Z() && EndZone(i, off + n, d.Z()) < |d.status|
    ensures
      var c := CrossStage(Tested(d, i, off, n), i, off + n, n % 8 != 0 || off != d.status[i].wp);
      && c.Stop? && c.verdict == OutOfPolicy
      && Filling(d.status, d.Z(), i, off + n, c.device.status)
      && c.device.stats == d.stats[i := Counted(d.stats[i], n % 8 != 0, off != d.status[i].wp, true)]
  {
    var t := Tested(d, i, off, n);
    CrossFills(t, i, off + n, n % 8 != 0 || off != d.status[i].wp);
    assert t.stats[i := Counted(t.stats[i], false, false, true)] ==
           d.stats[i := Counted(d.stats[i], n % 8 != 0, off != d.status[i].wp, true)];
  }
}
