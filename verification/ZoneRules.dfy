/** The read and write rules of a zone, the map function and the zone reset, as functions of the
    device. A zone index `i` and an offset `off` inside it stand for the sector `i * Z() + off`. */
module ZoneRules {
  import opened Geometry
  import opened ZoneTypes

  /** `r` differs from `d` at most in the entries of the two tables. */
  predicate TableOnly(d: Device, r: Device) {
    && r == d.(status := r.status, stats := r.stats)
    && |r.status| == |d.status|
    && |r.stats| == |d.stats|
  }

  // ------------------------------------------------------- elementary updates

  function SetStatus(d: Device, i: nat, s: ZoneStatus): Device
    requires i < |d.status|
  {
    d.(status := d.status[i := s])
  }

  function SetWp(d: Device, i: nat, wp: nat): Device
    requires i < |d.status|
  {
    SetStatus(d, i, d.status[i].(wp := Wrap32(wp)))
  }

  function SetStats(d: Device, i: nat, s: ZoneStats): Device
    requires i < |d.stats|
  {
    d.(stats := d.stats[i := s])
  }

  function CountUnaligned(d: Device, i: nat): Device
    requires i < |d.stats|
  {
    SetStats(d, i, d.stats[i].(unaligned := Wrap32(d.stats[i].unaligned + 1)))
  }

  function CountNotOnSwp(d: Device, i: nat): Device
    requires i < |d.stats|
  {
    SetStats(d, i, d.stats[i].(notOnSwp := Wrap32(d.stats[i].notOnSwp + 1)))
  }

  function CountWriteSpan(d: Device, i: nat): Device
    requires i < |d.stats|
  {
    SetStats(d, i, d.stats[i].(writeSpan := Wrap32(d.stats[i].writeSpan + 1)))
  }

  function CountReadSpan(d: Device, i: nat): Device
    requires i < |d.stats|
  {
    SetStats(d, i, d.stats[i].(readSpan := Wrap32(d.stats[i].readSpan + 1)))
  }

  function CountBeyondSwp(d: Device, i: nat): Device
    requires i < |d.stats|
  {
    SetStats(d, i, d.stats[i].(beyondSwp := Wrap32(d.stats[i].beyondSwp + 1)))
  }

  // ------------------------------------------------------------- write rule

  /** A stage of the write rule either ends the check or hands on the device and whether a rule
      was violated so far. */
  datatype Progress =
    | Stop(device: Device, verdict: Verdict)
    | Continue(device: Device, violated: bool)

  predicate Misaligned(s: ZoneStatus, n: nat) {
    s.ztype.Sequential? && (512 * n) % 4096 != 0
  }

  function AlignStage(d: Device, i: nat, n: nat): (r: Progress)
    requires d.Valid() && i < |d.status|
    ensures TableOnly(d, r.device)
  {
    if !Misaligned(d.status[i], n) then Continue(d, false)
    else if d.policy.writeFlag == 0 then Stop(CountUnaligned(d, i), WriteAlign)
    else Continue(CountUnaligned(d, i), true)
  }

  function PointerStage(d: Device, i: nat, off: nat, violated: bool): (r: Progress)
    requires d.Valid() && i < |d.status|
    ensures TableOnly(d, r.device)
  {
    var s := d.status[i];
    if !s.ztype.Sequential? || s.wp == off then Continue(d, violated)
    else if d.switches.resetOn && off == 0 then Continue(SetWp(d, i, 0), true)
    else if d.switches.adjustOn && off > s.wp then Continue(SetWp(CountNotOnSwp(d, i), i, off), true)
    else if d.policy.writeFlag == 0 then Stop(CountNotOnSwp(d, i), WritePointer)
    else Continue(CountNotOnSwp(d, i), true)
  }

  function ConventionalStage(d: Device, i: nat, off: nat, n: nat, violated: bool): (r: Progress)
    requires d.Valid() && i < |d.status|
    ensures TableOnly(d, r.device)
  {
    var s, end := d.status[i], off + n;
    if !s.ztype.Conventional? then Continue(d, violated)
    else if end == d.Z() then Stop(SetWp(d, i, d.Z()), Pass)
    else if s.wp < end < d.Z() then Stop(SetWp(d, i, end), Pass)
    else if end < s.wp then Stop(d, Pass)
    else Continue(d, violated)
  }

  /** A research split: the write fills zone `i` and continues at the start of zone `i + 1`. The source
      looks at the type of zone `i + 1` before it tests whether there is such a zone; with the test
      first, as here, the outcome is the same. */
  predicate Splits(d: Device, i: nat, end: nat)
    requires d.Valid() && i < |d.status|
  {
    && end <= Twice32(d.Z())
    && d.IsSeq(i)
    && i + 1 < d.N()
    && d.IsSeq(i + 1)
    && (d.status[i].flag == CROSS_SEQ || d.status[i].flag == CROSS_CUR)
    && (d.switches.resetOn || d.status[i + 1].wp == 0)
  }

  function Split(d: Device, i: nat, end: nat): Device
    requires i + 1 < |d.status| == |d.stats| && d.Z() < end
  {
    var filled := d.status[i].(cond := Full, wp := Wrap32(d.Z()));
    var begun := d.status[i + 1].(wp := Wrap32(end - d.Z()), cond := Closed);
    CountWriteSpan(d.(status := d.status[i := filled][i + 1 := begun]), i)
  }

  /** The zone that holds the sector just past a crossing request, at most two zones on. */
  function EndZone(i: nat, end: nat, z: nat): nat {
    if end < 2 * z then i + 1 else i + 2
  }

  /** Whether a crossing conventional write runs into a zone that is not conventional. */
  predicate HitsOther(d: Device, i: nat, e: nat)
    requires i < e <= i + 2
    requires i + 1 < |d.status|
    requires e < |d.status| || !d.IsConv(i + 1)
  {
    !d.IsConv(i + 1) || !d.IsConv(e)
  }

  function Filled(s: ZoneStatus, z: nat): ZoneStatus {
    s.(wp := Wrap32(z), cond := if s.ztype.Conventional? then NoWp else Full)
  }

  function Landed(s: ZoneStatus, tail: nat): ZoneStatus {
    s.(wp := Wrap32(tail), cond := if s.ztype.Sequential? then Closed else s.cond)
  }

  /** The table after a write that was let through across borders: zones `i .. e` are filled and
      zone `e` gets the remainder. */
  function Spanned(d: Device, i: nat, e: nat, tail: nat): (r: Device)
    requires i <= e < |d.status|
    ensures |r.status| == |d.status|
  {
    d.(status := seq(|d.status|, k requires 0 <= k < |d.status| =>
      if i <= k < e then Filled(d.status[k], d.Z())
      else if k == e then Landed(d.status[k], tail)
      else d.status[k]))
  }

  /** The entries beyond zone `i` that decide the outcome of the write rule, or are changed by it, are
      in the allocated table. */
  predicate InTable(d: Device, i: nat, off: nat, n: nat)
    requires d.Valid() && i < |d.status|
  {
    var z, end := d.Z(), off + n;
    var e := EndZone(i, end, z);
    && (d.IsConv(i) && end > z && end >= d.status[i].wp ==>
      && i + 1 < |d.status|
      && (e < |d.status| || (d.policy.writeFlag == 0 && !d.IsConv(i + 1))))
    && (!d.IsConv(i) && end > z && d.policy.writeFlag == 1 && !Splits(d, i, end) ==> e < |d.status|)
  }

  /** A write that ends past zone `i` and is not split. */
  function CrossStage(d: Device, i: nat, end: nat, violated: bool): (r: Progress)
    requires d.Valid() && i < |d.status|
    requires d.Z() < end <= 2 * d.Z()
    requires d.IsConv(i) ==>
      && i + 1 < |d.status|
      && (EndZone(i, end, d.Z()) < |d.status| || (d.policy.writeFlag == 0 && !d.IsConv(i + 1)))
    requires !d.IsConv(i) && d.policy.writeFlag == 1 ==> EndZone(i, end, d.Z()) < |d.status|
    ensures TableOnly(d, r.device)
  {
    var z := d.Z();
    var d1 := if d.IsSeq(i) then CountWriteSpan(d, i) else d;
    var e, tail := EndZone(i, end, z), if end < 2 * z then end - z else 0;
    if d.IsSeq(i) && d.policy.writeFlag == 0 then Stop(d1, WriteBorder)
    else if d.IsConv(i) then
      var hits := HitsOther(d, i, e);
      if hits && d.policy.writeFlag == 0 then Stop(CountWriteSpan(d, i), WriteBorder)
      else
        var d2 := if hits then CountWriteSpan(d, i) else d;
        Stop(Spanned(d2, i, e, tail), if d.policy.writeFlag == 1 then OutOfPolicy else Pass)
    else if d.policy.writeFlag == 1 then Stop(Spanned(d1, i, e, tail), OutOfPolicy)
    else Continue(d1, violated || d.IsSeq(i))
  }

  function BorderStage(d: Device, i: nat, off: nat, n: nat, violated: bool): (r: Progress)
    requires d.Valid() && i < |d.status|
    requires off < d.Z() && off + n <= 2 * d.Z()
    requires InTable(d, i, off, n)
    requires d.IsConv(i) ==> off + n >= d.status[i].wp
    ensures TableOnly(d, r.device)
  {
    if off + n <= d.Z() then Continue(d, violated)
    else if Splits(d, i, off + n) then Stop(Split(d, i, off + n), Pass)
    else CrossStage(d, i, off + n, violated)
  }

  function AdvanceStage(d: Device, i: nat, off: nat, n: nat, violated: bool): (r: Outcome)
    requires d.Valid() && i < |d.status|
    ensures TableOnly(d, r.device)
  {
    var s, z := d.status[i], d.Z();
    var wp := if d.policy.writeFlag == 1 && s.cond.Full? then Wrap32(off + n) else Wrap32(s.wp + n);
    var cond :=
      if (d.policy.writeFlag == 1 && s.cond.Full?) || s.ztype.Sequential?
      then (if wp == z then Full else Closed)
      else s.cond;
    Outcome(SetStatus(d, i, s.(wp := wp, cond := cond)),
            if violated && d.policy.writeFlag == 1 then OutOfPolicy else Pass)
  }

  /** The stages after the alignment and pointer tests. */
  function PlaceWrite(d: Device, i: nat, off: nat, n: nat, violated: bool): (r: Outcome)
    requires d.Valid() && i < |d.status|
    requires off < d.Z() && off + n <= 2 * d.Z()
    requires InTable(d, i, off, n)
    ensures TableOnly(d, r.device)
  {
    match ConventionalStage(d, i, off, n, violated)
    case Stop(d1, v) => Outcome(d1, v)
    case Continue(d1, violated1) =>
      match BorderStage(d1, i, off, n, violated1)
      case Stop(d2, v) => Outcome(d2, v)
      case Continue(d2, violated2) => AdvanceStage(d2, i, off, n, violated2)
  }

  /** `smrsim_write_rule_check` */
  function CheckWrite(d: Device, i: nat, off: nat, n: nat): (r: Outcome)
    requires d.Valid() && i < |d.status|
    requires off < d.Z() && off + n <= 2 * d.Z()
    requires InTable(d, i, off, n)
    ensures TableOnly(d, r.device)
  {
    match AlignStage(d, i, n)
    case Stop(d1, v) => Outcome(d1, v)
    case Continue(d1, violated1) =>
      match PointerStage(d1, i, off, violated1)
      case Stop(d2, v) => Outcome(d2, v)
      case Continue(d2, violated2) => PlaceWrite(d2, i, off, n, violated2)
  }

  // -------------------------------------------------------------- read rule

  /** `smrsim_read_rule_check` */
  function CheckRead(d: Device, i: nat, off: nat, n: nat): (r: Outcome)
    requires d.Valid() && i < |d.status|
    ensures TableOnly(d, r.device) && r.device.status == d.status
  {
    var spans := off + n > d.Z();
    var d1 := if spans then CountReadSpan(d, i) else d;
    if spans && d.policy.readFlag == 0 then Outcome(d1, ReadBorder)
    else
      var beyond := !d.IsConv(i) && off + n > d.status[i].wp;
      var d2 := if beyond then CountBeyondSwp(d1, i) else d1;
      if beyond && d.policy.readFlag == 0 then Outcome(d2, ReadPointer)
      else Outcome(d2, if spans || beyond then OutOfPolicy else Pass)
  }

  // -------------------------------------------------------------------- map

  /** The zone index the map function computes, a 32-bit value. */
  function ZoneOf(d: Device, lba: nat): u32 {
    Wrap32(ShiftedDown(lba, d.layout.zoneShift))
  }

  function OffsetOf(d: Device, lba: nat): (off: nat) {
    TruncatedOffset(d, lba);
    lba - ZoneOf(d, lba) * d.Z()
  }

  lemma TruncatedOffset(d: Device, lba: nat)
    ensures ZoneOf(d, lba) * d.Z() <= lba
    ensures var off := lba - ZoneOf(d, lba) * d.Z(); off < d.Z() || off > 2 * d.Z()
  {
    ShiftIsDivision(lba, d.layout.zoneShift);
    TruncatedIndex(lba, d.Z());
  }

  /** The shifts take the sector at an offset of a zone back to that zone and offset. */
  lemma AddressOf(d: Device, i: u32, off: nat)
    requires d.Valid() && off < d.Z()
    ensures ZoneOf(d, i * d.Z() + off) == i && OffsetOf(d, i * d.Z() + off) == off
  {
    ShiftIsDivision(i * d.Z() + off, d.layout.zoneShift);
    assert (i as nat + 1) * d.Z() == i * d.Z() + d.Z();
    QuotientUnique(i * d.Z() + off, d.Z(), i);
  }

  /** The tests of the map function that come before any rule check. */
  predicate Addressable(d: Device, rq: Request)
    requires d.Valid()
  {
    && ZoneOf(d, rq.lba) < d.N()
    && OffsetOf(d, rq.lba) + rq.sectors <= Twice32(d.Z())
    && !d.status[ZoneOf(d, rq.lba)].cond.Offline?
  }

  lemma AddressableOffset(d: Device, rq: Request)
    requires d.Valid() && Addressable(d, rq)
    ensures OffsetOf(d, rq.lba) < d.Z()
    ensures OffsetOf(d, rq.lba) + rq.sectors <= 2 * d.Z()
    ensures rq.lba == ZoneOf(d, rq.lba) * d.Z() + OffsetOf(d, rq.lba)
  {
    TruncatedOffset(d, rq.lba);
  }

  /** Twice the largest zone size is 0 in 32 bits: with such zones no request is let through that is
      not empty. */
  lemma LargestZonesPassNothing(d: Device, rq: Request)
    requires d.Valid() && d.layout.zoneShift == ZONE_SIZE_SHIFT_MAX && Addressable(d, rq)
    ensures rq.sectors == 0
  {
    Pow2Values();
  }

  /** The tests on the zone condition that a write meets before the rule check. */
  predicate Writable(d: Device, i: nat, off: nat)
    requires i < |d.status|
  {
    && !(d.status[i].cond.ReadOnly? && d.policy.writeFlag == 0)
    && !(d.status[i].cond.Full? && off != 0 && d.policy.writeFlag == 0)
  }

  /** The outcome of a write that reaches the rule check is determined by the allocated table. */
  predicate MapInTable(d: Device, rq: Request)
    requires d.Valid()
  {
    rq.dir.Write? && Addressable(d, rq) && Writable(d, ZoneOf(d, rq.lba), OffsetOf(d, rq.lba))
    ==> InTable(d, ZoneOf(d, rq.lba), OffsetOf(d, rq.lba), rq.sectors)
  }

  /** The write branch of the map function. */
  function MapWrite(d: Device, i: nat, off: nat, n: nat): (r: MapResult)
    requires d.Valid() && i < |d.status|
    requires off < d.Z() && off + n <= 2 * d.Z()
    requires Writable(d, i, off) ==> InTable(d, i, off, n)
    ensures TableOnly(d, r.device)
  {
    if !Writable(d, i, off) then MapResult(d, false, StatsMark(i))
    else
      var r := CheckWrite(d, i, off, n);
      if r.verdict.Pass? then MapResult(r.device, true, StatusMark(i))
      else if d.policy.writeFlag == 1 && d.policy.readFlag == 1 then MapResult(r.device, true, NoMark)
      else if d.policy.writeFlag == 1 then MapResult(r.device, true, StatusMark(i))
      else MapResult(r.device, false, StatsMark(i))
  }

  /** The read branch of the map function. */
  function MapRead(d: Device, i: nat, off: nat, n: nat): (r: MapResult)
    requires d.Valid() && i < |d.status|
    ensures TableOnly(d, r.device)
  {
    var r := CheckRead(d, i, off, n);
    if r.verdict.Pass? || d.policy.readFlag == 1
    then MapResult(r.device, true, NoMark)
    else MapResult(r.device, false, StatsMark(i))
  }

  /** `smrsim_map` */
  function Map(d: Device, rq: Request): (r: MapResult)
    requires d.Valid() && MapInTable(d, rq)
    ensures TableOnly(d, r.device)
  {
    var i, off, n := ZoneOf(d, rq.lba), OffsetOf(d, rq.lba), rq.sectors;
    if !Addressable(d, rq) then MapResult(d, false, StatsMark(i))
    else
      AddressableOffset(d, rq);
      if rq.dir.Write? then MapWrite(d, i, off, n) else MapRead(d, i, off, n)
  }

  // ------------------------------------------------------------- zone reset

  predicate ResetAccepted(d: Device, sector: nat)
    requires d.Valid()
  {
    && ZoneOf(d, sector) < d.N()
    && !d.IsConv(ZoneOf(d, sector))
    && sector % d.Z() == 0
  }

  /** `smrsim_blkdev_reset_zone_ptr`; a refused reset changes nothing. */
  function ResetZone(d: Device, sector: nat): (r: Device)
    requires d.Valid()
    ensures TableOnly(d, r)
  {
    if !ResetAccepted(d, sector) then d
    else
      var i := ZoneOf(d, sector);
      var s := d.status[i];
      SetStatus(d, i, s.(wp := 0, cond := if s.ztype.Sequential? then Empty else s.cond))
  }

  /** An accepted reset names its zone by its first sector exactly when the sector number does not
      exceed what a 32-bit zone index can express; beyond that a different zone is reset. */
  lemma ResetTargetsItsSector(d: Device, sector: nat)
    requires d.Valid() && ResetAccepted(d, sector)
    ensures sector == ZoneOf(d, sector) * d.Z() <==> sector / d.Z() < TWO32
  {
    ShiftIsDivision(sector, d.layout.zoneShift);
    TruncatedIndex(sector, d.Z());
    QuotientBounds(sector, d.Z());
  }
}
