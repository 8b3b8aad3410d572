/** The simulator as the kernel module runs it: one object whose tables are updated in place. Each
    method is tied to the function of the same operation on device values. */
module Simulator {
  import opened Geometry
  import opened ZoneTypes
  import opened ZoneRules
  import opened Operations
  import opened DirtyQueue
  import opened Query
  import opened ConfigRuns

  /** More zones than this do not fit the largest capacity: a zone has at least 8 sectors. */
  const MAX_ZONES: nat := 0xA000_0000

  lemma ZonesForBound(capacity: nat, shift: nat)
    requires capacity <= MAX_CAPACITY
    ensures ZonesFor(capacity, shift) <= MAX_ZONES
  {
    ZoneCountExact(capacity, shift);
    MulMonotone(8, ZoneSectors(shift), ZonesFor(capacity, shift));
  }

  /** How a stage of the write rule, carried out in place, matches the stage as a function. */
  predicate Reached(p: Progress, d: Device, done: bool, verdict: Verdict, violated: bool) {
    match p
    case Stop(d1, v) => done && d == d1 && verdict == v
    case Continue(d1, x) => !done && d == d1 && violated == x
  }

  lemma EndZoneIndex(i: nat, end: nat, z: nat)
    requires z < end <= 2 * z
    ensures (i * z + end) / z == EndZone(i, end, z)
    ensures (end - z) % z == if end < 2 * z then end - z else 0
  {
    assert (i + 1) * z == i * z + z;
    assert (i + 2) * z == i * z + 2 * z;
    assert (i + 3) * z == i * z + 3 * z;
    QuotientUnique(i * z + end, z, EndZone(i, end, z));
    if end < 2 * z { QuotientUnique(end - z, z, 0); } else { QuotientUnique(z, z, 1); }
  }

  class Simulator {
    var layout: Layout
    var zoneStatus: array<ZoneStatus>
    var zoneStats: array<ZoneStats>
    var policy: Policy
    var switches: Switches
    const ptask: PersistTask

    ghost predicate Valid()
      reads this, ptask
    {
      && layout.zoneShift <= ZONE_SIZE_SHIFT_MAX
      && layout.numZones as nat <= zoneStatus.Length == zoneStats.Length
      && layout.statsZones as nat <= zoneStats.Length
      && layout.capacity <= MAX_CAPACITY
      && layout.defaultZones as nat <= MAX_ZONES
      && zoneStatus.Length <= MAX_ZONES
      && ptask.Valid()
    }

    /** The abstract device. */
    ghost function State(): (d: Device)
      reads this, zoneStatus, zoneStats, ptask
      requires Valid()
      ensures d.Valid()
    {
      Device(layout, zoneStatus[..], zoneStats[..], policy, switches)
    }

    ghost function PendingChanges(): Pending
      reads this, ptask, ptask.stuZoneIdx
      requires Valid()
    {
      ptask.Contents()
    }

    // -------------------------------------------------------- elementary steps

    method PutStatus(i: nat, s: ZoneStatus)
      requires Valid() && i < zoneStatus.Length
      modifies zoneStatus
      ensures Valid() && State() == SetStatus(old(State()), i, s)
    {
      zoneStatus[i] := s;
      assert zoneStatus[..] == old(zoneStatus[..])[i := s];
    }

    method PutStats(i: nat, s: ZoneStats)
      requires Valid() && i < zoneStats.Length
      modifies zoneStats
      ensures Valid() && State() == SetStats(old(State()), i, s)
    {
      zoneStats[i] := s;
      assert zoneStats[..] == old(zoneStats[..])[i := s];
    }

    // ---------------------------------------------------------- initialisation

    /** Fresh tables for `n` zones; `smrsim_init_zone_state_default` on a zeroed allocation. */
    method InitZoneState(shift: nat, n: u32)
      requires Valid() && shift <= ZONE_SIZE_SHIFT_MAX && n as nat <= MAX_ZONES
      modifies this
      ensures Valid() && fresh(zoneStatus) && fresh(zoneStats)
      ensures State() == Reinitialised(old(State()), shift, n)
    {
      ghost var before := State();
      ZoneSectorsBound(shift);
      zoneStatus := new ZoneStatus[n](_ => ZERO_STATUS);
      zoneStats := new ZoneStats[n](_ => ZERO_STATS);
      layout := layout.(zoneShift := shift, numZones := n, statsZones := n);
      policy := DEFAULT_POLICY;
      InitZoneStatus();
      assert zoneStats[..] == InitialStats(n);
    }

    /** The loop of `smrsim_init_zone_status`. */
    method InitZoneStatus()
      requires Valid() && layout.numZones as nat == zoneStatus.Length
      modifies zoneStatus
      ensures Valid() && zoneStats[..] == old(zoneStats[..])
      ensures ZoneSectors(layout.zoneShift) < TWO32
      ensures zoneStatus[..] == InitialStatus(layout.numZones, ZoneSectors(layout.zoneShift))
    {
      ZoneSectorsBound(layout.zoneShift);
      var n, z := layout.numZones, ZoneSectors(layout.zoneShift);
      var i: u32 := 0;
      while i < n
        invariant 0 <= i <= n
        invariant forall k :: 0 <= k < i ==> zoneStatus[k] == InitialZone(k, n, z)
        modifies zoneStatus
      {
        var conventional := n > 1 && (i == 0 || n - 1 == i);
        zoneStatus[i] := ZoneStatus(
          i, z, 0, 0,
          if conventional then NoWp else Empty,
          if conventional then Conventional else Sequential,
          CROSS_OFF);
        i := i + 1;
      }
      assert zoneStatus[..] == InitialStatus(n, z);
    }

    /** Start-up with a device of the given capacity. */
    constructor (capacity: nat)
      requires capacity <= MAX_CAPACITY
      ensures Valid() && State() == Initial(capacity, ZONE_SIZE_SHIFT_DEFAULT)
      ensures PendingChanges() == NOTHING_PENDING
      ensures fresh(zoneStatus) && fresh(zoneStats) && fresh(ptask) && fresh(ptask.stuZoneIdx)
    {
      ZonesForBound(capacity, ZONE_SIZE_SHIFT_DEFAULT);
      var n := ZonesFor(capacity, ZONE_SIZE_SHIFT_DEFAULT);
      layout := Layout(capacity, n, ZONE_SIZE_SHIFT_DEFAULT, 0, 0);
      zoneStatus := new ZoneStatus[0];
      zoneStats := new ZoneStats[0];
      policy := DEFAULT_POLICY;
      switches := Switches(false, false);
      ptask := new PersistTask();
      new;
      InitZoneState(ZONE_SIZE_SHIFT_DEFAULT, n);
    }

    // ------------------------------------------------------------ configuration

    method SetSizeZoneDefault(size: u32) returns (ok: bool)
      requires Valid()
      modifies this
      ensures Valid() && ok == SizeAccepted(size)
      ensures State() == SetSize(old(State()), size)
    {
      if size % 8 != 0 || !IsPowerOfTwo(size) {
        return false;
      }
      SizeGeometry(size, layout.capacity);
      var shift := IndexPowerOf2(size / 8);
      ZonesForBound(layout.capacity, shift);
      InitZoneState(shift, ZonesFor(layout.capacity, shift));
      return true;
    }

    method ResetDefaultZoneConfig()
      requires Valid()
      modifies this
      ensures Valid() && State() == ResetZoneConfig(old(State()))
    {
      InitZoneState(ZONE_SIZE_SHIFT_DEFAULT, layout.defaultZones);
    }

    method ResetDefaultDeviceConfig()
      requires Valid()
      modifies this`policy
      ensures Valid() && State() == ResetDeviceConfig(old(State()))
    {
      policy := DEFAULT_POLICY;
    }

    method ClearZoneConfig()
      requires Valid()
      modifies this`layout, zoneStatus, zoneStats
      ensures Valid() && State() == ClearZones(old(State()))
    {
      ZeroStats(layout.statsZones);
      layout := layout.(statsZones := 0);
      ghost var before := zoneStatus[..];
      var n := layout.numZones;
      for i := 0 to n
        invariant forall k :: 0 <= k < zoneStatus.Length ==>
          zoneStatus[k] == if k < i then ZERO_STATUS else before[k]
        modifies zoneStatus
      {
        zoneStatus[i] := ZERO_STATUS;
      }
      assert zoneStatus[..] == FillPrefix(before, n, ZERO_STATUS);
      layout := layout.(numZones := 0);
    }

    method ZeroStats(n: nat)
      requires Valid() && n <= zoneStats.Length
      modifies zoneStats
      ensures Valid()
      ensures State() == old(State()).(stats := FillPrefix(old(State()).stats, n, ZERO_STATS))
    {
      for i := 0 to n
        invariant forall k :: 0 <= k < zoneStats.Length ==>
          zoneStats[k] == if k < i then ZERO_STATS else old(zoneStats[k])
        modifies zoneStats
      {
        zoneStats[i] := ZERO_STATS;
      }
      assert zoneStats[..] == FillPrefix(old(zoneStats[..]), n, ZERO_STATS);
    }

    method AddZoneConfig(e: ZoneStatus) returns (ok: bool)
      requires Valid()
      requires AddAccepted(State(), e) ==>
        layout.numZones as nat < zoneStatus.Length && layout.statsZones as nat < zoneStats.Length
      modifies this`layout, zoneStatus
      ensures Valid() && ok == AddAccepted(old(State()), e)
      ensures State() == AddZone(old(State()), e)
    {
      if e.start >= layout.defaultZones { return false; }
      if e.start != layout.numZones { return false; }
      if !e.ztype.Conventional? && !e.ztype.Sequential? { return false; }
      if e.ztype.Conventional? && !e.cond.NoWp? { return false; }
      if e.ztype.Sequential? && !e.cond.Empty? { return false; }
      if e.length != ZoneSectors(layout.zoneShift) { return false; }
      if e.wp != 0 { return false; }
      PutStatus(layout.numZones, e.(flag := CROSS_OFF));
      layout := layout.(statsZones := Wrap32(layout.statsZones + 1));
      layout := layout.(numZones := layout.numZones + 1);
      return true;
    }

    /** The loop of `smrsim_zone_seq_count`. */
    method ZoneSeqCount() returns (count: nat)
      requires Valid()
      ensures count == SeqCount(State().status, layout.numZones)
    {
      count := 0;
      for index := 0 to layout.numZones
        invariant count == SeqCount(zoneStatus[..], index)
      {
        if zoneStatus[index].ztype.Sequential? {
          count := count + 1;
        }
      }
    }

    method ModifyZoneConfig(e: ZoneStatus) returns (ok: bool)
      requires Valid()
      modifies zoneStatus
      ensures Valid() && ok == ModifyAccepted(old(State()), e)
      ensures State() == ModifyZone(old(State()), e)
    {
      var count := ZoneSeqCount();
      var z := ZoneSectors(layout.zoneShift);
      if layout.numZones <= e.start { return false; }
      if 1 >= count && e.ztype.Conventional? && zoneStatus[e.start].ztype.Sequential? { return false; }
      if e.length != z { return false; }
      if e.wp > z { return false; }
      if e.wp == z && !zoneStatus[e.start].cond.Full? { return false; }
      if e.checkpoint >= z { return false; }
      if !CondAllowed(e.cond) { return false; }
      if e.cond.NoWp? && !e.ztype.Conventional? { return false; }
      if e.cond.Empty? && e.ztype.Sequential? && e.wp != 0 { return false; }
      var s := zoneStatus[e.start];
      PutStatus(e.start, s.(wp := e.wp, checkpoint := e.checkpoint, cond := e.cond,
                            ztype := e.ztype, flag := CROSS_OFF));
      return true;
    }

    method ResetStats()
      requires Valid()
      modifies zoneStats
      ensures Valid() && State() == Operations.ResetStats(old(State()))
    {
      ZeroStats(layout.statsZones);
    }

    method ResetZoneStats(sector: u64) returns (ok: bool)
      requires Valid()
      modifies zoneStats
      ensures Valid() && ok == (ZoneOf(old(State()), sector) < layout.numZones)
      ensures State() == Operations.ResetZoneStats(old(State()), sector)
    {
      var idx := ZoneIndex(sector);
      if layout.numZones <= idx { return false; }
      PutStats(idx, ZERO_STATS);
      return true;
    }

    method BorderAcross(code: u8, zone: nat)
      requires Valid() && (code == CROSS_CUR ==> zone < zoneStatus.Length)
      modifies zoneStatus
      ensures Valid() && State() == Operations.BorderAcross(old(State()), code, zone)
    {
      if code == CROSS_CUR {
        PutStatus(zone, WithFlag(zoneStatus[zone], code));
      } else if code == CROSS_OFF || code == CROSS_SEQ {
        for k := 0 to layout.numZones
          invariant forall j :: 0 <= j < zoneStatus.Length ==>
            zoneStatus[j] ==
              if j < k && (code == CROSS_OFF || old(zoneStatus[j]).ztype.Sequential?)
              then WithFlag(old(zoneStatus[j]), code) else old(zoneStatus[j])
          modifies zoneStatus
        {
          if code == CROSS_OFF || zoneStatus[k].ztype.Sequential? {
            zoneStatus[k] := zoneStatus[k].(flag := code);
          }
        }
        assert State().status == Operations.BorderAcross(old(State()), code, zone).status;
      }
    }

    // ------------------------------------------------------------- zone reset

    /** The 32-bit zone index of a sector. */
    function ZoneIndex(sector: nat): u32
      reads this
    {
      Wrap32(sector / 8 / Pow2(layout.zoneShift))
    }

    method BlkdevResetZonePtr(startSector: u64) returns (ok: bool)
      requires Valid()
      modifies zoneStatus
      ensures Valid() && ok == ResetAccepted(old(State()), startSector)
      ensures State() == ResetZone(old(State()), startSector)
    {
      var idx := ZoneIndex(startSector);
      if layout.numZones <= idx { return false; }
      if zoneStatus[idx].ztype.Conventional? { return false; }
      if startSector % ZoneSectors(layout.zoneShift) != 0 { return false; }
      PutStatus(idx, zoneStatus[idx].(wp := 0));
      if zoneStatus[idx].ztype.Sequential? {
        PutStatus(idx, zoneStatus[idx].(cond := Empty));
      }
      assert State().status == ResetZone(old(State()), startSector).status;
      return true;
    }

    // -------------------------------------------------------------- write rule

    method CheckAlignment(i: nat, n: nat, policyFlag: u32)
      returns (done: bool, verdict: Verdict, violated: bool)
      requires Valid() && i < zoneStatus.Length && policyFlag == policy.writeFlag
      modifies zoneStats
      ensures Valid()
      ensures Reached(AlignStage(old(State()), i, n), State(), done, verdict, violated)
    {
      done, verdict, violated := false, Pass, false;
      if zoneStatus[i].ztype.Sequential? {
        if (512 * n) % 4096 != 0 {
          PutStats(i, zoneStats[i].(unaligned := Wrap32(zoneStats[i].unaligned + 1)));
          violated := true;
          if policyFlag == 0 { return true, WriteAlign, true; }
        }
      }
    }

    /** The pointer test. Here and below `off` is the offset of `lba` in zone `i`. */
    method CheckPointer(i: nat, lba: nat, ghost off: nat, policyFlag: u32, violated0: bool)
      returns (done: bool, verdict: Verdict, violated: bool)
      requires Valid() && i < zoneStatus.Length && policyFlag == policy.writeFlag
      requires lba == i * ZoneSectors(layout.zoneShift) + off && off < ZoneSectors(layout.zoneShift)
      modifies zoneStatus, zoneStats
      ensures Valid()
      ensures Reached(PointerStage(old(State()), i, off, violated0), State(), done, verdict, violated)
    {
      done, verdict, violated := false, Pass, violated0;
      ZoneSectorsBound(layout.zoneShift);
      var zlba := i * ZoneSectors(layout.zoneShift);
      if zoneStatus[i].ztype.Sequential? && zlba + zoneStatus[i].wp != lba {
        if switches.resetOn && lba == zlba {
          PutStatus(i, zoneStatus[i].(wp := 0));
        } else if switches.adjustOn && lba > zlba + zoneStatus[i].wp {
          PutStats(i, zoneStats[i].(notOnSwp := Wrap32(zoneStats[i].notOnSwp + 1)));
          PutStatus(i, zoneStatus[i].(wp := Wrap32(lba - zlba)));
        } else {
          PutStats(i, zoneStats[i].(notOnSwp := Wrap32(zoneStats[i].notOnSwp + 1)));
          if policyFlag == 0 { return true, WritePointer, true; }
        }
        violated := true;
      }
    }

    method CheckConventional(i: nat, lba: nat, ghost off: nat, n: nat, violated0: bool)
      returns (done: bool, verdict: Verdict, violated: bool)
      requires Valid() && i < zoneStatus.Length
      requires lba == i * ZoneSectors(layout.zoneShift) + off
      modifies zoneStatus
      ensures Valid()
      ensures Reached(ConventionalStage(old(State()), i, off, n, violated0), State(), done, verdict, violated)
    {
      done, verdict, violated := false, Pass, violated0;
      ZoneSectorsBound(layout.zoneShift);
      var z := ZoneSectors(layout.zoneShift);
      var zlba, elba := i * z, lba + n;
      if zoneStatus[i].ztype.Conventional? {
        if elba == zlba + z {
          PutStatus(i, zoneStatus[i].(wp := z));
          done := true;
        } else if elba > zlba + zoneStatus[i].wp && elba < zlba + z {
          PutStatus(i, zoneStatus[i].(wp := elba - zlba));
          done := true;
        } else if elba < zlba + zoneStatus[i].wp {
          done := true;
        }
      }
    }

    /** The border test: a write that stays in its zone passes on, one that crosses is split, refused
        or let through over the zones it covers. */
    method CheckBorder(i: nat, lba: nat, ghost off: nat, n: nat, policyFlag: u32, violated0: bool)
      returns (done: bool, verdict: Verdict, violated: bool)
      requires Valid() && i < zoneStatus.Length && policyFlag == policy.writeFlag
      requires lba == i * ZoneSectors(layout.zoneShift) + off && off < ZoneSectors(layout.zoneShift)
      requires off + n <= 2 * ZoneSectors(layout.zoneShift)
      requires InTable(State(), i, off, n) && (State().IsConv(i) ==> off + n >= zoneStatus[i].wp)
      modifies zoneStatus, zoneStats
      ensures Valid()
      ensures Reached(BorderStage(old(State()), i, off, n, violated0), State(), done, verdict, violated)
    {
      done, verdict, violated := false, Pass, violated0;
      ghost var d := State();
      var z := ZoneSectors(layout.zoneShift);
      var zlba, elba := i * z, lba + n;
      if elba > zlba + z {
        if elba <= zlba + Twice32(z) {
          // the source looks at the type of zone i + 1 before it tests that there is such a zone
          if zoneStatus[i].ztype.Sequential? && i + 1 < layout.numZones
            && zoneStatus[i + 1].ztype.Sequential?
            && (zoneStatus[i].flag == CROSS_SEQ || zoneStatus[i].flag == CROSS_CUR)
            && (switches.resetOn || zoneStatus[i + 1].wp == 0)
          {
            assert Splits(d, i, off + n);
            SplitWrite(i, elba - zlba);
            return true, Pass, true;
          }
        }
        assert !Splits(d, i, off + n);
        done, verdict, violated := CrossBorder(i, elba, off + n, policyFlag, violated0);
      }
    }

    /** A crossing write that is not split; it ends `end` sectors past the start of zone `i`. */
    method CrossBorder(i: nat, elba: nat, ghost end: nat, policyFlag: u32, violated0: bool)
      returns (done: bool, verdict: Verdict, violated: bool)
      requires Valid() && i < zoneStatus.Length && policyFlag == policy.writeFlag
      requires elba == i * ZoneSectors(layout.zoneShift) + end
      requires ZoneSectors(layout.zoneShift) < end <= 2 * ZoneSectors(layout.zoneShift)
      requires
        var d, e := State(), EndZone(i, end, ZoneSectors(layout.zoneShift));
        && (d.IsConv(i) ==>
              && i + 1 < |d.status|
              && (e < |d.status| || (policyFlag == 0 && !d.IsConv(i + 1))))
        && (!d.IsConv(i) && policyFlag == 1 ==> e < |d.status|)
      modifies zoneStatus, zoneStats
      ensures Valid()
      ensures Reached(CrossStage(old(State()), i, end, violated0), State(), done, verdict, violated)
    {
      done, verdict, violated := false, Pass, violated0;
      if zoneStatus[i].ztype.Sequential? {
        NoteWriteSpan(i);
        violated := true;
        if policyFlag == 0 { return true, WriteBorder, true; }
      }
      var eidx, tail := EndIndex(i, elba, end);
      if zoneStatus[i].ztype.Conventional? {
        var hit := CountOther(i, eidx);
        if hit && policyFlag == 0 { return true, WriteBorder, violated; }
      }
      if zoneStatus[i].ztype.Conventional? || policyFlag == 1 {
        FillSpanned(i, eidx, tail);
        return true, if policyFlag == 1 then OutOfPolicy else Pass, violated;
      }
    }

    /** Counts a conventional write that reaches a zone of another kind. */
    method CountOther(i: nat, eidx: nat) returns (hit: bool)
      requires Valid() && i < eidx <= i + 2 && i + 1 < zoneStatus.Length
      requires eidx < zoneStatus.Length || !State().IsConv(i + 1)
      modifies zoneStats
      ensures Valid() && hit == HitsOther(old(State()), i, eidx)
      ensures State() == if hit then CountWriteSpan(old(State()), i) else old(State())
    {
      hit := FindOther(i, eidx);
      if hit { NoteWriteSpan(i); }
    }

    method NoteWriteSpan(i: nat)
      requires Valid() && i < zoneStats.Length
      modifies zoneStats
      ensures Valid() && State() == CountWriteSpan(old(State()), i)
    {
      PutStats(i, zoneStats[i].(writeSpan := Wrap32(zoneStats[i].writeSpan + 1)));
    }

    /** The zone just past a crossing write, and the sectors the write leaves in it. */
    method EndIndex(i: nat, elba: nat, ghost end: nat) returns (eidx: nat, tail: nat)
      requires Valid() && i < zoneStatus.Length
      requires elba == i * ZoneSectors(layout.zoneShift) + end
      requires ZoneSectors(layout.zoneShift) < end <= 2 * ZoneSectors(layout.zoneShift)
      ensures eidx == EndZone(i, end, ZoneSectors(layout.zoneShift))
      ensures tail == if end < 2 * ZoneSectors(layout.zoneShift) then end - ZoneSectors(layout.zoneShift) else 0
    {
      var z := ZoneSectors(layout.zoneShift);
      EndZoneIndex(i, end, z);
      ShiftIsDivision(elba, layout.zoneShift);
      eidx := Wrap32(elba / 8 / Pow2(layout.zoneShift));
      tail := (elba - i * z - z) % z;
    }

    method SplitWrite(i: nat, end: nat)
      requires Valid() && i + 1 < zoneStatus.Length && State().Z() < end <= 2 * State().Z()
      modifies zoneStatus, zoneStats
      ensures Valid() && State() == Split(old(State()), i, end)
    {
      ZoneSectorsBound(layout.zoneShift);
      var z := ZoneSectors(layout.zoneShift);
      PutStatus(i, zoneStatus[i].(cond := Full, wp := z));
      PutStatus(i + 1, zoneStatus[i + 1].(wp := Wrap32(end - z), cond := Closed));
      PutStats(i, zoneStats[i].(writeSpan := Wrap32(zoneStats[i].writeSpan + 1)));
    }

    /** The scan for a zone that is not conventional among those a conventional write reaches. */
    method FindOther(i: nat, e: nat) returns (hit: bool)
      requires Valid() && i < e <= i + 2 && i + 1 < zoneStatus.Length
      requires e < zoneStatus.Length || !State().IsConv(i + 1)
      ensures hit == HitsOther(State(), i, e)
    {
      var idx := i + 1;
      while idx <= e
        invariant i + 1 <= idx <= e + 1
        invariant idx > i + 1 ==> e < zoneStatus.Length
        invariant forall k :: i < k < idx && k < zoneStatus.Length ==> zoneStatus[k].ztype.Conventional?
      {
        if !zoneStatus[idx].ztype.Conventional? { return true; }
        idx := idx + 1;
      }
      return false;
    }

    method FillSpanned(i: nat, e: nat, tail: nat)
      requires Valid() && i <= e < zoneStatus.Length && tail < State().Z()
      modifies zoneStatus
      ensures Valid() && State() == Spanned(old(State()), i, e, tail)
    {
      ZoneSectorsBound(layout.zoneShift);
      var z := ZoneSectors(layout.zoneShift);
      ghost var before := zoneStatus[..];
      var idx := i;
      while idx < e
        invariant i <= idx <= e
        invariant forall k :: 0 <= k < zoneStatus.Length ==>
          zoneStatus[k] == if i <= k < idx then Filled(before[k], z) else before[k]
        modifies zoneStatus
      {
        zoneStatus[idx] := zoneStatus[idx].(
          wp := z,
          cond := if zoneStatus[idx].ztype.Conventional? then NoWp else Full);
        idx := idx + 1;
      }
      var landed := zoneStatus[e].(wp := Wrap32(tail));
      if landed.ztype.Sequential? {
        landed := landed.(cond := if landed.wp != z then Closed else Full);
      }
      zoneStatus[e] := landed;
      assert zoneStatus[..] == Spanned(old(State()), i, e, tail).status;
    }

    method AdvancePointer(i: nat, lba: nat, ghost off: nat, n: nat, policyFlag: u32, violated: bool)
      returns (verdict: Verdict)
      requires Valid() && i < zoneStatus.Length && policyFlag == policy.writeFlag
      requires lba == i * ZoneSectors(layout.zoneShift) + off
      modifies zoneStatus
      ensures Valid()
      ensures Outcome(State(), verdict) == AdvanceStage(old(State()), i, off, n, violated)
    {
      var z := ZoneSectors(layout.zoneShift);
      var s := zoneStatus[i];
      if policyFlag == 1 && s.cond.Full? {
        var wp := Wrap32(lba + n - i * z);
        PutStatus(i, s.(wp := wp, cond := if wp == z then Full else Closed));
      } else {
        var wp := Wrap32(s.wp + n);
        PutStatus(i, s.(wp := wp,
                        cond := if s.ztype.Sequential? then (if wp == z then Full else Closed) else s.cond));
      }
      verdict := if violated && policyFlag == 1 then OutOfPolicy else Pass;
    }

    /** The tests after the pointer test. */
    method PlaceChecked(lba: nat, ghost off: nat, n: nat, i: nat, policyFlag: u32, violated0: bool)
      returns (verdict: Verdict)
      requires Valid() && i < zoneStatus.Length && policyFlag == policy.writeFlag
      requires lba == i * ZoneSectors(layout.zoneShift) + off && off < ZoneSectors(layout.zoneShift)
      requires off + n <= 2 * ZoneSectors(layout.zoneShift) && InTable(State(), i, off, n)
      modifies zoneStatus, zoneStats
      ensures Valid()
      ensures Outcome(State(), verdict) == PlaceWrite(old(State()), i, off, n, violated0)
    {
      var done, v, violated := CheckConventional(i, lba, off, n, violated0);
      if done { return v; }
      done, v, violated := CheckBorder(i, lba, off, n, policyFlag, violated);
      if done { return v; }
      verdict := AdvancePointer(i, lba, off, n, policyFlag, violated);
    }

    method WriteRuleCheck(lba: nat, ghost off: nat, n: nat, i: nat, policyFlag: u32) returns (verdict: Verdict)
      requires Valid() && i < zoneStatus.Length && policyFlag == policy.writeFlag
      requires lba == i * ZoneSectors(layout.zoneShift) + off && off < ZoneSectors(layout.zoneShift)
      requires off + n <= 2 * ZoneSectors(layout.zoneShift) && InTable(State(), i, off, n)
      modifies zoneStatus, zoneStats
      ensures Valid()
      ensures Outcome(State(), verdict) == CheckWrite(old(State()), i, off, n)
    {
      var done, v, violated := CheckAlignment(i, n, policyFlag);
      if done { return v; }
      done, v, violated := CheckPointer(i, lba, off, policyFlag, violated);
      if done { return v; }
      verdict := PlaceChecked(lba, off, n, i, policyFlag, violated);
    }

    // --------------------------------------------------------------- read rule

    method ReadRuleCheck(lba: nat, ghost off: nat, n: nat, i: nat, policyFlag: u32) returns (verdict: Verdict)
      requires Valid() && i < zoneStatus.Length && policyFlag == policy.readFlag
      requires lba == i * ZoneSectors(layout.zoneShift) + off
      modifies zoneStats
      ensures Valid()
      ensures Outcome(State(), verdict) == CheckRead(old(State()), i, off, n)
    {
      var z := ZoneSectors(layout.zoneShift);
      var elba, zlba := lba + n, i * z;
      var violated := false;
      if elba > zlba + z {
        violated := true;
        PutStats(i, zoneStats[i].(readSpan := Wrap32(zoneStats[i].readSpan + 1)));
        if policyFlag == 0 { return ReadBorder; }
      }
      if !zoneStatus[i].ztype.Conventional? && elba > zlba + zoneStatus[i].wp {
        violated := true;
        PutStats(i, zoneStats[i].(beyondSwp := Wrap32(zoneStats[i].beyondSwp + 1)));
        if policyFlag == 0 { return ReadPointer; }
      }
      return if violated then OutOfPolicy else Pass;
    }

    // --------------------------------------------------------------------- map

    method MapRequest(rq: Request) returns (mapped: bool)
      requires Valid() && rq.Valid() && MapInTable(State(), rq)
      modifies zoneStatus, zoneStats, ptask, ptask.stuZoneIdx
      ensures Valid()
      ensures
        var r := Map(old(State()), rq);
        && State() == r.device
        && mapped == r.mapped
        && PendingChanges() == Marked(old(PendingChanges()), r.mark)
    {
      var i, lba, n := ZoneIndex(rq.lba), rq.lba, rq.sectors;
      var z := ZoneSectors(layout.zoneShift);
      TruncatedOffset(State(), lba);
      if layout.numZones <= i || lba + n > i * z + Twice32(z) || zoneStatus[i].cond.Offline? {
        ptask.NoteStats(i);
        return false;
      }
      AddressableOffset(State(), rq);
      if rq.dir.Write? {
        mapped := MapWriteRequest(lba, OffsetOf(State(), lba), n, i);
      } else {
        mapped := MapReadRequest(lba, OffsetOf(State(), lba), n, i);
      }
    }

    method MapWriteRequest(lba: nat, ghost off: nat, n: nat, i: u32) returns (mapped: bool)
      requires Valid() && i as nat < zoneStatus.Length
      requires lba == i * ZoneSectors(layout.zoneShift) + off && off < ZoneSectors(layout.zoneShift)
      requires off + n <= 2 * ZoneSectors(layout.zoneShift)
      requires Writable(State(), i, off) ==> InTable(State(), i, off, n)
      modifies zoneStatus, zoneStats, ptask, ptask.stuZoneIdx
      ensures Valid()
      ensures
        var r := MapWrite(old(State()), i, off, n);
        && State() == r.device
        && mapped == r.mapped
        && PendingChanges() == Marked(old(PendingChanges()), r.mark)
    {
      var z := ZoneSectors(layout.zoneShift);
      var rflag, wflag := policy.readFlag, policy.writeFlag;
      if (zoneStatus[i].cond.ReadOnly? && wflag == 0)
        || (zoneStatus[i].cond.Full? && lba != i * z && wflag == 0) {
        ptask.NoteStats(i);
        return false;
      }
      var verdict := WriteRuleCheck(lba, off, n, i, wflag);
      if verdict != Pass {
        if wflag == 1 && rflag == 1 { return true; }
        if wflag != 1 {
          ptask.NoteStats(i);
          return false;
        }
      }
      ptask.NoteStatus(i);
      return true;
    }

    method MapReadRequest(lba: nat, ghost off: nat, n: nat, i: u32) returns (mapped: bool)
      requires Valid() && i as nat < zoneStatus.Length
      requires lba == i * ZoneSectors(layout.zoneShift) + off
      modifies zoneStats, ptask
      ensures Valid() && ptask.stuZoneIdx == old(ptask.stuZoneIdx)
      ensures
        var r := MapRead(old(State()), i, off, n);
        && State() == r.device
        && mapped == r.mapped
        && PendingChanges() == Marked(old(PendingChanges()), r.mark)
    {
      var rflag, wflag := policy.readFlag, policy.writeFlag;
      var verdict := ReadRuleCheck(lba, off, n, i, rflag);
      if verdict != Pass {
        if wflag == 1 && rflag == 1 { return true; }
        if rflag != 1 {
          ptask.NoteStats(i);
          return false;
        }
      }
      return true;
    }

    // ------------------------------------------------------------------- query

    /** Copies the zones from `from` on that meet a negative criterion, up to `count` of them. */
    method ScanMatching(criterion: int, from: nat, count: nat, out: array<ZoneStatus>) returns (found: nat)
      requires Valid() && from <= layout.numZones && 0 < count <= out.Length && out != zoneStatus
      modifies out
      ensures
        var f := Take(Found(State().status, ZQ(State()), criterion, from, layout.numZones), count);
        && found == |f| <= out.Length
        && out[..found] == f
        && out[found..] == old(out[..])[found..]
    {
      found := 0;
      var num := from;
      var z := QueryLength();
      ghost var s := zoneStatus[..];
      while num < layout.numZones
        invariant from <= num <= layout.numZones && zoneStatus[..] == s
        invariant found < count && found == |Found(s, z, criterion, from, num)|
        invariant out[..found] == Found(s, z, criterion, from, num)
        invariant forall k :: found <= k < out.Length ==> out[k] == old(out[k])
      {
        if Meets(zoneStatus[num], z, criterion) {
          out[found] := zoneStatus[num];
          found := found + 1;
          assert out[..found] == Found(s, z, criterion, from, num) + [s[num]];
          if found == count {
            TakeFull(s, z, criterion, from, num + 1, layout.numZones, count);
            return;
          }
        }
        num := num + 1;
      }
    }

    /** The same from any zone; the scan finds nothing when it starts behind the live zones. */
    method ScanFrom(criterion: int, from: nat, count: nat, out: array<ZoneStatus>) returns (found: nat)
      requires Valid() && 0 < count <= out.Length && out != zoneStatus
      modifies out
      ensures
        var n := layout.numZones;
        var f := Take(Found(State().status, ZQ(State()), criterion, Least(from, n), n), count);
        && found == |f| <= out.Length
        && out[..found] == f
        && out[found..] == old(out[..])[found..]
    {
      found := 0;
      if from <= layout.numZones {
        found := ScanMatching(criterion, from, count, out);
      }
    }

    /** Copies the zones of a slice that have at least `criterion` free sectors. */
    method ScanFree(criterion: int, from: nat, count: nat, out: array<ZoneStatus>) returns (found: nat)
      requires Valid() && criterion > 0 && from + count <= layout.numZones
      requires count <= out.Length && out != zoneStatus
      modifies out
      ensures
        var f := Found(State().status, ZQ(State()), criterion, from, from + count);
        && found == |f| <= out.Length
        && out[..found] == f
        && out[found..] == old(out[..])[found..]
    {
      found := 0;
      var z := QueryLength();
      ghost var s := zoneStatus[..];
      for num := 0 to count
        invariant zoneStatus[..] == s
        invariant found == |Found(s, z, criterion, from, from + num)| <= num
        invariant out[..found] == Found(s, z, criterion, from, from + num)
        invariant forall k :: found <= k < out.Length ==> out[k] == old(out[k])
      {
        if Minus32(z, zoneStatus[from + num].wp) >= criterion {
          out[found] := zoneStatus[from + num];
          found := found + 1;
        }
      }
    }

    /** Copies `count` zones from `from` on. */
    method CopySlice(from: nat, count: nat, out: array<ZoneStatus>)
      requires Valid() && from + count <= layout.numZones && count <= out.Length && out != zoneStatus
      modifies out
      ensures out[..count] == State().status[from..from + count]
      ensures out[count..] == old(out[..])[count..]
    {
      ghost var s := zoneStatus[..];
      for num := 0 to count
        invariant zoneStatus[..] == s
        invariant out[..num] == s[from..from + num]
        invariant out[num..] == old(out[..])[num..]
      {
        out[num] := zoneStatus[from + num];
      }
    }

    function QueryLength(): (z: u32)
      reads this, zoneStatus, zoneStats, ptask
      requires Valid()
      ensures z == ZQ(State())
    {
      ZoneSectorsBound(layout.zoneShift);
      ZoneSectors(layout.zoneShift)
    }

    method FillAnswer(criterion: int, idx: nat, count: nat, out: array<ZoneStatus>) returns (reported: nat)
      requires Valid() && (criterion >= 0 ==> idx + count <= layout.numZones)
      requires 0 < count <= out.Length && out != zoneStatus
      modifies out
      ensures Delivered(AnswerFrom(State(), idx, criterion, count), old(out[..]), out[..], true, reported)
    {
      reported := count;
      if criterion > 0 {
        reported := ScanFree(criterion, idx, count, out);
      } else if criterion == MATCH_ALL {
        CopySlice(idx, count, out);
      } else if MATCH_OFFL <= criterion {
        reported := ScanFrom(criterion, idx, count, out);
      }
    }

    method QueryZones(lba: u64, criterion: int, count: u32, out: array<ZoneStatus>)
      returns (ok: bool, reported: nat)
      requires Valid() && SliceInTable(State(), lba, criterion, count)
      requires out.Length >= count && out != zoneStatus
      modifies out
      ensures Delivered(Ask(State(), lba, criterion, count), old(out[..]), out[..], ok, reported)
      ensures !ok ==> reported == count
    {
      var idx := ZoneIndex(lba);
      if count == 0 || layout.numZones < Wrap32(count + idx) {
        return false, count;
      }
      ok := true;
      reported := FillAnswer(criterion, idx, count, out);
    }
  }

  /** The caller's buffer and the return values carry the answer, and the rest of the buffer is as it
      was. */
  predicate Delivered(a: Answer, before: seq<ZoneStatus>, after: seq<ZoneStatus>, ok: bool, reported: nat) {
    match a
    case Refused => !ok && after == before
    case Answer(zones, k) =>
      && ok && reported == k
      && |zones| <= |after| == |before|
      && after[..|zones|] == zones && after[|zones|..] == before[|zones|..]
  }

  /** What has been found up to a zone is a prefix of what is found beyond it. */
  lemma {:induction false} FoundPrefix(s: seq<ZoneStatus>, z: u32, c: int, from: nat, mid: nat, end: nat)
    requires from <= mid <= end <= |s|
    ensures Found(s, z, c, from, mid) <= Found(s, z, c, from, end)
    decreases end
  {
    if mid == end {
    } else {
      FoundPrefix(s, z, c, from, mid, end - 1);
    }
  }

  /** Once the requested number is found, looking further changes nothing. */
  lemma TakeFull(s: seq<ZoneStatus>, z: u32, c: int, from: nat, mid: nat, end: nat, count: nat)
    requires from <= mid <= end <= |s| && |Found(s, z, c, from, mid)| == count
    ensures Take(Found(s, z, c, from, end), count) == Found(s, z, c, from, mid)
  {
    FoundPrefix(s, z, c, from, mid, end);
  }
}
