/** What the zone reset and the configuration operations do, seen from the outside: which calls are
    accepted, what they leave, and what they leave alone. */
module ConfigEffects {
  import opened Geometry
  import opened ZoneTypes
  import opened ZoneRules
  import opened Operations
  import opened ConfigRuns

  /** `r` differs from `d` in entry `i` of the zone table only. */
  predicate OnlyEntry(d: Device, r: Device, i: nat)
    requires i < |d.status|
  {
    && |r.status| == |d.status| && r == d.(status := r.status)
    && forall k :: 0 <= k < |d.status| && k != i ==> r.status[k] == d.status[k]
  }

  // ----------------------------------------------------------------- zone reset

  /** The zone a sector number stands for, as a 32-bit index. */
  function ZoneNumber(d: Device, sector: nat): nat { sector / d.Z() % 0x1_0000_0000 }

  lemma ZoneNumberIs(d: Device, sector: nat)
    ensures ZoneOf(d, sector) as nat == ZoneNumber(d, sector)
  {
    ShiftIsDivision(sector, d.layout.zoneShift);
  }

  /** The reset of a sector takes effect exactly if the sector is the start of a zone, and the zone its
      32-bit index names is live and not conventional. */
  predicate ResetTakesEffect(d: Device, sector: nat)
    requires d.Valid()
  {
    && sector % d.Z() == 0
    && ZoneNumber(d, sector) < d.N()
    && d.status[ZoneNumber(d, sector)].ztype != Conventional
  }

  /** Then the pointer of that zone is 0, a sequential zone is EMPTY whatever its condition was, and
      nothing else changes; if not, nothing changes at all. */
  lemma ResetOutcome(d: Device, sector: nat)
    requires d.Valid()
    ensures
      var i, r := ZoneNumber(d, sector), Step(d, ZoneReset(sector));
      if ResetTakesEffect(d, sector) then
        && OnlyEntry(d, r, i)
        && r.status[i] == d.status[i].(wp := 0,
                                       cond := if d.status[i].ztype == Sequential then Empty else d.status[i].cond)
      else r == d
  {
    ZoneNumberIs(d, sector);
  }

  /** In particular the reset of the first sector of any live sequential zone empties it. */
  lemma ResetEmptiesEveryZone(d: Device, i: nat)
    requires d.Valid() && i < d.N() && d.status[i].ztype == Sequential
    ensures
      var r := Step(d, ZoneReset(i * d.Z()));
      OnlyEntry(d, r, i) && r.status[i] == d.status[i].(wp := 0, cond := Empty)
  {
    AddressOf(d, i, 0);
    StartOfZone(i, d.Z());
    ZoneNumberIs(d, i * d.Z());
    ResetOutcome(d, i * d.Z());
  }

  lemma StartOfZone(i: nat, z: nat)
    requires z > 0
    ensures (i * z) % z == 0
  {
    Successor(i, z);
    QuotientUnique(i * z, z, i);
    QuotientBounds(i * z, z);
  }

  // ----------------------------------------------------- initialisation and size

  /** A table of `n` zones of `z` sectors as initialisation makes it: the first and the last zone
      conventional if there is more than one, the others sequential and empty. */
  predicate FreshTable(d: Device, n: nat, z: nat) {
    && d.N() as nat == d.layout.statsZones as nat == |d.status| == |d.stats| == n && d.Z() == z
    && (forall i :: 0 <= i < n ==> d.stats[i] == ZoneStats(0, 0, 0, 0, 0))
    && forall i :: 0 <= i < n ==>
        var s := d.status[i];
        && s.start == i && s.length == z && s.wp == 0 && s.checkpoint == 0 && s.flag == 0
        && (if n > 1 && (i == 0 || i == n - 1) then s.ztype == Conventional && s.cond == NoWp
            else s.ztype == Sequential && s.cond == Empty)
  }

  /** The policy after initialisation: out-of-policy requests are rejected, the delays are 4 seconds. */
  const REJECTING := Policy(0, 0, 4000, 4000)

  /** The device has as many zones as its capacity holds. */
  predicate FillsCapacity(d: Device) {
    d.N() * d.Z() <= d.layout.capacity < d.N() * d.Z() + d.Z()
  }

  lemma ZonesFillCapacity(capacity: nat, shift: nat)
    requires capacity <= MAX_CAPACITY
    ensures
      var n, z := ZonesFor(capacity, shift), ZoneSectors(shift);
      n * z <= capacity < n * z + z
  {
    ZoneCountExact(capacity, shift);
    ShiftIsDivision(capacity, shift);
    QuotientBounds(capacity, ZoneSectors(shift));
    Successor(ZonesFor(capacity, shift), ZoneSectors(shift));
  }

  lemma ReinitialisedIsFresh(d: Device, shift: nat)
    requires d.Valid() && d.layout.capacity <= MAX_CAPACITY && shift <= ZONE_SIZE_SHIFT_MAX
    ensures
      var r := Reinitialised(d, shift, ZonesFor(d.layout.capacity, shift));
      && FreshTable(r, r.N(), ZoneSectors(shift)) && FillsCapacity(r)
      && r.policy == REJECTING && r.switches == d.switches
      && r.layout.capacity == d.layout.capacity && r.layout.defaultZones == d.layout.defaultZones
  {
    ZonesFillCapacity(d.layout.capacity, shift);
    ZoneSectorsBound(shift);
  }

  /** Start-up, for the default zone size or any other. */
  lemma InitialIsFresh(capacity: nat, shift: nat)
    requires capacity <= MAX_CAPACITY && shift <= ZONE_SIZE_SHIFT_MAX
    ensures
      var d := Initial(capacity, shift);
      && FreshTable(d, d.N(), ZoneSectors(shift)) && FillsCapacity(d)
      && d.policy == REJECTING && d.layout.capacity == capacity
      && d.layout.defaultZones as nat == capacity / 0x8_0000
  {
    ReinitialisedIsFresh(Initial(capacity, shift), shift);
    ZoneCountExact(capacity, 16);
    ShiftIsDivision(capacity, 16);
    DefaultZoneSectors();
  }

  /** What an accepted size change and the reset of the zone configuration leave: a fresh table of as many
      zones of `z` sectors as the capacity holds, and the rejecting policy, whatever the policy was;
      capacity, start-up count and switches stay. */
  predicate FreshlySized(d: Device, r: Device, z: nat) {
    && FreshTable(r, r.N(), z) && FillsCapacity(r)
    && r.policy == REJECTING && r.switches == d.switches
    && r.layout.capacity == d.layout.capacity && r.layout.defaultZones == d.layout.defaultZones
  }

  lemma AcceptedSize(d: Device, size: u32)
    requires TableShape(d) && SizeAccepted(size)
    ensures FreshlySized(d, Step(d, SizeChange(size)), size)
  {
    SizeGeometry(size, d.layout.capacity);
    ReinitialisedIsFresh(d, Log2(size / 8));
  }

  /** A size change is accepted exactly for the powers of two from 2^3 on; a refused one changes nothing. */
  lemma SizeChangeOutcome(d: Device, size: u32)
    requires TableShape(d)
    ensures
      var r := Step(d, SizeChange(size));
      if WholeBlocksPower(size) then FreshlySized(d, r, size) else r == d
  {
    SizeAcceptedIff(size);
    if SizeAccepted(size) { AcceptedSize(d, size); } else { assert Step(d, SizeChange(size)) == d; }
  }

  /** The reset of the zone configuration goes back to zones of the default size and to the rejecting
      policy, after any changes. */
  lemma ZoneConfigResetOutcome(d: Device)
    requires TableShape(d)
    ensures FreshlySized(d, Step(d, ZoneConfigReset), 0x8_0000)
  {
    DefaultZoneSectors();
    ReinitialisedIsFresh(d, 16);
  }

  /** The reset of the device configuration restores the policy and touches nothing else. */
  lemma DeviceConfigResetOutcome(d: Device)
    requires d.Valid()
    ensures
      var r := Step(d, DeviceConfigReset);
      r.policy == REJECTING && d == r.(policy := d.policy)
  {}

  /** The policy and switch operations set one field each. */
  lemma SettersOutcome(d: Device, flag: u32, on: bool)
    requires d.Valid()
    ensures var p := d.policy;
      && Step(d, ReadPolicy(flag)) == d.(policy := Policy(flag, p.writeFlag, p.readDelay, p.writeDelay))
      && Step(d, WritePolicy(flag)) == d.(policy := Policy(p.readFlag, flag, p.readDelay, p.writeDelay))
    ensures Step(d, ResetSwitch(on)) == d.(switches := Switches(on, d.switches.adjustOn))
    ensures Step(d, AdjustSwitch(on)) == d.(switches := Switches(d.switches.resetOn, on))
  {}

  /** Clearing leaves the allocation and no live zones; the entries and counters that were live are zero. */
  lemma ClearOutcome(d: Device)
    requires TableShape(d)
    ensures
      var r := Step(d, Clear);
      && r.N() == 0 && r.layout == d.layout.(numZones := 0, statsZones := 0)
      && r.policy == d.policy && r.switches == d.switches
      && |r.status| == |d.status| && |r.stats| == |d.stats|
      && (forall k :: 0 <= k < d.N() ==>
            r.status[k] == ZoneStatus(0, 0, 0, 0, NoWp, Reserved, 0) && r.stats[k] == ZoneStats(0, 0, 0, 0, 0))
      && (forall k :: d.N() <= k < |d.status| ==> r.status[k] == d.status[k] && r.stats[k] == d.stats[k])
  {}

  /** A statistics reset zeroes the counters of all counted zones, or of the one zone a sector is in (by
      its 32-bit index, if that is live), and touches nothing else. */
  lemma StatsResetOutcome(d: Device, sector: nat)
    requires d.Valid()
    ensures
      var r := Step(d, StatsReset);
      && r == d.(stats := r.stats) && |r.stats| == |d.stats|
      && forall k :: 0 <= k < |d.stats| ==>
          r.stats[k] == if k < d.layout.statsZones as nat then ZoneStats(0, 0, 0, 0, 0) else d.stats[k]
    ensures
      var r := Step(d, ZoneStatsReset(sector));
      && r == d.(stats := r.stats) && |r.stats| == |d.stats|
      && forall k :: 0 <= k < |d.stats| ==>
          r.stats[k] ==
          if k == ZoneNumber(d, sector) && k < d.N() as nat then ZoneStats(0, 0, 0, 0, 0) else d.stats[k]
  {
    ZoneNumberIs(d, sector);
  }

  // --------------------------------------------------------------- adding zones

  /** A zone that may be added: the next one, of the common length, with nothing written, conventional
      without a pointer condition or sequential and empty. */
  predicate Addable(d: Device, e: ZoneStatus) {
    && e.start == d.N() && e.start < d.layout.defaultZones
    && e.length == d.Z() && e.wp == 0
    && ((e.ztype == Conventional && e.cond == NoWp) || (e.ztype == Sequential && e.cond == Empty))
  }

  /** An addable zone becomes the last live one as given, with its border flag off; any other changes
      nothing. */
  lemma AddOutcome(d: Device, e: ZoneStatus)
    requires TableShape(d) && Enabled(d, Add(e))
    ensures
      var r := Step(d, Add(e));
      if Addable(d, e) then
        && d.N() as nat < |d.status| && OnlyEntry(d, r.(layout := d.layout), d.N())
        && r.layout == d.layout.(numZones := r.N(), statsZones := r.N()) && r.N() as nat == d.N() as nat + 1
        && r.status[d.N()] == ZoneStatus(d.N(), e.length, 0, e.checkpoint, e.cond, e.ztype, 0)
      else r == d
  {}

  // ------------------------------------------------------------ modifying zones

  /** Zone `i` is the only live sequential zone. */
  predicate LastSequential(d: Device, i: nat)
    requires d.Valid() && i < d.N()
  {
    d.status[i].ztype == Sequential && forall k :: 0 <= k < d.N() && k != i ==> d.status[k].ztype != Sequential
  }

  lemma {:induction false} NoneSequential(s: seq<ZoneStatus>, n: nat)
    requires n <= |s|
    ensures SeqCount(s, n) == 0 <==> forall k :: 0 <= k < n ==> !s[k].ztype.Sequential?
  {
    if n == 0 {
    } else {
      NoneSequential(s, n - 1);
    }
  }

  lemma {:induction false} OneSequential(s: seq<ZoneStatus>, n: nat, i: nat)
    requires i < n <= |s| && s[i].ztype.Sequential?
    ensures SeqCount(s, n) <= 1 <==> forall k :: 0 <= k < n && k != i ==> !s[k].ztype.Sequential?
  {
    NoneSequential(s, n - 1);
    if i == n - 1 {
    } else {
      OneSequential(s, n - 1, i);
    }
  }

  /** What a modification may ask for: the common length, a pointer inside the zone (at its end only if
      the zone is FULL already), a checkpoint inside the zone, a condition other than the open ones that
      fits type and pointer, and not the last sequential zone turned conventional. */
  predicate Modifiable(d: Device, e: ZoneStatus)
    requires d.Valid()
  {
    && e.start < d.N()
    && e.length == d.Z()
    && (e.wp < d.Z() || (e.wp == d.Z() && d.status[e.start].cond == Full))
    && e.checkpoint < d.Z()
    && e.cond !in {ImpOpen, ExpOpen}
    && (e.cond == NoWp ==> e.ztype == Conventional)
    && (e.cond == Empty && e.ztype == Sequential ==> e.wp == 0)
    && !(e.ztype == Conventional && LastSequential(d, e.start))
  }

  lemma ModifyAcceptedIff(d: Device, e: ZoneStatus)
    requires d.Valid()
    ensures ModifyAccepted(d, e) <==> Modifiable(d, e)
  {
    if e.start < d.N() && d.IsSeq(e.start) { OneSequential(d.status, d.N(), e.start); }
  }

  /** An accepted modification sets pointer, checkpoint, condition and type of its zone as given, and its
      border flag off; any other changes nothing. */
  lemma ModifyOutcome(d: Device, e: ZoneStatus)
    requires TableShape(d)
    ensures
      var r := Step(d, Modify(e));
      if Modifiable(d, e) then
        && OnlyEntry(d, r, e.start)
        && r.status[e.start] == ZoneStatus(e.start, e.length, e.wp, e.checkpoint, e.cond, e.ztype, 0)
      else r == d
  {
    ModifyAcceptedIff(d, e);
  }

  /** So a device with a sequential zone keeps one, as long as only the two ordinary types are asked for. */
  lemma SequentialZoneRemains(d: Device, e: ZoneStatus, i: nat) returns (j: nat)
    requires TableShape(d) && i < d.N() && d.status[i].ztype == Sequential
    requires e.ztype in {Conventional, Sequential}
    ensures var r := Step(d, Modify(e)); j < r.N() && r.status[j].ztype == Sequential
  {
    ModifyOutcome(d, e);
    j := i;
    if Modifiable(d, e) && e.start == i && e.ztype == Conventional {
      j :| 0 <= j < d.N() && j != i && d.status[j].ztype == Sequential;
    }
  }
}
