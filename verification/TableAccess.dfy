/** Which entries of the zone table the write rule touches, and which requests make it touch memory
    behind the allocated table. */
module TableAccess {
  import opened Geometry
  import opened ZoneTypes
  import opened ZoneRules
  import opened Operations

  // ----------------------------------------------------------- entries touched

  /** The write passes the alignment and pointer tests and is not let through as a conventional write
      below the pointer. */
  predicate ReachesBorder(d: Device, i: nat, off: nat, n: nat)
    requires d.Valid() && i < |d.status|
  {
    && !(Misaligned(d.status[i], n) && d.policy.writeFlag == 0)
    && (d.IsSeq(i) && d.status[i].wp != off && d.policy.writeFlag == 0 ==>
          (d.switches.resetOn && off == 0) || (d.switches.adjustOn && off > d.status[i].wp))
    && (d.IsConv(i) ==> off + n >= d.status[i].wp)
  }

  /** The entry whose type the split test looks at before it tests that there is such a zone. */
  function Peeked(d: Device, i: nat, end: nat): set<nat>
    requires d.Valid() && i < |d.status|
  {
    if d.IsSeq(i) && end <= Twice32(d.Z()) then {i + 1} else {}
  }

  /** The entries beyond zone `i` a crossing write depends on or changes: the second zone of a split;
      the zones a conventional write scans and fills, the scan ending at the first zone of another
      kind; the zones a pass-through write fills. */
  function Used(d: Device, i: nat, end: nat): set<nat>
    requires d.Valid() && i < |d.status|
  {
    var e := EndZone(i, end, d.Z());
    if Splits(d, i, end) then {i + 1}
    else if d.IsConv(i) then
      if d.policy.writeFlag != 0 || (i + 1 < |d.status| && d.IsConv(i + 1)) then {i + 1, e} else {i + 1}
    else if d.policy.writeFlag == 1 then {i + 1, e}
    else {}
  }

  /** The request is a write that gets past the border of its zone in the rule check. */
  predicate Crosses(d: Device, rq: Request)
    requires d.Valid()
  {
    && rq.dir.Write? && Addressable(d, rq)
    && var i, off := ZoneOf(d, rq.lba), OffsetOf(d, rq.lba);
      Writable(d, i, off) && off + rq.sectors > d.Z() && ReachesBorder(d, i, off, rq.sectors)
  }

  function UsedBy(d: Device, rq: Request): set<nat>
    requires d.Valid()
  {
    if Crosses(d, rq) then Used(d, ZoneOf(d, rq.lba), OffsetOf(d, rq.lba) + rq.sectors) else {}
  }

  /** Every entry beyond its own zone that the write rule reads or writes for the request. */
  function TouchedBy(d: Device, rq: Request): set<nat>
    requires d.Valid()
  {
    if Crosses(d, rq) then
      var i, end := ZoneOf(d, rq.lba), OffsetOf(d, rq.lba) + rq.sectors;
      Peeked(d, i, end) + Used(d, i, end)
    else {}
  }

  // ---------------------------------------------------------- behind the table

  predicate InsideTable(d: Device, entries: set<nat>) { forall k :: k in entries ==> k < |d.status| }

  /** The outcome of a request is determined by the allocated table exactly if every entry it uses is
      in the table. */
  lemma DeterminedIff(d: Device, rq: Request)
    requires d.Valid()
    ensures MapInTable(d, rq) <==> InsideTable(d, UsedBy(d, rq))
  {
    if Crosses(d, rq) {
      AddressableOffset(d, rq);
      var i: nat, end := ZoneOf(d, rq.lba), OffsetOf(d, rq.lba) + rq.sectors;
      var e := EndZone(i, end, d.Z());
      assert e >= i + 1;
      assert InsideTable(d, {i + 1}) <==> i + 1 < |d.status|;
      assert InsideTable(d, {i + 1, e}) <==> e < |d.status| by {
        assert e in {i + 1, e} && i + 1 in {i + 1, e};
      }
    } else {
      assert UsedBy(d, rq) == {};
    }
  }

  /** The writes whose outcome memory behind the table decides or receives: they end at or past its last
      sector and get to the border stage, or to its second look at the table. */
  predicate LeavesTable(d: Device, rq: Request)
    requires d.Valid()
  {
    && rq.dir.Write? && Addressable(d, rq)
    && var i: nat, off, end := ZoneOf(d, rq.lba), OffsetOf(d, rq.lba), OffsetOf(d, rq.lba) + rq.sectors;
      && Writable(d, i, off)
      && end > d.Z()
      && rq.lba + rq.sectors >= |d.status| * d.Z()
      && if d.IsConv(i)
         then end >= d.status[i].wp && (i + 1 == |d.status| || d.policy.writeFlag != 0 || d.IsConv(i + 1))
         else d.policy.writeFlag == 1 && !Splits(d, i, end)
  }

  /** The writes that look at the type of a zone behind the table to no effect: they cross the end of
      the last allocated zone, and that zone is sequential. */
  predicate PeeksBehind(d: Device, rq: Request)
    requires d.Valid()
  {
    Crosses(d, rq) && ZoneOf(d, rq.lba) as nat + 1 == |d.status| && d.IsSeq(ZoneOf(d, rq.lba))
  }

  /** Exactly which requests have no outcome determined by the table; in particular none that ends
      below the last sector of the table. */
  lemma InTableIff(d: Device, rq: Request)
    requires d.Valid()
    ensures MapInTable(d, rq) <==> !LeavesTable(d, rq)
  {
    if rq.dir.Write? && Addressable(d, rq) {
      AddressableOffset(d, rq);
      var i, end := ZoneOf(d, rq.lba), OffsetOf(d, rq.lba) + rq.sectors;
      if end > d.Z() { EndZoneInside(i, end, d.Z(), |d.status|); }
    }
  }

  lemma EndZoneInside(i: nat, end: nat, z: nat, n: nat)
    requires z < end <= 2 * z && i < n
    ensures EndZone(i, end, z) < n <==> i * z + end < n * z
  {
    assert (i + 1) * z == i * z + z;
    assert (i + 2) * z == i * z + 2 * z;
    if i + 2 < n { MulMonotone(i + 3, n, z); assert (i + 3) * z == i * z + 3 * z; }
  }

  /** Exactly which requests make the write rule touch memory behind the table: those whose outcome the
      table does not determine, and those that only look. */
  lemma TouchesBehindIff(d: Device, rq: Request)
    requires d.Valid()
    ensures !InsideTable(d, TouchedBy(d, rq)) <==> LeavesTable(d, rq) || PeeksBehind(d, rq)
  {
    InTableIff(d, rq);
    DeterminedIff(d, rq);
    if Crosses(d, rq) {
      var i: nat, end := ZoneOf(d, rq.lba), OffsetOf(d, rq.lba) + rq.sectors;
      var peeked, used := Peeked(d, i, end), Used(d, i, end);
      assert InsideTable(d, peeked + used) <==> InsideTable(d, peeked) && InsideTable(d, used) by {
        assert forall k :: k in peeked + used <==> k in peeked || k in used;
        Subset(d, peeked, peeked + used);
        Subset(d, used, peeked + used);
      }
      assert InsideTable(d, peeked) <==> !PeeksBehind(d, rq) by {
        assert d.IsSeq(i) ==> i + 1 in peeked;
      }
    }
  }

  lemma Subset(d: Device, small: set<nat>, large: set<nat>)
    requires small <= large
    ensures InsideTable(d, large) ==> InsideTable(d, small)
  {}

  /** A request that only looks is refused or passed as if the table ended there: without a second zone
      there is no split. */
  lemma PeekDecidesNothing(d: Device, rq: Request)
    requires d.Valid() && PeeksBehind(d, rq)
    ensures !Splits(d, ZoneOf(d, rq.lba), OffsetOf(d, rq.lba) + rq.sectors)
    ensures d.policy.writeFlag == 0 ==> MapInTable(d, rq) && !Map(d, rq).mapped
  {
    AddressableOffset(d, rq);
  }
}
