/** What becomes of a request under every policy: refused unseen, refused by a rule, or satisfied; what
    is counted, and what mark it leaves. */
module RequestOutcomes {
  import opened Geometry
  import opened ZoneTypes
  import opened ZoneRules
  import opened Operations
  import opened StrictRules
  import opened PassThrough
  import opened Unmarked

  // ------------------------------------------------------------- refused unseen

  /** The request ends more than two zones past the start of its zone, where twice the zone size is a
      32-bit value. */
  predicate TooLarge(d: Device, rq: Request) {
    OffsetOf(d, rq.lba) + rq.sectors > (if d.Z() < 0x8000_0000 then 2 * d.Z() else 0)
  }

  /** Requests outside the live zones, too large ones, and those to an OFFLINE zone. */
  predicate Unreachable(d: Device, rq: Request)
    requires d.Valid()
  {
    || d.N() <= ZoneOf(d, rq.lba)
    || TooLarge(d, rq)
    || d.status[ZoneOf(d, rq.lba)].cond == Offline
  }

  lemma AddressableIff(d: Device, rq: Request)
    requires d.Valid()
    ensures Addressable(d, rq) <==> !Unreachable(d, rq)
  {
    ZoneSectorsBound(d.layout.zoneShift);
    if d.layout.zoneShift < ZONE_SIZE_SHIFT_MAX { NotLargest(d.layout.zoneShift); } else { Pow2Values(); }
  }

  /** A write that is rejected for the condition of its zone: READ ONLY, or FULL unless it begins at the
      start of the zone. */
  predicate Protected(d: Device, rq: Request)
    requires d.Valid() && ZoneOf(d, rq.lba) < d.N()
  {
    var cond := d.status[ZoneOf(d, rq.lba)].cond;
    && rq.dir == Write && d.policy.writeFlag == 0
    && (cond == ReadOnly || (cond == Full && rq.lba != ZoneOf(d, rq.lba) * d.Z()))
  }

  /** Refused, marked for its zone, and nothing changed, counters included. */
  predicate RefusedUnseen(d: Device, rq: Request)
    requires d.Valid() && MapInTable(d, rq)
  {
    Map(d, rq) == MapResult(d, false, StatsMark(ZoneOf(d, rq.lba)))
  }

  /** Unreachable requests and protected writes are refused and count nothing, under every policy. */
  lemma RefusedBeforeTheRules(d: Device, rq: Request)
    requires d.Valid() && MapInTable(d, rq)
    requires Unreachable(d, rq) || Protected(d, rq)
    ensures RefusedUnseen(d, rq)
  {
    AddressableIff(d, rq);
    if !Unreachable(d, rq) { AddressableOffset(d, rq); }
  }

  // ------------------------------------------------------------------ satisfied

  /** While out-of-policy writes are satisfied every write that is not unreachable is mapped, whatever
      rule it breaks. It marks the status of its zone, unless it breaks a rule while out-of-policy
      reads are satisfied too: then it leaves no mark. */
  lemma WritesAreSatisfied(d: Device, rq: Request)
    requires d.Valid() && MapInTable(d, rq) && rq.dir == Write && d.policy.writeFlag == 1
    ensures Map(d, rq).mapped <==> !Unreachable(d, rq)
    ensures !Unreachable(d, rq) ==>
      && Addressable(d, rq)
      && Map(d, rq).mark ==
         if d.policy.readFlag == 1 && BreaksWriteRule(d, rq) then NoMark else StatusMark(ZoneOf(d, rq.lba))
    ensures Unreachable(d, rq) ==> RefusedUnseen(d, rq)
  {
    AddressableIff(d, rq);
    if Addressable(d, rq) {
      AddressableOffset(d, rq);
      WriteVerdict(d, rq);
    }
  }

  /** While out-of-policy writes are rejected a write that breaks a rule is refused and marks the
      counters of its zone; one that is mapped marks its status. */
  lemma RejectedWritesAreMarked(d: Device, rq: Request)
    requires d.Valid() && MapInTable(d, rq) && rq.dir == Write && d.policy.writeFlag == 0
    ensures Map(d, rq).mark ==
            if Map(d, rq).mapped then StatusMark(ZoneOf(d, rq.lba)) else StatsMark(ZoneOf(d, rq.lba))
  {
    if Addressable(d, rq) { AddressableOffset(d, rq); }
  }

  function Next32(c: u32): u32 { if c == 0xFFFF_FFFF then 0 else c + 1 }

  /** The read crosses the border of its zone. */
  predicate SpansRead(d: Device, rq: Request) { OffsetOf(d, rq.lba) + rq.sectors > d.Z() }

  /** The read of a zone that is not conventional ends past the write pointer. */
  predicate BeyondPointer(d: Device, rq: Request)
    requires ZoneOf(d, rq.lba) as nat < |d.status|
  {
    var s := d.status[ZoneOf(d, rq.lba)];
    s.ztype != Conventional && OffsetOf(d, rq.lba) + rq.sectors > s.wp
  }

  /** What a read that is not unreachable counts: each rule it breaks when out-of-policy reads are
      satisfied, only the first when they are rejected. */
  function ReadCounted(d: Device, rq: Request): ZoneStats
    requires ZoneOf(d, rq.lba) as nat < |d.status| == |d.stats|
  {
    var s := d.stats[ZoneOf(d, rq.lba)];
    var spans := SpansRead(d, rq);
    var beyond := BeyondPointer(d, rq) && !(spans && d.policy.readFlag == 0);
    s.(readSpan := if spans then Next32(s.readSpan) else s.readSpan,
       beyondSwp := if beyond then Next32(s.beyondSwp) else s.beyondSwp)
  }

  /** A read changes counters of its zone only. It is mapped if it breaks no rule, or if out-of-policy
      reads are satisfied, and then leaves no mark; refused, it marks the counters of its zone. */
  lemma ReadOutcome(d: Device, rq: Request)
    requires d.Valid() && rq.dir == Read && !Unreachable(d, rq)
    ensures
      var i, r := ZoneOf(d, rq.lba), Map(d, rq);
      && (d.policy.readFlag == 1 ==> r.mapped)
      && (d.policy.readFlag == 0 ==> (r.mapped <==> !SpansRead(d, rq) && !BeyondPointer(d, rq)))
      && r.mark == (if r.mapped then NoMark else StatsMark(i))
      && r.device == d.(stats := d.stats[i := ReadCounted(d, rq)])
  {
    AddressableIff(d, rq);
    var i := ZoneOf(d, rq.lba);
    assert d.stats[i := d.stats[i]] == d.stats;
  }

  // ---------------------------------------------------------- research switches

  /** A write of whole blocks inside sequential zone `i` that is not refused unseen. */
  predicate Plain(d: Device, i: nat, off: nat, n: nat)
    requires d.Valid()
  {
    && i < d.N() && d.status[i].ztype == Sequential && off < d.Z() && off + n <= d.Z() && n % 8 == 0
    && d.status[i].cond !in {ReadOnly, Offline}
    && (d.status[i].cond == Full ==> off == 0)
  }

  /** Why the pointer test lets a write through while out-of-policy writes are rejected. */
  predicate PointerFits(d: Device, i: nat, off: nat)
    requires i < |d.status|
  {
    || off == d.status[i].wp
    || (d.switches.resetOn && off == 0)
    || (d.switches.adjustOn && off > d.status[i].wp)
  }

  /** The write rule in reject mode: such a write passes exactly if it begins at the pointer or a research
      switch moves the pointer there. Then the pointer is its end, and only moving ahead is counted; else
      the table stays and the violation is counted. */
  lemma SwitchLetsThrough(d: Device, i: nat, off: nat, n: nat)
    requires d.Valid() && d.policy.writeFlag == 0 && Plain(d, i, off, n)
    ensures InTable(d, i, off, n)
    ensures
      var r, s, c := CheckWrite(d, i, off, n), d.status[i], d.stats[i];
      var counts := s.wp != off && !(d.switches.resetOn && off == 0);
      && (r.verdict == Pass <==> PointerFits(d, i, off))
      && r.device.stats == d.stats[i := c.(notOnSwp := if counts then Next32(c.notOnSwp) else c.notOnSwp)]
      && (!PointerFits(d, i, off) ==> r.device.status == d.status)
      && (PointerFits(d, i, off) ==>
            && |r.device.status| == |d.status| && r.device.status == d.status[i := r.device.status[i]]
            && r.device.status[i].wp == off + n
            && r.device.status[i] == s.(wp := r.device.status[i].wp,
                                        cond := if off + n == d.Z() then Full else Closed))
  {
    ZoneSectorsBound(d.layout.zoneShift);
    ByteAlignment(n);
    assert d.status[i := d.status[i]] == d.status && d.stats[i := d.stats[i]] == d.stats;
    assert AlignStage(d, i, n) == Continue(d, false);
    var p := PointerStage(d, i, off, false);
    if p.Continue? {
      assert ConventionalStage(p.device, i, off, n, p.violated) == Continue(p.device, p.violated);
      assert BorderStage(p.device, i, off, n, p.violated) == Continue(p.device, p.violated);
    }
  }

  /** The same for the request as a whole. */
  lemma SwitchedRequest(d: Device, i: nat, off: nat, n: nat)
    requires d.Valid() && d.policy.writeFlag == 0 && Plain(d, i, off, n)
    requires d.layout.zoneShift < ZONE_SIZE_SHIFT_MAX
    ensures
      var rq := Request(Write, i * d.Z() + off, n);
      && MapInTable(d, rq)
      && (Map(d, rq).mapped <==> PointerFits(d, i, off))
      && |Map(d, rq).device.status| == |d.status|
      && Map(d, rq).device.status[i].wp == (if PointerFits(d, i, off) then off + n else d.status[i].wp)
  {
    AddressOf(d, i, off);
    NotLargest(d.layout.zoneShift);
    SwitchLetsThrough(d, i, off, n);
  }

  /** Writes to a sequential zone that are not made of whole blocks are refused in reject mode, counted as
      unaligned, whatever the switches. */
  lemma UnalignedIsRefused(d: Device, i: nat, off: nat, n: nat)
    requires d.Valid() && d.policy.writeFlag == 0 && i < |d.status| && d.status[i].ztype == Sequential
    requires off < d.Z() && off + n <= 2 * d.Z() && InTable(d, i, off, n) && n % 8 != 0
    ensures
      var r, c := CheckWrite(d, i, off, n), d.stats[i];
      && r.verdict == WriteAlign
      && r.device == d.(stats := d.stats[i := c.(unaligned := Next32(c.unaligned))])
  {
    ByteAlignment(n);
  }
}
