/** Out-of-policy requests that are satisfied without delay: exactly when they change what is persisted
    and leave no mark for the persistence thread. */
module Unmarked {
  import opened Geometry
  import opened ZoneTypes
  import opened ZoneRules
  import opened Operations
  import opened StrictRules
  import opened PassThrough
  import opened StateImage

  // -------------------------------------------------------------- rules broken

  /** A read across the border of its zone, or past the write pointer of a zone that has one. */
  predicate BreaksReadRule(d: Device, rq: Request)
    requires d.Valid() && Addressable(d, rq)
  {
    var i, end := ZoneOf(d, rq.lba), OffsetOf(d, rq.lba) + rq.sectors;
    end > d.Z() || (!d.IsConv(i) && end > d.status[i].wp)
  }

  /** A write across the border that is not split, unless it ends below the pointer of a conventional
      zone; or one inside a sequential zone that is not made of whole blocks or not at the write
      pointer. A split passes whatever else is wrong, and so does every write inside another zone. */
  predicate BreaksWriteRule(d: Device, rq: Request)
    requires d.Valid() && Addressable(d, rq)
  {
    var i, off, n := ZoneOf(d, rq.lba), OffsetOf(d, rq.lba), rq.sectors;
    if off + n > d.Z() then !Splits(d, i, off + n) && (d.IsConv(i) ==> off + n >= d.status[i].wp)
    else d.IsSeq(i) && (n % 8 != 0 || off != d.status[i].wp)
  }

  /** The request breaks a rule and is satisfied without delay: a read when out-of-policy reads are
      satisfied, a write when both kinds of requests are. */
  predicate PassesUnmarked(d: Device, rq: Request)
    requires d.Valid() && Addressable(d, rq)
  {
    && d.policy.readFlag == 1
    && if rq.dir.Read? then BreaksReadRule(d, rq) else d.policy.writeFlag == 1 && BreaksWriteRule(d, rq)
  }

  /** Zones `i` to `e` are, as far as they are live, as a write leaves them that covers all but the last
      of them and `tail` sectors of that one. */
  predicate SpanAsIs(d: Device, i: nat, e: nat, tail: nat)
    requires d.Valid() && i <= e < |d.status|
  {
    && (forall k :: i <= k < e && k < d.N() ==> d.status[k] == Filled(d.status[k], d.Z()))
    && (e < d.N() ==> d.status[e] == Landed(d.status[e], tail))
  }

  /** The write breaks a rule without counting a violation, and its zones look afterwards as before: it
      covers zones that are filled already and not of a kind it may not reach, or the switch that
      resets the pointer lets it write again what the zone holds. */
  predicate LeavesAsIs(d: Device, i: nat, off: nat, n: nat)
    requires d.Valid() && i < |d.status|
  {
    var z, end, s := d.Z(), off + n, d.status[i];
    var e := EndZone(i, end, z);
    if end > z then
      && e < |d.status| && !d.IsSeq(i) && (d.IsConv(i) ==> !HitsOther(d, i, e))
      && SpanAsIs(d, i, e, if end < 2 * z then end - z else 0)
    else
      d.switches.resetOn && off == 0 && n % 8 == 0 && s.wp == n && s.cond == (if n == z then Full else Closed)
  }

  // ------------------------------------------------------------------ writes

  /** Writes are let through, whatever the research switches. */
  predicate LetThrough(d: Device) { d.Valid() && d.policy.writeFlag == 1 }

  lemma BumpChanges(c: u32)
    ensures Wrap32(c + 1) != c
  {}

  /** Counting any violation changes the counters. */
  lemma CountedDiffers(s: ZoneStats, misaligned: bool, offPointer: bool, spans: bool)
    ensures Counted(s, misaligned, offPointer, spans) != s <==> misaligned || offPointer || spans
  {
    BumpChanges(s.unaligned);
    BumpChanges(s.notOnSwp);
    BumpChanges(s.writeSpan);
  }

  /** Where the tests leave the pointer of a sequential zone. */
  function TestedWp(d: Device, s: ZoneStatus, off: nat): u32 {
    if s.wp == off then s.wp else if d.switches.resetOn && off == 0 then 0
    else if d.switches.adjustOn && off > s.wp then Wrap32(off) else s.wp
  }

  /** Whether the pointer test counts: the switch that resets the pointer does not. */
  predicate CountsPointer(d: Device, s: ZoneStatus, off: nat) {
    s.wp != off && !(d.switches.resetOn && off == 0)
  }

  /** The device after the alignment and pointer tests of a sequential zone. */
  function AfterTests(d: Device, i: nat, off: nat, n: nat): (r: Device)
    requires d.Valid() && i < |d.status|
    ensures r.Valid()
  {
    var s := d.status[i];
    d.(status := d.status[i := s.(wp := TestedWp(d, s, off))],
       stats := d.stats[i := Counted(d.stats[i], n % 8 != 0, CountsPointer(d, s, off), false)])
  }

  lemma TestsOfSequential(d: Device, i: nat, off: nat, n: nat)
    requires LetThrough(d) && i < |d.status| && d.IsSeq(i)
    requires off < d.Z() && off + n <= 2 * d.Z() && InTable(d, i, off, n)
    ensures InTable(AfterTests(d, i, off, n), i, off, n)
    ensures CheckWrite(d, i, off, n) ==
            PlaceWrite(AfterTests(d, i, off, n), i, off, n, n % 8 != 0 || off != d.status[i].wp)
  {
    ByteAlignment(n);
    var t := AfterTests(d, i, off, n);
    assert d.status[i := d.status[i]] == d.status && d.stats[i := d.stats[i]] == d.stats;
    var a := AlignStage(d, i, n);
    var p := PointerStage(a.device, i, off, a.violated);
    assert p == Continue(t, n % 8 != 0 || off != d.status[i].wp) by {
      assert p.device.stats == t.stats && p.device.status == t.status;
    }
  }

  /** What a write inside a sequential zone leaves behind. */
  lemma InsideSequential(d: Device, i: nat, off: nat, n: nat)
    requires LetThrough(d) && i < |d.status| && d.IsSeq(i) && off < d.Z() && off + n <= d.Z()
    ensures InTable(d, i, off, n)
    ensures
      var r, s := CheckWrite(d, i, off, n), d.status[i];
      var wp := Wrap32(if s.cond.Full? then off + n else TestedWp(d, s, off) + n);
      && (r.verdict.Pass? <==> n % 8 == 0 && off == s.wp)
      && r.device.stats == d.stats[i := Counted(d.stats[i], n % 8 != 0, CountsPointer(d, s, off), false)]
      && r.device.status == d.status[i := s.(wp := wp, cond := if wp == d.Z() then Full else Closed)]
  {
    ZoneSectorsBound(d.layout.zoneShift);
    TestsOfSequential(d, i, off, n);
    var t, v := AfterTests(d, i, off, n), n % 8 != 0 || off != d.status[i].wp;
    assert ConventionalStage(t, i, off, n, v) == Continue(t, v);
    assert BorderStage(t, i, off, n, v) == Continue(t, v);
  }

  /** A write across the border of a sequential zone: a split passes, any other is counted. */
  lemma AcrossSequential(d: Device, i: nat, off: nat, n: nat)
    requires LetThrough(d) && i < |d.status| && d.IsSeq(i)
    requires off < d.Z() < off + n <= 2 * d.Z() && InTable(d, i, off, n)
    ensures
      var r := CheckWrite(d, i, off, n);
      && (r.verdict.Pass? <==> Splits(d, i, off + n))
      && r.device.stats == d.stats[i := Counted(d.stats[i], n % 8 != 0, CountsPointer(d, d.status[i], off), true)]
  {
    TestsOfSequential(d, i, off, n);
    AcrossTested(d, i, off, n, n % 8 != 0 || off != d.status[i].wp);
  }

  lemma AcrossTested(d: Device, i: nat, off: nat, n: nat, violated: bool)
    requires LetThrough(d) && i < |d.status| && d.IsSeq(i)
    requires off < d.Z() < off + n <= 2 * d.Z() && InTable(AfterTests(d, i, off, n), i, off, n)
    ensures
      var r := PlaceWrite(AfterTests(d, i, off, n), i, off, n, violated);
      && (r.verdict.Pass? <==> Splits(d, i, off + n))
      && r.device.stats == d.stats[i := Counted(d.stats[i], n % 8 != 0, CountsPointer(d, d.status[i], off), true)]
  {
    var t := AfterTests(d, i, off, n);
    assert ConventionalStage(t, i, off, n, violated) == Continue(t, violated);
    BorderOfSequential(t, i, off, n, violated);
    assert Splits(t, i, off + n) == Splits(d, i, off + n);
    assert t.stats[i := Counted(t.stats[i], false, false, true)] ==
           d.stats[i := Counted(d.stats[i], n % 8 != 0, CountsPointer(d, d.status[i], off), true)];
  }

  lemma BorderOfSequential(d: Device, i: nat, off: nat, n: nat, violated: bool)
    requires LetThrough(d) && i < |d.status| && d.IsSeq(i)
    requires off < d.Z() < off + n <= 2 * d.Z() && InTable(d, i, off, n)
    ensures
      var b := BorderStage(d, i, off, n, violated);
      && b.Stop?
      && (b.verdict.Pass? <==> Splits(d, i, off + n))
      && b.device.stats == d.stats[i := Counted(d.stats[i], false, false, true)]
  {}

  /** A write to a zone that is not sequential breaks a rule only across the border; then the zones it
      covers are filled, and a conventional write that reaches a zone of another kind is counted. */
  lemma WriteElsewhere(d: Device, i: nat, off: nat, n: nat)
    requires LetThrough(d) && i < |d.status| && !d.IsSeq(i)
    requires off < d.Z() && off + n <= 2 * d.Z() && InTable(d, i, off, n)
    ensures
      var r, end, e := CheckWrite(d, i, off, n), off + n, EndZone(i, off + n, d.Z());
      if end <= d.Z() || (d.IsConv(i) && end < d.status[i].wp) then r.verdict.Pass?
      else
        && !r.verdict.Pass? && e < |d.status|
        && r.device.status == Spanned(d, i, e, if end < 2 * d.Z() then end - d.Z() else 0).status
        && r.device.stats ==
           if d.IsConv(i) && HitsOther(d, i, e)
           then d.stats[i := Counted(d.stats[i], false, false, true)] else d.stats
  {
    assert AlignStage(d, i, n) == Continue(d, false);
    assert PointerStage(d, i, off, false) == Continue(d, false);
  }

  // --------------------------------------------------------- what is persisted

  /** What a write breaking a rule persists is as before exactly if it leaves counters and live zones
      as they were. */
  lemma PersistedSame(d: Device, r: Device)
    requires d.Valid() && r.Valid() && TableOnly(d, r)
    ensures PersistedOf(r) == PersistedOf(d) <==>
            forall k :: 0 <= k < d.N() ==> r.stats[k] == d.stats[k] && r.status[k] == d.status[k]
  {
    var p, q := PersistedOf(d), PersistedOf(r);
    if forall k :: 0 <= k < d.N() ==> r.stats[k] == d.stats[k] && r.status[k] == d.status[k] {
      assert q.stats == p.stats && q.status == p.status;
    } else {
      var k :| 0 <= k < d.N() && !(r.stats[k] == d.stats[k] && r.status[k] == d.status[k]);
      assert q.stats[k] != p.stats[k] || q.status[k] != p.status[k];
    }
  }

  lemma SequentialWriteKeeps(d: Device, i: nat, off: nat, n: nat)
    requires LetThrough(d) && i < d.N() && d.IsSeq(i)
    requires off < d.Z() && off + n <= 2 * d.Z() && InTable(d, i, off, n)
    requires !CheckWrite(d, i, off, n).verdict.Pass?
    ensures PersistedOf(CheckWrite(d, i, off, n).device) == PersistedOf(d) <==> LeavesAsIs(d, i, off, n)
  {
    var r, s := CheckWrite(d, i, off, n).device, d.status[i];
    PersistedSame(d, r);
    if off + n <= d.Z() {
      InsideSequential(d, i, off, n);
      CountedDiffers(d.stats[i], n % 8 != 0, CountsPointer(d, s, off), false);
      InsideKeeps(d, i, off, n);
    } else {
      AcrossSequential(d, i, off, n);
      CountedDiffers(d.stats[i], n % 8 != 0, CountsPointer(d, s, off), true);
    }
  }

  lemma InsideKeeps(d: Device, i: nat, off: nat, n: nat)
    requires d.Valid() && i < |d.status| && off + n <= d.Z() && (n % 8 != 0 || off != d.status[i].wp)
    ensures
      var s := d.status[i];
      var wp := Wrap32(if s.cond.Full? then off + n else TestedWp(d, s, off) + n);
      (n % 8 == 0 && !CountsPointer(d, s, off) &&
       s == s.(wp := wp, cond := if wp == d.Z() then Full else Closed)) <==> LeavesAsIs(d, i, off, n)
  {
    ZoneSectorsBound(d.layout.zoneShift);
  }

  lemma OtherWriteKeeps(d: Device, i: nat, off: nat, n: nat)
    requires LetThrough(d) && i < d.N() && !d.IsSeq(i)
    requires off < d.Z() && off + n <= 2 * d.Z() && InTable(d, i, off, n)
    requires !CheckWrite(d, i, off, n).verdict.Pass?
    ensures PersistedOf(CheckWrite(d, i, off, n).device) == PersistedOf(d) <==> LeavesAsIs(d, i, off, n)
  {
    var r, end := CheckWrite(d, i, off, n).device, off + n;
    WriteElsewhere(d, i, off, n);
    PersistedSame(d, r);
    var e, tail := EndZone(i, end, d.Z()), if end < 2 * d.Z() then end - d.Z() else 0;
    SpanKeeps(d, i, e, tail);
    CountedDiffers(d.stats[i], false, false, true);
  }

  lemma SpanKeeps(d: Device, i: nat, e: nat, tail: nat)
    requires d.Valid() && i <= e < |d.status|
    ensures SpanAsIs(d, i, e, tail) <==>
            forall k :: 0 <= k < d.N() ==> Spanned(d, i, e, tail).status[k] == d.status[k]
  {
    var r := Spanned(d, i, e, tail);
    if forall k :: 0 <= k < d.N() ==> r.status[k] == d.status[k] {
      forall k | i <= k < e && k < d.N()
        ensures d.status[k] == Filled(d.status[k], d.Z())
      {
        assert r.status[k] == d.status[k];
      }
      if e < d.N() { assert r.status[e] == d.status[e]; }
    }
  }

  // ------------------------------------------------------------- the main result

  /** The request breaks a rule, is satisfied without delay, and does not leave everything as it was. */
  predicate ChangesUnmarked(d: Device, rq: Request)
    requires d.Valid()
  {
    && Addressable(d, rq) && PassesUnmarked(d, rq)
    && (rq.dir.Write? ==> !LeavesAsIs(d, ZoneOf(d, rq.lba), OffsetOf(d, rq.lba), rq.sectors))
  }

  lemma UnmarkedRead(d: Device, rq: Request)
    requires d.Valid() && rq.dir.Read? && Addressable(d, rq)
    ensures PersistedOf(Map(d, rq).device) != PersistedOf(d) && Map(d, rq).mark.NoMark? <==> PassesUnmarked(d, rq)
    ensures PassesUnmarked(d, rq) ==> Map(d, rq).mapped
  {
    var i, r := ZoneOf(d, rq.lba), Map(d, rq).device;
    BumpChanges(d.stats[i].readSpan);
    BumpChanges(d.stats[i].beyondSwp);
    PersistedSame(d, r);
    assert r.stats[i] != d.stats[i] || r == d;
  }

  lemma WriteVerdict(d: Device, rq: Request)
    requires LetThrough(d) && rq.dir.Write? && Addressable(d, rq) && MapInTable(d, rq)
    ensures
      var i, off, n := ZoneOf(d, rq.lba), OffsetOf(d, rq.lba), rq.sectors;
      && off < d.Z() && off + n <= 2 * d.Z() && InTable(d, i, off, n)
      && var r := CheckWrite(d, i, off, n);
        && (r.verdict.Pass? <==> !BreaksWriteRule(d, rq))
        && (!r.verdict.Pass? ==> (PersistedOf(r.device) == PersistedOf(d) <==> LeavesAsIs(d, i, off, n)))
  {
    AddressableOffset(d, rq);
    var i, off, n := ZoneOf(d, rq.lba), OffsetOf(d, rq.lba), rq.sectors;
    if !d.IsSeq(i) {
      WriteElsewhere(d, i, off, n);
    } else if off + n <= d.Z() {
      InsideSequential(d, i, off, n);
    } else {
      AcrossSequential(d, i, off, n);
    }
    if !CheckWrite(d, i, off, n).verdict.Pass? {
      if d.IsSeq(i) { SequentialWriteKeeps(d, i, off, n); } else { OtherWriteKeeps(d, i, off, n); }
    }
  }

  /** A request changes what is persisted and leaves no mark exactly when it breaks a rule, is satisfied
      without delay, and does not leave everything as it was: every read or write, every kind of zone,
      every policy and every setting of the research switches. */
  lemma UnmarkedChangeIff(d: Device, rq: Request)
    requires d.Valid() && MapInTable(d, rq)
    ensures Map(d, rq).mark.NoMark? && PersistedOf(Map(d, rq).device) != PersistedOf(d) <==> ChangesUnmarked(d, rq)
    ensures ChangesUnmarked(d, rq) ==> Map(d, rq).mapped
  {
    if Addressable(d, rq) {
      AddressableOffset(d, rq);
      if rq.dir.Read? {
        UnmarkedRead(d, rq);
      } else if d.policy.writeFlag == 1 {
        WriteVerdict(d, rq);
      }
    }
  }
}
