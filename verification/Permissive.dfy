/** Permissive modes extend strict mode: what a strict device maps, every permissive device in the
    same state maps too, with the same effect. */
module Permissive {
  import opened Geometry
  import opened ZoneTypes
  import opened ZoneRules
  import opened Operations
  import opened StrictRules

  predicate SameButFlag(s: ZoneStatus, t: ZoneStatus) { t == s.(flag := t.flag) }

  /** `p` has the zone table and counters of `d` under any setting of the policy flags, the research
      switches and the border flags. */
  predicate Relaxes(d: Device, p: Device) {
    && p.layout == d.layout
    && p.stats == d.stats
    && |p.status| == |d.status|
    && p.policy.readFlag <= 1
    && p.policy.writeFlag <= 1
    && forall k :: 0 <= k < |d.status| ==> SameButFlag(d.status[k], p.status[k])
  }

  predicate CrossingOff(d: Device) {
    forall k :: 0 <= k < |d.status| ==> d.status[k].flag == CROSS_OFF
  }

  lemma SequentialExtends(d: Device, p: Device, i: nat, off: nat, n: nat)
    requires StrictState(d) && CrossingOff(d) && Relaxes(d, p) && i < d.N() && d.IsSeq(i)
    requires off < d.Z() && off + n <= d.Z() && n % 8 == 0 && d.status[i].wp == off
    ensures InTable(p, i, off, n)
    ensures CheckWrite(p, i, off, n) == Outcome(Advanced(p, i, off + n), Pass)
  {
    assert ZoneOk(d.status[i], d.Z());
    assert SameButFlag(d.status[i], p.status[i]);
    ByteAlignment(n);
    ZoneSectorsBound(d.layout.zoneShift);
    assert AlignStage(p, i, n) == Continue(p, false);
    assert PointerStage(p, i, off, false) == Continue(p, false);
    assert ConventionalStage(p, i, off, n, false) == Continue(p, false);
    assert BorderStage(p, i, off, n, false) == Continue(p, false);
  }

  lemma ConventionalExtends(d: Device, p: Device, i: nat, off: nat, n: nat)
    requires StrictState(d) && Relaxes(d, p) && i < d.N() && d.IsConv(i)
    requires off < d.Z() && off + n <= 2 * d.Z() && InTable(d, i, off, n)
    requires CheckWrite(d, i, off, n).verdict.Pass?
    ensures InTable(p, i, off, n)
    ensures Relaxes(CheckWrite(d, i, off, n).device, CheckWrite(p, i, off, n).device)
    ensures CheckWrite(p, i, off, n).verdict.Pass? || p.policy.writeFlag == 1
  {
    StrictConventionalWrite(d, i, off, n);
    assert ZoneOk(d.status[i], d.Z());
    assert SameButFlag(d.status[i], p.status[i]);
    var end := off + n;
    if i + 1 < |d.status| { assert SameButFlag(d.status[i + 1], p.status[i + 1]); }
    if EndZone(i, end, d.Z()) < |d.status| {
      assert SameButFlag(d.status[EndZone(i, end, d.Z())], p.status[EndZone(i, end, d.Z())]);
    }
    ConventionalStages(d, p, i, off, n);
  }

  lemma ConventionalStages(d: Device, p: Device, i: nat, off: nat, n: nat)
    requires d.Valid() && d.policy.writeFlag == 0 && p.Valid() && Relaxes(d, p)
    requires i < |d.status| && d.IsConv(i) && d.status[i].cond.NoWp?
    requires off < d.Z() && off + n <= 2 * d.Z() && InTable(d, i, off, n) && InTable(p, i, off, n)
    requires off + n <= d.Z() || off + n < d.status[i].wp || SpansConventional(d, i, off + n)
    ensures Relaxes(CheckWrite(d, i, off, n).device, CheckWrite(p, i, off, n).device)
    ensures CheckWrite(p, i, off, n).verdict.Pass? || p.policy.writeFlag == 1
  {
    assert SameButFlag(d.status[i], p.status[i]);
    assert AlignStage(d, i, n) == Continue(d, false) && AlignStage(p, i, n) == Continue(p, false);
    assert PointerStage(d, i, off, false) == Continue(d, false);
    assert PointerStage(p, i, off, false) == Continue(p, false);
    var cd, cp := ConventionalStage(d, i, off, n, false), ConventionalStage(p, i, off, n, false);
    if cd.Continue? {
      assert cp == Continue(p, false) && cd == Continue(d, false);
      BorderExtends(d, p, i, off, n);
    }
  }

  lemma BorderExtends(d: Device, p: Device, i: nat, off: nat, n: nat)
    requires d.Valid() && d.policy.writeFlag == 0 && p.Valid() && Relaxes(d, p)
    requires i < |d.status| && d.IsConv(i) && d.status[i].cond.NoWp?
    requires off < d.Z() && off + n <= 2 * d.Z() && InTable(d, i, off, n) && InTable(p, i, off, n)
    requires off + n >= d.status[i].wp && p.status[i].wp == d.status[i].wp
    requires p.IsConv(i)
    requires off + n <= d.Z() || SpansConventional(d, i, off + n)
    ensures
      var bd, bp := BorderStage(d, i, off, n, false), BorderStage(p, i, off, n, false);
      if off + n <= d.Z() then
        && bd == Continue(d, false) && bp == Continue(p, false)
        && Relaxes(AdvanceStage(d, i, off, n, false).device, AdvanceStage(p, i, off, n, false).device)
        && AdvanceStage(p, i, off, n, false).verdict.Pass?
      else
        && bd.Stop? && bp.Stop? && Relaxes(bd.device, bp.device)
        && (bp.verdict.Pass? || p.policy.writeFlag == 1)
  {
    assert SameButFlag(d.status[i], p.status[i]);
    if off + n > d.Z() {
      var e := EndZone(i, off + n, d.Z());
      assert SameButFlag(d.status[i + 1], p.status[i + 1]);
      assert SameButFlag(d.status[e], p.status[e]);
    }
  }

  lemma SameAddress(d: Device, p: Device, rq: Request)
    requires d.Valid() && Relaxes(d, p) && Addressable(d, rq)
    ensures p.Valid() && Addressable(p, rq)
    ensures ZoneOf(p, rq.lba) == ZoneOf(d, rq.lba) && OffsetOf(p, rq.lba) == OffsetOf(d, rq.lba)
  {
    assert SameButFlag(d.status[ZoneOf(d, rq.lba)], p.status[ZoneOf(d, rq.lba)]);
  }

  /** A request that strict mode maps with border crossing off is mapped under every permissive
      setting, and leaves the same zone table and the same counters. */
  lemma PermissiveExtendsStrict(d: Device, p: Device, rq: Request)
    requires StrictState(d) && CrossingOff(d) && Relaxes(d, p)
    requires MapInTable(d, rq) && Map(d, rq).mapped
    ensures MapInTable(p, rq) && Map(p, rq).mapped
    ensures Relaxes(Map(d, rq).device, Map(p, rq).device)
  {
    StrictMap(d, rq);
    SameAddress(d, p, rq);
    AddressableOffset(d, rq);
    var i, off, n := ZoneOf(d, rq.lba), OffsetOf(d, rq.lba), rq.sectors;
    assert ZoneOk(d.status[i], d.Z());
    if rq.dir.Write? {
      assert Writable(p, i, off) by { assert SameButFlag(d.status[i], p.status[i]); }
      WriteExtends(d, p, i, off, n, Map(d, rq));
    } else {
      assert SameButFlag(d.status[i], p.status[i]);
    }
  }

  lemma WriteExtends(d: Device, p: Device, i: nat, off: nat, n: nat, r: MapResult)
    requires StrictState(d) && CrossingOff(d) && Relaxes(d, p) && i < d.N()
    requires off < d.Z() && off + n <= 2 * d.Z() && InTable(d, i, off, n)
    requires var w := CheckWrite(d, i, off, n); w.verdict.Pass? && w.device == r.device && r.mapped
    ensures InTable(p, i, off, n)
    ensures Relaxes(r.device, CheckWrite(p, i, off, n).device)
    ensures CheckWrite(p, i, off, n).verdict.Pass? || p.policy.writeFlag == 1
  {
    assert ZoneOk(d.status[i], d.Z());
    if d.IsSeq(i) {
      StrictSequentialWrite(d, i, off, n);
      NoCrossingAccepted(d, i, off, n, r);
      SequentialExtends(d, p, i, off, n);
      assert SameButFlag(d.status[i], p.status[i]);
    } else {
      ConventionalExtends(d, p, i, off, n);
    }
  }

  lemma NoCrossingAccepted(d: Device, i: nat, off: nat, n: nat, r: MapResult)
    requires d.Valid() && CrossingOff(d) && i < d.N() && r.mapped
    requires SequentialOutcome(d, i, off, n, r.device, r.mapped)
    ensures n % 8 == 0 && d.status[i].wp == off && off + n <= d.Z()
    ensures r.device == Advanced(d, i, off + n)
  {
    assert !Splits(d, i, off + n);
  }

  // -------------------------------------------------------------- whole runs

  /** Every request of the run is mapped, and no operation switches border crossing. */
  predicate AllMapped(d: Device, ops: seq<Op>)
    requires Runs(d, ops)
    decreases |ops|
  {
    ops != [] ==>
      && ops[0].KeepsConfig() && !ops[0].Border?
      && (ops[0].Io? ==> Map(d, ops[0].rq).mapped)
      && AllMapped(Step(d, ops[0]), ops[1..])
  }

  lemma StepExtends(d: Device, p: Device, op: Op)
    requires StrictState(d) && CrossingOff(d) && Relaxes(d, p)
    requires Enabled(d, op) && op.KeepsConfig() && !op.Border? && (op.Io? ==> Map(d, op.rq).mapped)
    ensures Enabled(p, op) && (op.Io? ==> Map(p, op.rq).mapped)
    ensures Relaxes(Step(d, op), Step(p, op))
    ensures CrossingOff(Step(d, op))
  {
    if op.Io? {
      PermissiveExtendsStrict(d, p, op.rq);
      StrictMap(d, op.rq);
      FlagsKept(d, op.rq, Map(d, op.rq));
    } else if op.ZoneReset? && d.N() > ZoneOf(d, op.sector) {
      assert SameButFlag(d.status[ZoneOf(d, op.sector)], p.status[ZoneOf(d, op.sector)]);
    }
  }

  lemma FlagsKept(d: Device, rq: Request, r: MapResult)
    requires StrictState(d) && CrossingOff(d) && StrictMapped(d, rq, r)
    ensures CrossingOff(r.device)
  {
    if Addressable(d, rq) {
      assert ZoneOk(d.status[ZoneOf(d, rq.lba)], d.Z());
      AddressableOffset(d, rq);
    }
  }

  /** Two runs in step: a strict run whose requests are all mapped can be replayed on any relaxed
      device, where again every request is mapped, and the zone tables and counters stay equal. */
  lemma {:induction false} PermissiveReplaysStrictRun(d: Device, p: Device, ops: seq<Op>)
    requires StrictState(d) && CrossingOff(d) && Relaxes(d, p)
    requires Runs(d, ops) && AllMapped(d, ops)
    ensures Runs(p, ops) && AllMapped(p, ops)
    ensures Relaxes(Run(d, ops), Run(p, ops))
    decreases |ops|
  {
    if ops == [] {
    } else {
      StepExtends(d, p, ops[0]);
      StrictStep(d, ops[0]);
      PermissiveReplaysStrictRun(Step(d, ops[0]), Step(p, ops[0]), ops[1..]);
    }
  }
}
