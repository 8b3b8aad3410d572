/** When conventional writes leak into sequential zones: a run that does it, and a condition on the
    requests of a run alone under which none does. */
module Leaks {
  import opened Geometry
  import opened ZoneTypes
  import opened ZoneRules
  import opened Operations
  import opened StrictRules
  import opened StrictRuns

  // --------------------------------------------------------------- a leaking run

  /** Three zones of the default size; zones 0 and 2 are conventional, zone 1 is sequential. */
  const SMALL_ZONE: nat := 0x8_0000

  predicate SmallCapacity(capacity: nat) { 3 * SMALL_ZONE <= capacity < 4 * SMALL_ZONE }

  /** The same write twice doubles back the pointer of conventional zone `j` to 16 sectors past the
      end of the zone; the third write then ends 8 sectors past it. */
  function Twice(j: nat): Op { Io(Request(Write, j * SMALL_ZONE + 0x7_FFE0, 24)) }

  function Across(j: nat): Op { Io(Request(Write, j * SMALL_ZONE + 0x7_FFF8, 16)) }

  /** A device of three default zones in a strict state, zone `j` conventional. */
  predicate Small(d: Device, j: nat) {
    StrictState(d) && d.layout.zoneShift == 16 && |d.status| == d.N() as nat == 3 && j < 3 && d.IsConv(j)
  }

  lemma SmallInitial(capacity: nat, j: nat)
    requires SmallCapacity(capacity) && (j == 0 || j == 2)
    ensures Small(Initial(capacity, 16), j)
    ensures Initial(capacity, 16).status[j].wp == 0
    ensures Initial(capacity, 16).IsSeq(1) && Initial(capacity, 16).status[1].wp == 0
  {
    StrictInitial(capacity, 16);
    DefaultZoneSectors();
    ShiftIsDivision(capacity, 16);
  }

  lemma SmallAddress(d: Device, j: nat, off: nat, n: nat)
    requires Small(d, j) && off < SMALL_ZONE && off + n < 2 * SMALL_ZONE
    ensures
      var rq := Request(Write, j * SMALL_ZONE + off, n);
      && d.Z() == SMALL_ZONE
      && ZoneOf(d, rq.lba) == j && OffsetOf(d, rq.lba) == off
      && Addressable(d, rq) && Writable(d, j, off)
  {
    DefaultZoneSectors();
    AddressOf(d, j, off);
    assert ZoneOk(d.status[j], d.Z());
  }

  /** The pointer goes from 0 to the end of the write, then on by the length of the write. */
  lemma WriteTwice(d: Device, j: nat)
    requires Small(d, j) && d.status[j].wp in {0, 0x7_FFF8}
    ensures Enabled(d, Twice(j)) && Small(Step(d, Twice(j)), j) && SameLayout(d, Step(d, Twice(j)))
    ensures Step(d, Twice(j)).status[j].wp == if d.status[j].wp == 0 then 0x7_FFF8 else 0x8_0010
  {
    SmallAddress(d, j, 0x7_FFE0, 24);
    StrictMap(d, Twice(j).rq);
    StrictStep(d, Twice(j));
  }

  lemma Cons(d: Device, op: Op, rest: seq<Op>)
    requires d.Valid() && Enabled(d, op) && Runs(Step(d, op), rest)
    ensures Runs(d, [op] + rest) && Run(d, [op] + rest) == Run(Step(d, op), rest)
    ensures NoLeaks(d, [op] + rest) <==> !LeakOp(d, op) && NoLeaks(Step(d, op), rest)
  {
    assert ([op] + rest)[1..] == rest;
  }

  /** The device after the two first writes. */
  function AfterTwice(capacity: nat, j: nat): (d: Device)
    requires SmallCapacity(capacity) && (j == 0 || j == 2)
    ensures Small(d, j) && d.IsSeq(1) && d.status[j].wp == 0x8_0010
  {
    SmallInitial(capacity, j);
    WriteTwice(Initial(capacity, 16), j);
    WriteTwice(Step(Initial(capacity, 16), Twice(j)), j);
    Step(Step(Initial(capacity, 16), Twice(j)), Twice(j))
  }

  function TwiceThen(j: nat, rest: seq<Op>): seq<Op> { [Twice(j)] + ([Twice(j)] + rest) }

  lemma TwiceRuns(capacity: nat, j: nat, rest: seq<Op>)
    requires SmallCapacity(capacity) && (j == 0 || j == 2)
    requires Runs(AfterTwice(capacity, j), rest)
    ensures Runs(Initial(capacity, 16), TwiceThen(j, rest))
    ensures Run(Initial(capacity, 16), TwiceThen(j, rest)) == Run(AfterTwice(capacity, j), rest)
    ensures NoLeaks(Initial(capacity, 16), TwiceThen(j, rest)) ==> NoLeaks(AfterTwice(capacity, j), rest)
  {
    var d0 := Initial(capacity, 16);
    SmallInitial(capacity, j);
    WriteTwice(d0, j);
    WriteTwice(Step(d0, Twice(j)), j);
    Cons(Step(d0, Twice(j)), Twice(j), rest);
    Cons(d0, Twice(j), [Twice(j)] + rest);
  }

  /** The third write is accepted below the stale pointer, across the end of the zone. */
  lemma AcrossIsMapped(d: Device, j: nat)
    requires Small(d, j) && d.status[j].wp == 0x8_0010
    ensures MapInTable(d, Across(j).rq) && Map(d, Across(j).rq).mapped
    ensures Addressable(d, Across(j).rq) && ZoneOf(d, Across(j).rq.lba) == j
    ensures OffsetOf(d, Across(j).rq.lba) + 16 == 0x8_0008 && d.Z() == SMALL_ZONE
  {
    SmallAddress(d, j, 0x7_FFF8, 16);
    StrictMap(d, Across(j).rq);
  }

  /** Three accepted writes from initialisation put data into the first sequential zone without
      moving its write pointer. */
  lemma LeakIsReachable(capacity: nat)
    requires SmallCapacity(capacity)
    ensures
      var d0, run := Initial(capacity, 16), TwiceThen(0, [Across(0)]);
      IoRun(d0, run) && !NoLeaks(d0, run)
  {
    AcrossLeaks(AfterTwice(capacity, 0));
    TwiceRuns(capacity, 0, [Across(0)]);
  }

  lemma AcrossLeaks(d: Device)
    requires Small(d, 0) && d.IsSeq(1) && d.status[0].wp == 0x8_0010
    ensures Runs(d, [Across(0)]) && !NoLeaks(d, [Across(0)])
  {
    AcrossIsMapped(d, 0);
    Cons(d, Across(0), []);
    assert [Across(0)] + [] == [Across(0)];
  }

  // ------------------------------------------------------ runs that cannot leak

  function EndOf(op: Op): nat
    requires op.Io?
  {
    op.rq.lba + op.rq.sectors
  }

  function EndsAfter(op: Op, ends: set<nat>): set<nat> {
    if op.IsWrite() then ends + {EndOf(op)} else ends
  }

  /** No write that is not empty ends where an earlier write of the run ended: a condition on the
      requests alone. */
  predicate DistinctEnds(ops: seq<Op>, ends: set<nat>)
    decreases |ops|
  {
    ops != [] ==>
      && (ops[0].IsWrite() && ops[0].rq.sectors > 0 ==> EndOf(ops[0]) !in ends)
      && DistinctEnds(ops[1..], EndsAfter(ops[0], ends))
  }

  /** A conventional pointer stands at an end of its zone, which begins at sector `base`, or where some
      write has ended. */
  predicate PointerKnown(s: ZoneStatus, z: nat, base: nat, ends: set<nat>) {
    s.ztype.Conventional? ==> s.wp <= z && (s.wp == 0 || s.wp == z || base + s.wp in ends)
  }

  predicate PointersKnown(d: Device, ends: set<nat>)
    requires d.Valid()
  {
    forall i :: 0 <= i < d.N() ==> PointerKnown(d.status[i], d.Z(), ZoneStart(d.Z(), i), ends)
  }

  /** Zone `i` begins at sector `base` and zone `k` at sector `at`. */
  predicate Starts(z: nat, i: nat, base: nat, k: nat, at: nat) {
    (k == i ==> at == base) && (k == i + 1 ==> at == base + z)
  }

  /** Where the pointer of zone `k` stands after an accepted write to zone `i`. */
  lemma KnownWp(d: Device, i: nat, off: nat, n: nat, k: nat, base: nat, at: nat, ends: set<nat>)
    requires d.Valid() && i < |d.status| && k < |d.status| && d.IsConv(i) && d.IsConv(k)
    requires off < d.Z() && off + n <= 2 * d.Z() && Starts(d.Z(), i, base, k, at)
    requires PointerKnown(d.status[i], d.Z(), base, ends) && PointerKnown(d.status[k], d.Z(), at, ends)
    requires n > 0 ==> base + off + n !in ends
    ensures
      var wp := ConventionalWp(d, i, off, n, k);
      wp <= d.Z() && (wp == 0 || wp == d.Z() || at + wp in ends + {base + off + n})
  {
    ZoneSectorsBound(d.layout.zoneShift);
  }

  lemma AcceptedPointer(d: Device, rq: Request, r: MapResult, k: nat)
    requires StrictState(d) && StrictMapped(d, rq, r) && r.mapped && k < d.N()
    requires rq.dir.Write? && Addressable(d, rq) && d.IsConv(ZoneOf(d, rq.lba))
    ensures |r.device.status| == |d.status| && r.device.status[k].ztype == d.status[k].ztype
    ensures d.IsConv(k) ==>
      r.device.status[k].wp == ConventionalWp(d, ZoneOf(d, rq.lba), OffsetOf(d, rq.lba), rq.sectors, k)
  {}

  /** The pointer of zone `k` of the table afterwards, `s` being its entry there. */
  lemma ConventionalKnown(d: Device, i: nat, off: nat, n: nat, k: nat, base: nat, at: nat, s: ZoneStatus,
                          ends: set<nat>)
    requires d.Valid() && i < |d.status| && k < |d.status| && d.IsConv(i)
    requires off < d.Z() && off + n <= 2 * d.Z() && Starts(d.Z(), i, base, k, at)
    requires PointerKnown(d.status[i], d.Z(), base, ends) && PointerKnown(d.status[k], d.Z(), at, ends)
    requires n > 0 ==> base + off + n !in ends
    requires s.ztype == d.status[k].ztype
    requires d.IsConv(k) ==> s.wp == ConventionalWp(d, i, off, n, k)
    ensures PointerKnown(s, d.Z(), at, ends + {base + off + n})
  {
    if d.IsConv(k) {
      KnownWp(d, i, off, n, k, base, at, ends);
    }
  }

  lemma AcceptedKnown(d: Device, rq: Request, r: MapResult, ends: set<nat>, k: nat)
    requires StrictState(d) && PointersKnown(d, ends) && StrictMapped(d, rq, r) && r.mapped && k < d.N()
    requires rq.dir.Write? && Addressable(d, rq) && d.IsConv(ZoneOf(d, rq.lba))
    requires rq.sectors > 0 ==> rq.lba + rq.sectors !in ends
    ensures |r.device.status| == |d.status|
    ensures PointerKnown(r.device.status[k], d.Z(), ZoneStart(d.Z(), k), ends + {rq.lba + rq.sectors})
  {
    AcceptedPointer(d, rq, r, k);
    RequestStart(d, rq);
    var i: nat := ZoneOf(d, rq.lba);
    assert PointerKnown(d.status[i], d.Z(), ZoneStart(d.Z(), i), ends);
    assert PointerKnown(d.status[k], d.Z(), ZoneStart(d.Z(), k), ends);
    ConventionalKnown(d, i, OffsetOf(d, rq.lba), rq.sectors, k, ZoneStart(d.Z(), i), ZoneStart(d.Z(), k),
                      r.device.status[k], ends);
  }

  lemma RequestStart(d: Device, rq: Request)
    requires d.Valid() && Addressable(d, rq)
    ensures rq.lba == ZoneStart(d.Z(), ZoneOf(d, rq.lba)) + OffsetOf(d, rq.lba)
    ensures OffsetOf(d, rq.lba) < d.Z() && OffsetOf(d, rq.lba) + rq.sectors <= 2 * d.Z()
  {
    AddressableOffset(d, rq);
    ZoneStartIs(d.Z(), ZoneOf(d, rq.lba));
  }

  lemma KnownStep(d: Device, op: Op, ends: set<nat>)
    requires StrictState(d) && Enabled(d, op) && op.KeepsConfig() && PointersKnown(d, ends)
    requires op.IsWrite() && op.rq.sectors > 0 ==> EndOf(op) !in ends
    ensures StrictState(Step(d, op)) && PointersKnown(Step(d, op), EndsAfter(op, ends))
    ensures !LeakOp(d, op)
  {
    StrictStep(d, op);
    if op.Io? { IoKnown(d, op.rq, ends); } else { OtherStepKnown(d, op, ends); }
  }

  lemma OtherStepKnown(d: Device, op: Op, ends: set<nat>)
    requires d.Valid() && !op.Io? && Enabled(d, op) && op.KeepsConfig() && PointersKnown(d, ends)
    ensures PointersKnown(Step(d, op), ends)
  {
    var r := Step(d, op);
    forall k | 0 <= k < r.N()
      ensures PointerKnown(r.status[k], r.Z(), ZoneStart(r.Z(), k), ends)
    {
      assert PointerKnown(d.status[k], d.Z(), ZoneStart(d.Z(), k), ends);
    }
  }

  lemma IoKnown(d: Device, rq: Request, ends: set<nat>)
    requires StrictState(d) && MapInTable(d, rq) && PointersKnown(d, ends)
    requires rq.dir.Write? && rq.sectors > 0 ==> rq.lba + rq.sectors !in ends
    ensures StrictState(Map(d, rq).device) && PointersKnown(Map(d, rq).device, EndsAfter(Io(rq), ends))
    ensures !Leak(d, rq)
  {
    var r := Map(d, rq);
    StrictMap(d, rq);
    StrictMapState(d, rq, r);
    forall k | 0 <= k < d.N()
      ensures PointerKnown(r.device.status[k], d.Z(), ZoneStart(d.Z(), k), EndsAfter(Io(rq), ends))
    {
      KnownAfter(d, rq, r, ends, k);
    }
    NoStalePointer(d, rq, ends);
  }

  lemma KnownAfter(d: Device, rq: Request, r: MapResult, ends: set<nat>, k: nat)
    requires StrictState(d) && PointersKnown(d, ends) && k < d.N()
    requires StrictMapped(d, rq, r) && SameLayout(d, r.device)
    requires rq.dir.Write? && rq.sectors > 0 ==> rq.lba + rq.sectors !in ends
    ensures PointerKnown(r.device.status[k], d.Z(), ZoneStart(d.Z(), k), EndsAfter(Io(rq), ends))
  {
    assert PointerKnown(d.status[k], d.Z(), ZoneStart(d.Z(), k), ends);
    if rq.dir.Write? && r.mapped && Addressable(d, rq) && d.IsConv(ZoneOf(d, rq.lba)) {
      AcceptedKnown(d, rq, r, ends, k);
    } else if d.IsConv(k) {
      OthersKept(d, rq, r, k);
    }
  }

  lemma NoStalePointer(d: Device, rq: Request, ends: set<nat>)
    requires d.Valid() && PointersKnown(d, ends)
    ensures !Leak(d, rq)
  {
    if Addressable(d, rq) {
      assert PointerKnown(d.status[ZoneOf(d, rq.lba)], d.Z(), ZoneStart(d.Z(), ZoneOf(d, rq.lba)), ends);
    }
  }

  /** Only an accepted conventional write moves the pointer of a conventional zone. */
  lemma OthersKept(d: Device, rq: Request, r: MapResult, k: nat)
    requires StrictState(d) && StrictMapped(d, rq, r) && k < d.N() && d.IsConv(k)
    requires !(rq.dir.Write? && r.mapped && Addressable(d, rq) && d.IsConv(ZoneOf(d, rq.lba)))
    ensures |r.device.status| == |d.status| && r.device.status[k] == d.status[k]
  {
    if Addressable(d, rq) {
      AddressableOffset(d, rq);
      assert ZoneOk(d.status[ZoneOf(d, rq.lba)], d.Z());
    }
  }

  lemma {:induction false} KnownRun(d: Device, ops: seq<Op>, ends: set<nat>)
    requires StrictState(d) && IoRun(d, ops) && PointersKnown(d, ends) && DistinctEnds(ops, ends)
    ensures NoLeaks(d, ops)
    decreases |ops|
  {
    if ops == [] {
    } else {
      KnownStep(d, ops[0], ends);
      KnownRun(Step(d, ops[0]), ops[1..], EndsAfter(ops[0], ends));
    }
  }

  /** A run whose writes end at different sectors does not leak. */
  lemma DistinctEndsNeverLeak(capacity: nat, shift: nat, ops: seq<Op>)
    requires capacity <= MAX_CAPACITY && shift <= ZONE_SIZE_SHIFT_MAX
    requires IoRun(Initial(capacity, shift), ops) && DistinctEnds(ops, {})
    ensures NoLeaks(Initial(capacity, shift), ops)
  {
    StrictInitial(capacity, shift);
    KnownRun(Initial(capacity, shift), ops, {});
  }
}
