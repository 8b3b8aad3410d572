/** Where the persisted state lies on the disk, and which requests reach it. */
module PersistenceArea {
  import opened Geometry
  import opened ZoneTypes
  import opened ZoneRules
  import opened Operations
  import opened StrictRules
  import opened StrictRuns
  import opened ConfigRuns
  import opened Leaks
  import opened Persistence
  import opened StateImage

  /** Sectors in a zone of the default size. */
  const DEFAULT_ZONE: nat := 0x8_0000

  /** Where the persisted state begins: the default zone count shifted in 32 bits. */
  function PstoreLba(d: Device): u32 {
    Wrap32(d.layout.defaultZones * DEFAULT_ZONE)
  }

  /** First sector of a page of the persisted state, on the underlying disk. */
  function PageSector(d: Device, page: nat): nat { PstoreLba(d) + 8 * page }

  /** The pages a save writes; a flush writes page 0, one of them. */
  predicate SavedPage(d: Device, page: nat) { page < PagesFor(StateSize(|d.status|)) }

  /** The request covers a sector of the page: sectors of requests count from the start of the target
      on the underlying disk, sectors of pages from the start of that disk. */
  predicate OnPage(start: nat, d: Device, rq: Request, page: nat) {
    && rq.sectors > 0
    && start + rq.lba < PageSector(d, page) + 8
    && PageSector(d, page) < start + rq.lba + rq.sectors
  }

  // -------------------------------------------------------------- placement

  /** The capacity has a 32-bit address and, if zones are smaller than by default, no whole zone past
      its last default zone. */
  predicate ZonesClear(capacity: nat, z: nat) {
    capacity < TWO32 && (z >= DEFAULT_ZONE || capacity % DEFAULT_ZONE < z)
  }

  lemma {:induction false} Pow2Sum(j: nat, k: nat)
    ensures Pow2(j + k) == Pow2(j) * Pow2(k)
  {
    if j == 0 {
    } else {
      Pow2Sum(j - 1, k);
      assert 2 * (Pow2(j - 1) * Pow2(k)) == Pow2(j) * Pow2(k);
    }
  }

  /** One of a zone size and the default zone size is a multiple of the other. */
  lemma SizesDivide(shift: nat) returns (m: nat)
    ensures if shift >= 16 then ZoneSectors(shift) == m * DEFAULT_ZONE && m >= 1
            else DEFAULT_ZONE == m * ZoneSectors(shift) && m >= 2
  {
    Pow2Values();
    if shift >= 16 {
      m := Pow2(shift - 16);
      Pow2Sum(shift - 16, 16);
    } else {
      m := Pow2(16 - shift);
      Pow2Sum(16 - shift, shift);
      Pow2Monotone(1, 16 - shift);
      EightTimes(m, Pow2(shift));
    }
  }

  /** Capacity `c` cut down to `x` whole small units and to `y` whole large ones: the first is never
      shorter, and it is no longer exactly when no small unit fits the remainder of the second. */
  lemma FineAgainstCoarse(c: nat, fine: nat, m: nat, coarse: nat, x: nat, y: nat)
    requires coarse == m * fine
    requires x * fine <= c < (x + 1) * fine && y * coarse <= c
    ensures y * coarse <= x * fine
    ensures x * fine <= y * coarse <==> c - y * coarse < fine
  {
    var u := y * m;
    MulAssociates(y, m, fine);
    Successor(x, fine);
    Successor(u, fine);
    if x < u {
      MulMonotone(x + 1, u, fine);
    } else if x > u {
      MulMonotone(u + 1, x, fine);
    }
  }

  lemma MulAssociates(a: nat, b: nat, z: nat)
    ensures (a * b) * z == a * (b * z)
  {}

  /** The zones end at or below the persisted state if and only if the capacity is clear in that
      sense; from 2^32 sectors on they never do. */
  lemma AreaBehindZonesIff(d: Device)
    requires TableShape(d) && |d.status| == d.N() as nat
    ensures d.N() * d.Z() <= PstoreLba(d) <==> ZonesClear(d.layout.capacity, d.Z())
  {
    var c := d.layout.capacity;
    DefaultZoneSectors();
    ZoneCountBounds(c, ZONE_SIZE_SHIFT_DEFAULT);
    ZoneCountBounds(c, d.layout.zoneShift);
    ZoneSectorsBound(d.layout.zoneShift);
    if c < TWO32 {
      ZonesOfTwoSizes(c, d.layout.zoneShift, d.N(), d.layout.defaultZones);
    } else {
      BeyondThirtyTwoBits(c, d.Z(), d.N(), d.layout.defaultZones);
    }
  }

  lemma ZoneCountBounds(capacity: nat, shift: nat)
    requires capacity <= MAX_CAPACITY
    ensures
      var n, z := ZonesFor(capacity, shift), ZoneSectors(shift);
      n * z <= capacity < (n + 1) * z
  {
    ZoneCountExact(capacity, shift);
    ShiftIsDivision(capacity, shift);
    QuotientBounds(capacity, ZoneSectors(shift));
  }

  /** With `x` whole zones of the given size in the capacity, and `y` of the default size. */
  lemma ZonesOfTwoSizes(c: nat, shift: nat, x: nat, y: nat)
    requires c < TWO32 && x * ZoneSectors(shift) <= c < (x + 1) * ZoneSectors(shift)
    requires y * DEFAULT_ZONE <= c < (y + 1) * DEFAULT_ZONE
    ensures x * ZoneSectors(shift) <= y * DEFAULT_ZONE <==> ZonesClear(c, ZoneSectors(shift))
  {
    var m := SizesDivide(shift);
    if shift >= 16 {
      LargerZones(c, ZoneSectors(shift), m, x, y);
    } else {
      SmallerZones(c, ZoneSectors(shift), m, x, y);
    }
  }

  lemma LargerZones(c: nat, z: nat, m: nat, x: nat, y: nat)
    requires z == m * DEFAULT_ZONE && m >= 1
    requires x * z <= c && y * DEFAULT_ZONE <= c < (y + 1) * DEFAULT_ZONE
    ensures x * z <= y * DEFAULT_ZONE && z >= DEFAULT_ZONE
  {
    FineAgainstCoarse(c, DEFAULT_ZONE, m, z, y, x);
  }

  lemma SmallerZones(c: nat, z: nat, m: nat, x: nat, y: nat)
    requires DEFAULT_ZONE == m * z && m >= 2 && z >= 1
    requires x * z <= c < (x + 1) * z && y * DEFAULT_ZONE <= c < (y + 1) * DEFAULT_ZONE
    ensures z < DEFAULT_ZONE
    ensures x * z <= y * DEFAULT_ZONE <==> c % DEFAULT_ZONE < z
  {
    FineAgainstCoarse(c, z, m, DEFAULT_ZONE, x, y);
    MulMonotone(2, m, z);
    QuotientUnique(c, DEFAULT_ZONE, y);
  }

  /** The 32-bit address loses at least 2^32, the last incomplete zone less than half of that. */
  lemma BeyondThirtyTwoBits(c: nat, z: nat, x: nat, y: nat)
    requires c >= TWO32 && 0 < z <= 0x8000_0000 && x * z <= c < (x + 1) * z
    requires y * DEFAULT_ZONE <= c < (y + 1) * DEFAULT_ZONE
    ensures Wrap32(y * DEFAULT_ZONE) < x * z
  {
    Successor(x, z);
  }

  // ------------------------------------------------------- what strict runs write

  /** The end of the sectors that strict runs can write: the end of the zones, unless the last zone is
      conventional; then a stale pointer lets writes go on for almost another zone, up to the end of
      the capacity. */
  function UserEnd(capacity: nat, shift: nat): nat {
    var n, z := ZonesFor(capacity, shift), ZoneSectors(shift);
    var top := ZoneStart(z, n);
    if n < 2 then top else if capacity < top + z - 3 then capacity else top + z - 3
  }

  lemma TopOfZones(capacity: nat, shift: nat)
    requires capacity <= MAX_CAPACITY
    ensures
      var n, z := ZonesFor(capacity, shift), ZoneSectors(shift);
      var top := ZoneStart(z, n);
      top == n * z && top <= capacity < top + z && top % 8 == 0
  {
    ZoneCountBounds(capacity, shift);
    ZoneStartIs(ZoneSectors(shift), ZonesFor(capacity, shift));
    ZoneStartInBlocks(ZoneSectors(shift), ZonesFor(capacity, shift));
    Successor(ZonesFor(capacity, shift), ZoneSectors(shift));
  }

  /** After a strict run a write inside the capacity is mapped. */
  predicate StrictWrite(capacity: nat, shift: nat, ops: seq<Op>, rq: Request)
    requires capacity <= MAX_CAPACITY && shift <= ZONE_SIZE_SHIFT_MAX
  {
    && IoRun(Initial(capacity, shift), ops)
    && rq.dir.Write?
    && rq.lba + rq.sectors <= capacity
    && var d := Run(Initial(capacity, shift), ops);
      MapInTable(d, rq) && Map(d, rq).mapped
  }

  /** The pointers of conventional zones do not get far past the end. */
  predicate NearlyTwice(s: ZoneStatus, z: nat) { s.ztype.Conventional? ==> s.wp <= 2 * z - 2 }

  predicate PointersNearlyTwice(d: Device)
    requires d.Valid()
  {
    forall i :: 0 <= i < d.N() ==> NearlyTwice(d.status[i], d.Z())
  }

  lemma NearlyTwiceWp(d: Device, i: nat, off: nat, n: nat, k: nat)
    requires d.Valid() && i < |d.status| && k < |d.status| && d.IsConv(i) && d.IsConv(k)
    requires off < d.Z() && off + n <= 2 * d.Z()
    requires NearlyTwice(d.status[i], d.Z()) && NearlyTwice(d.status[k], d.Z())
    ensures ConventionalWp(d, i, off, n, k) <= 2 * d.Z() - 2
  {
    ZoneSectorsBound(d.layout.zoneShift);
  }

  lemma NearlyTwiceIo(d: Device, rq: Request, r: MapResult, k: nat)
    requires StrictState(d) && PointersNearlyTwice(d) && k < d.N()
    requires StrictMapped(d, rq, r) && SameLayout(d, r.device)
    ensures NearlyTwice(r.device.status[k], d.Z())
  {
    assert NearlyTwice(d.status[k], d.Z());
    if rq.dir.Write? && r.mapped && Addressable(d, rq) && d.IsConv(ZoneOf(d, rq.lba)) {
      assert NearlyTwice(d.status[ZoneOf(d, rq.lba)], d.Z());
      AddressableOffset(d, rq);
      AcceptedPointer(d, rq, r, k);
      if d.IsConv(k) { NearlyTwiceWp(d, ZoneOf(d, rq.lba), OffsetOf(d, rq.lba), rq.sectors, k); }
    } else if d.IsConv(k) {
      OthersKept(d, rq, r, k);
    }
  }

  lemma NearlyTwiceStep(d: Device, op: Op)
    requires StrictState(d) && PointersNearlyTwice(d) && Enabled(d, op) && op.KeepsConfig()
    ensures StrictState(Step(d, op)) && PointersNearlyTwice(Step(d, op))
  {
    StrictStep(d, op);
    var r := Step(d, op);
    if op.Io? { StrictMap(d, op.rq); }
    forall k | 0 <= k < r.N()
      ensures NearlyTwice(r.status[k], r.Z())
    {
      assert NearlyTwice(d.status[k], d.Z());
      if op.Io? { NearlyTwiceIo(d, op.rq, Map(d, op.rq), k); }
    }
  }

  lemma {:induction false} NearlyTwiceRun(d: Device, ops: seq<Op>)
    requires StrictState(d) && PointersNearlyTwice(d) && IoRun(d, ops)
    ensures PointersNearlyTwice(Run(d, ops))
    decreases |ops|
  {
    if ops == [] {
    } else {
      NearlyTwiceStep(d, ops[0]);
      NearlyTwiceRun(Step(d, ops[0]), ops[1..]);
    }
  }

  /** Over every strict run a mapped request inside the capacity ends by that end, and with the largest
      zones it is empty. */
  lemma MappedEndsByUserEnd(capacity: nat, shift: nat, ops: seq<Op>, rq: Request)
    requires capacity <= MAX_CAPACITY && shift <= ZONE_SIZE_SHIFT_MAX
    requires IoRun(Initial(capacity, shift), ops) && rq.lba + rq.sectors <= capacity
    requires
      var d := Run(Initial(capacity, shift), ops);
      MapInTable(d, rq) && Map(d, rq).mapped
    ensures rq.lba + rq.sectors <= UserEnd(capacity, shift)
    ensures shift == ZONE_SIZE_SHIFT_MAX ==> rq.sectors == 0
  {
    var d0 := Initial(capacity, shift);
    var d := Run(d0, ops);
    StrictInitial(capacity, shift);
    StrictRun(d0, ops);
    NearlyTwiceRun(d0, ops);
    SpareReservedRun(d0, ops);
    MappedEndsInsideZones(d, rq);
    StrictMap(d, rq);
    if shift == ZONE_SIZE_SHIFT_MAX { LargestZonesPassNothing(d, rq); }
    TopOfZones(capacity, shift);
    if Overrun(d, rq) {
      OverrunEnd(d, rq);
      assert d0.IsConv(d0.N() - 1);
    }
  }

  lemma OverrunEnd(d: Device, rq: Request)
    requires d.Valid() && PointersNearlyTwice(d) && Overrun(d, rq)
    ensures rq.lba + rq.sectors <= ZoneStart(d.Z(), d.N()) + d.Z() - 3
  {
    RequestStart(d, rq);
    assert NearlyTwice(d.status[ZoneOf(d, rq.lba)], d.Z());
  }

  /** Where a request lies that starts in conventional zone `j`. */
  lemma InsideConventional(d: Device, j: nat, off: nat, n: nat)
    requires StrictState(d) && d.layout.zoneShift < ZONE_SIZE_SHIFT_MAX
    requires j < d.N() && d.IsConv(j) && off < d.Z() && off + n <= 2 * d.Z()
    ensures
      var rq := Request(Write, ZoneStart(d.Z(), j) + off, n);
      && ZoneOf(d, rq.lba) == j && OffsetOf(d, rq.lba) == off
      && Addressable(d, rq) && Writable(d, j, off)
    ensures d.Z() <= 0x4000_0000
  {
    ZoneStartIs(d.Z(), j);
    AddressOf(d, j, off);
    NotLargest(d.layout.zoneShift);
    assert ZoneOk(d.status[j], d.Z());
  }

  /** A write of all but the last sector of zone `j`. */
  function AllButOne(d: Device, j: nat): Op {
    Io(Request(Write, ZoneStart(d.Z(), j), d.Z() - 1))
  }

  /** Made twice, it leaves the pointer almost twice the zone size past the start of the zone. */
  lemma AlmostFull(d: Device, j: nat)
    requires StrictState(d) && d.layout.zoneShift < ZONE_SIZE_SHIFT_MAX
    requires j < d.N() && d.IsConv(j) && d.status[j].wp in {0, d.Z() - 1}
    ensures
      var op := AllButOne(d, j);
      && Enabled(d, op) && op.KeepsConfig()
      && StrictState(Step(d, op)) && SameLayout(d, Step(d, op))
      && Step(d, op).status[j].wp == if d.status[j].wp == 0 then d.Z() - 1 else 2 * d.Z() - 2
  {
    var op := AllButOne(d, j);
    InsideConventional(d, j, 0, d.Z() - 1);
    StrictMap(d, op.rq);
    StrictStep(d, op);
    assert Step(d, op).status[j].wp == ConventionalWp(d, j, 0, d.Z() - 1, j);
  }

  /** A write from the last sector of the zone on is then accepted across the end of the zone. */
  lemma BelowStalePointer(d: Device, j: nat, n: nat)
    requires StrictState(d) && d.layout.zoneShift < ZONE_SIZE_SHIFT_MAX
    requires j < d.N() && d.IsConv(j) && d.status[j].wp == 2 * d.Z() - 2 && 1 < n < d.Z() - 1
    ensures
      var rq := Request(Write, ZoneStart(d.Z(), j) + d.Z() - 1, n);
      MapInTable(d, rq) && Map(d, rq).mapped
  {
    var rq := Request(Write, ZoneStart(d.Z(), j) + d.Z() - 1, n);
    InsideConventional(d, j, d.Z() - 1, n);
    assert MapInTable(d, rq);
    StrictMap(d, rq);
    assert ConventionalOutcome(d, j, d.Z() - 1, n, Map(d, rq).device, Map(d, rq).mapped);
  }

  lemma StaleRun(d: Device, j: nat) returns (ops: seq<Op>)
    requires StrictState(d) && d.layout.zoneShift < ZONE_SIZE_SHIFT_MAX
    requires j < d.N() && d.IsConv(j) && d.status[j].wp == 0
    ensures IoRun(d, ops) && StrictState(Run(d, ops)) && SameLayout(d, Run(d, ops))
    ensures Run(d, ops).status[j].wp == 2 * d.Z() - 2
  {
    var op := AllButOne(d, j);
    AlmostFull(d, j);
    var d1 := Step(d, op);
    assert AllButOne(d1, j) == op;
    AlmostFull(d1, j);
    Cons(d1, op, []);
    Cons(d, op, [op] + []);
    ops := [op] + ([op] + []);
  }

  /** A run and a write after it that cover sector `s`. */
  lemma ReachSector(capacity: nat, shift: nat, s: nat) returns (ops: seq<Op>, rq: Request)
    requires capacity <= MAX_CAPACITY && shift < ZONE_SIZE_SHIFT_MAX && s < UserEnd(capacity, shift)
    ensures StrictWrite(capacity, shift, ops, rq) && Covers(rq, s)
  {
    var d := Initial(capacity, shift);
    StrictInitial(capacity, shift);
    TopOfZones(capacity, shift);
    if s < ZoneStart(d.Z(), d.N()) {
      ops := [];
      rq := FirstWrite(d, s);
    } else {
      ops, rq := ReachBehind(d, s);
    }
  }

  /** A run and a write after it that cover a sector behind the last zone, a conventional one. */
  lemma ReachBehind(d: Device, s: nat) returns (ops: seq<Op>, rq: Request)
    requires StrictState(d) && d.layout.zoneShift < ZONE_SIZE_SHIFT_MAX
    requires d.N() >= 1 && d.IsConv(d.N() - 1) && d.status[d.N() - 1].wp == 0
    requires ZoneStart(d.Z(), d.N()) <= s < ZoneStart(d.Z(), d.N()) + d.Z() - 3
    ensures IoRun(d, ops) && rq.dir.Write? && Covers(rq, s) && rq.lba + rq.sectors == s + 1
    ensures MapInTable(Run(d, ops), rq) && Map(Run(d, ops), rq).mapped
  {
    var j: nat := d.N() - 1;
    var from := ZoneStart(d.Z(), j) + d.Z() - 1;
    ops := StaleRun(d, j);
    rq := Request(Write, from, s + 1 - from);
    BelowStalePointer(Run(d, ops), j, s + 1 - from);
  }

  /** A write from the start of an empty zone through sector `s`. */
  lemma FirstWrite(d: Device, s: nat) returns (rq: Request)
    requires StrictState(d) && d.layout.zoneShift < ZONE_SIZE_SHIFT_MAX && s < ZoneStart(d.Z(), d.N())
    requires forall j :: 0 <= j < d.N() ==> d.status[j].wp == 0
    ensures rq.dir.Write? && Covers(rq, s) && rq.lba + rq.sectors <= ZoneStart(d.Z(), d.N())
    ensures MapInTable(d, rq) && Map(d, rq).mapped
  {
    var j := ZoneOfSector(d.Z(), d.N(), s);
    var n := (s - ZoneStart(d.Z(), j)) / 8 * 8 + 8;
    ZoneStartsApart(d.Z(), j, d.N());
    ZoneStartIs(d.Z(), j);
    WriteFromStart(d, j, n);
    rq := Request(Write, ZoneStart(d.Z(), j), n);
  }

  /** The sectors that strict runs can write, exactly. */
  lemma WrittenSectorIff(capacity: nat, shift: nat, s: nat)
    requires capacity <= MAX_CAPACITY && shift <= ZONE_SIZE_SHIFT_MAX
    ensures (exists ops, rq :: StrictWrite(capacity, shift, ops, rq) && Covers(rq, s)) <==>
            shift < ZONE_SIZE_SHIFT_MAX && s < UserEnd(capacity, shift)
  {
    if shift < ZONE_SIZE_SHIFT_MAX && s < UserEnd(capacity, shift) {
      var ops, rq := ReachSector(capacity, shift, s);
    }
    forall ops, rq | StrictWrite(capacity, shift, ops, rq) && Covers(rq, s)
      ensures shift < ZONE_SIZE_SHIFT_MAX && s < UserEnd(capacity, shift)
    {
      MappedEndsByUserEnd(capacity, shift, ops, rq);
    }
  }

  // ------------------------------------------------------------ overwritten pages

  /** For a target that starts at any sector of the disk: some strict run followed by a write puts user
      data on a page of the persisted state if and only if the page and the sectors that strict runs
      can write have a sector of the disk in common. */
  lemma PageOverwrittenIff(capacity: nat, shift: nat, start: nat, page: nat)
    requires capacity <= MAX_CAPACITY && shift <= ZONE_SIZE_SHIFT_MAX
    ensures
      var d, end := Initial(capacity, shift), UserEnd(capacity, shift);
      (exists ops, rq :: StrictWrite(capacity, shift, ops, rq) && OnPage(start, d, rq, page)) <==>
      && shift < ZONE_SIZE_SHIFT_MAX && end > 0
      && start < PageSector(d, page) + 8 && PageSector(d, page) < start + end
  {
    var d, end := Initial(capacity, shift), UserEnd(capacity, shift);
    var p := PageSector(d, page);
    if shift < ZONE_SIZE_SHIFT_MAX && end > 0 && start < p + 8 && p < start + end {
      var ops, rq := ReachSector(capacity, shift, if start < p then p - start else 0);
      assert OnPage(start, d, rq, page);
    }
    forall ops, rq | StrictWrite(capacity, shift, ops, rq) && OnPage(start, d, rq, page)
      ensures shift < ZONE_SIZE_SHIFT_MAX && end > 0 && start < p + 8 && p < start + end
    {
      MappedEndsByUserEnd(capacity, shift, ops, rq);
    }
  }

  /** The disk holds the persisted state and the sectors that strict runs can write apart. */
  predicate Apart(capacity: nat, shift: nat, start: nat)
    requires capacity <= MAX_CAPACITY && shift <= ZONE_SIZE_SHIFT_MAX
  {
    var d := Initial(capacity, shift);
    || start + UserEnd(capacity, shift) <= PstoreLba(d)
    || PstoreLba(d) + 8 * PagesFor(StateSize(|d.status|)) <= start
  }

  /** No page that a save or a flush writes is ever overwritten, over all strict runs, if and only if
      the two are apart, or no write but an empty one is ever mapped. */
  lemma PersistedStateSafeIff(capacity: nat, shift: nat, start: nat)
    requires capacity <= MAX_CAPACITY && shift <= ZONE_SIZE_SHIFT_MAX
    ensures
      var d := Initial(capacity, shift);
      (forall ops, rq, page ::
         StrictWrite(capacity, shift, ops, rq) && SavedPage(d, page) ==> !OnPage(start, d, rq, page)) <==>
      shift == ZONE_SIZE_SHIFT_MAX || UserEnd(capacity, shift) == 0 || Apart(capacity, shift, start)
  {
    var d, end := Initial(capacity, shift), UserEnd(capacity, shift);
    if !(shift == ZONE_SIZE_SHIFT_MAX || end == 0 || Apart(capacity, shift, start)) {
      var p: nat := PstoreLba(d);
      var page := if start < p then 0 else (start - p) / 8;
      assert SavedPage(d, page);
      PageOverwrittenIff(capacity, shift, start, page);
      var ops, rq :| StrictWrite(capacity, shift, ops, rq) && OnPage(start, d, rq, page);
    } else {
      forall ops, rq, page | StrictWrite(capacity, shift, ops, rq) && SavedPage(d, page)
        ensures !OnPage(start, d, rq, page)
      {
        MappedEndsByUserEnd(capacity, shift, ops, rq);
      }
    }
  }

  /** A target at the start of the disk keeps them apart exactly when its zones are clear of the
      persisted state and no overrun can reach it: the last zone is sequential, or the capacity is made
      of whole default zones. */
  lemma ApartAtStartZeroIff(capacity: nat, shift: nat)
    requires capacity <= MAX_CAPACITY && shift <= ZONE_SIZE_SHIFT_MAX
    ensures
      var d := Initial(capacity, shift);
      UserEnd(capacity, shift) <= PstoreLba(d) <==>
      ZonesClear(capacity, ZoneSectors(shift)) && (d.N() < 2 || capacity % DEFAULT_ZONE == 0)
  {
    var d := Initial(capacity, shift);
    InitialShape(capacity, shift);
    AreaBehindZonesIff(d);
    TopOfZones(capacity, shift);
    TopOfZones(capacity, ZONE_SIZE_SHIFT_DEFAULT);
    DefaultZoneSectors();
    ZoneStartIs(DEFAULT_ZONE, d.layout.defaultZones);
    PstoreInBlocks(d);
    UserEndAgainst(capacity, d.N(), d.Z(), ZoneStart(d.Z(), d.N()), PstoreLba(d), d.layout.defaultZones);
  }

  lemma PstoreInBlocks(d: Device)
    ensures PstoreLba(d) % 8 == 0
  {}

  /** With `n` zones of the given size, which end at `top`, and `m` of the default size. */
  lemma UserEndAgainst(capacity: nat, n: nat, z: nat, top: nat, p: nat, m: nat)
    requires top <= capacity < top + z && top % 8 == 0 && z % 8 == 0 && z >= 8
    requires m * DEFAULT_ZONE <= capacity < m * DEFAULT_ZONE + DEFAULT_ZONE
    requires p == Wrap32(m * DEFAULT_ZONE) && p % 8 == 0
    requires top <= p <==> ZonesClear(capacity, z)
    ensures
      (if n < 2 then top else if capacity < top + z - 3 then capacity else top + z - 3) <= p <==>
      ZonesClear(capacity, z) && (n < 2 || capacity % DEFAULT_ZONE == 0)
  {
    WholeDefaultZones(capacity, m);
    if n >= 2 && ZonesClear(capacity, z) {
      assert p == m * DEFAULT_ZONE <= capacity;
      BlocksApart(p, top + z);
    }
  }

  lemma WholeDefaultZones(capacity: nat, m: nat)
    requires m * DEFAULT_ZONE <= capacity < m * DEFAULT_ZONE + DEFAULT_ZONE
    ensures capacity % DEFAULT_ZONE == 0 <==> capacity == m * DEFAULT_ZONE
  {
    QuotientUnique(capacity, DEFAULT_ZONE, m);
  }

  /** Two multiples of the block that differ are a block apart. */
  lemma BlocksApart(p: nat, q: nat)
    requires p % 8 == 0 && q % 8 == 0 && p < q
    ensures p + 8 <= q
  {}
}
