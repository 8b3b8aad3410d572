/** Zone queries: what each criterion returns, and how that agrees with what writes are accepted. */
module Query {
  import opened Geometry
  import opened ZoneTypes
  import opened ZoneRules
  import opened Operations
  import opened StrictRules
  import opened StrictTotals
  import opened Permissive
  import opened ConfigRuns

  const MATCH_ALL: int := 0
  const MATCH_FULL: int := -1
  const MATCH_NFULL: int := -2
  const MATCH_FREE: int := -3
  const MATCH_RNLY: int := -4
  const MATCH_OFFL: int := -5

  /** Subtraction of two 32-bit unsigned values. */
  function Minus32(a: u32, b: u32): u32 { if b <= a then a - b else a + TWO32 - b }

  /** Whether a zone of length `z` meets a criterion; a positive one asks for that many free sectors. */
  predicate Meets(s: ZoneStatus, z: u32, criterion: int) {
    if criterion > 0 then Minus32(z, s.wp) >= criterion
    else if criterion == MATCH_ALL then true
    else if criterion == MATCH_FULL then s.cond.Full?
    else if criterion == MATCH_NFULL then s.cond.Closed? && s.wp != 0
    else if criterion == MATCH_FREE then s.cond.Empty?
    else if criterion == MATCH_RNLY then s.cond.ReadOnly?
    else if criterion == MATCH_OFFL then s.cond.Offline?
    else false
  }

  /** The zones from `from` up to `to` that meet the criterion, in order. */
  function Found(s: seq<ZoneStatus>, z: u32, criterion: int, from: nat, upto: nat): (r: seq<ZoneStatus>)
    requires from <= upto <= |s|
    ensures |r| <= upto - from
    decreases upto
  {
    if from == upto then []
    else
      Found(s, z, criterion, from, upto - 1) + (if Meets(s[upto - 1], z, criterion) then [s[upto - 1]] else [])
  }

  function Take(s: seq<ZoneStatus>, n: nat): (r: seq<ZoneStatus>)
    ensures |r| == if n < |s| then n else |s|
    ensures r <= s
  {
    if n < |s| then s[..n] else s
  }

  /** The zones written to the caller's buffer and the number reported back. */
  datatype Answer = Refused | Answer(zones: seq<ZoneStatus>, reported: nat)

  /** The range test, in 32-bit arithmetic. */
  predicate QueryInRange(d: Device, lba: nat, count: u32) {
    count != 0 && Wrap32(count + ZoneOf(d, lba)) <= d.N()
  }

  function ZQ(d: Device): (z: u32)
    requires d.Valid()
    ensures z == d.Z()
  {
    ZoneSectorsBound(d.layout.zoneShift);
    d.Z()
  }

  /** The queries that copy a slice stay inside the live zones. Only a sum that wraps in the range
      test can lead them out; the scans for a negative criterion stay inside in any case. */
  predicate SliceInTable(d: Device, lba: nat, criterion: int, count: u32) {
    QueryInRange(d, lba, count) && criterion >= 0 ==> ZoneOf(d, lba) + count <= d.N()
  }

  function Least(a: nat, b: nat): nat { if a < b then a else b }

  /** The answer to a query in range that starts at zone `i`. */
  function AnswerFrom(d: Device, i: nat, criterion: int, count: nat): Answer
    requires d.Valid() && (criterion >= 0 ==> i + count <= d.N())
  {
    if criterion > 0 then
      var f := Found(d.status, ZQ(d), criterion, i, i + count);
      Answer(f, |f|)
    else if criterion == MATCH_ALL then Answer(d.status[i..i + count], count)
    else if MATCH_OFFL <= criterion then
      var f := Take(Found(d.status, ZQ(d), criterion, Least(i, d.N()), d.N()), count);
      Answer(f, |f|)
    else Answer([], count)
  }

  /** `smrsim_query_zones` */
  function Ask(d: Device, lba: nat, criterion: int, count: u32): Answer
    requires d.Valid() && SliceInTable(d, lba, criterion, count)
  {
    if QueryInRange(d, lba, count) then AnswerFrom(d, ZoneOf(d, lba), criterion, count) else Refused
  }

  /** The query answers and zone `i` is among the zones it returns. */
  predicate Returns(d: Device, lba: nat, criterion: int, count: u32, i: nat)
    requires d.Valid() && SliceInTable(d, lba, criterion, count) && i < |d.status|
  {
    var a := Ask(d, lba, criterion, count);
    a.Answer? && d.status[i] in a.zones
  }

  // ---------------------------------------------------- what is returned

  lemma {:induction false} FoundIsSound(s: seq<ZoneStatus>, z: u32, c: int, from: nat, upto: nat, j: nat)
    requires from <= upto <= |s| && forall k :: from <= k < upto ==> s[k].start == k
    requires j < |Found(s, z, c, from, upto)|
    ensures
      var e := Found(s, z, c, from, upto)[j];
      from <= e.start < upto && e == s[e.start] && Meets(e, z, c)
    decreases upto
  {
    if j == |Found(s, z, c, from, upto - 1)| {
    } else {
      FoundIsSound(s, z, c, from, upto - 1, j);
    }
  }

  lemma {:induction false} FoundAscends(s: seq<ZoneStatus>, z: u32, c: int, from: nat, upto: nat, j: nat, k: nat)
    requires from <= upto <= |s| && forall i :: from <= i < upto ==> s[i].start == i
    requires j < k < |Found(s, z, c, from, upto)|
    ensures Found(s, z, c, from, upto)[j].start < Found(s, z, c, from, upto)[k].start
    decreases upto
  {
    if k == |Found(s, z, c, from, upto - 1)| {
      FoundIsSound(s, z, c, from, upto - 1, j);
    } else {
      FoundAscends(s, z, c, from, upto - 1, j, k);
    }
  }

  lemma {:induction false} FoundIsComplete(s: seq<ZoneStatus>, z: u32, c: int, from: nat, upto: nat, i: nat)
    requires from <= i < upto <= |s| && Meets(s[i], z, c)
    ensures s[i] in Found(s, z, c, from, upto)
    decreases upto
  {
    if i == upto - 1 {
    } else {
      FoundIsComplete(s, z, c, from, upto - 1, i);
    }
  }

  /** The answer lists zones of the table that meet the criterion, in ascending order, and misses
      one from the start zone on only after `count` smaller ones. */
  ghost predicate FirstMatches(d: Device, zones: seq<ZoneStatus>, c: int, from: nat, upto: nat, count: nat)
    requires d.Valid() && upto <= d.N()
  {
    && |zones| <= count
    && (forall j :: 0 <= j < |zones| ==>
          from <= zones[j].start < upto && zones[j] == d.status[zones[j].start] && Meets(zones[j], ZQ(d), c))
    && (forall j, k :: 0 <= j < k < |zones| ==> zones[j].start < zones[k].start)
    && (forall i :: from <= i < upto && Meets(d.status[i], ZQ(d), c) ==>
          d.status[i] in zones || (|zones| == count && forall j :: 0 <= j < |zones| ==> zones[j].start < i))
  }

  lemma FoundFirstMatches(d: Device, c: int, from: nat, upto: nat, count: nat)
    requires TableShape(d) && from <= upto <= d.N()
    ensures FirstMatches(d, Take(Found(d.status, ZQ(d), c, from, upto), count), c, from, upto, count)
  {
    var all := Found(d.status, ZQ(d), c, from, upto);
    var zones := Take(all, count);
    forall j | 0 <= j < |all|
      ensures from <= all[j].start < upto && all[j] == d.status[all[j].start] && Meets(all[j], ZQ(d), c)
    {
      FoundIsSound(d.status, ZQ(d), c, from, upto, j);
    }
    forall j, k | 0 <= j < k < |all|
      ensures all[j].start < all[k].start
    {
      FoundAscends(d.status, ZQ(d), c, from, upto, j, k);
    }
    forall i | from <= i < upto && Meets(d.status[i], ZQ(d), c)
      ensures d.status[i] in zones || (|zones| == count && forall j :: 0 <= j < |zones| ==> zones[j].start < i)
    {
      FoundIsComplete(d.status, ZQ(d), c, from, upto, i);
      TakenOrLater(all, count, d.status[i]);
    }
  }

  lemma TakenOrLater(all: seq<ZoneStatus>, count: nat, s: ZoneStatus)
    requires s in all && forall j, k :: 0 <= j < k < |all| ==> all[j].start < all[k].start
    ensures
      var zones := Take(all, count);
      s in zones || (|zones| == count && forall j :: 0 <= j < |zones| ==> zones[j].start < s.start)
  {
    var k :| 0 <= k < |all| && all[k] == s;
    if k < count { assert Take(all, count)[k] == s; }
  }

  /** A negative criterion returns the first zones from the start zone on that meet it, at most as
      many as requested, and reports their number. */
  lemma NegativeQueryAnswers(d: Device, lba: nat, c: int, count: u32)
    requires TableShape(d) && QueryInRange(d, lba, count)
    requires MATCH_OFFL <= c <= MATCH_FULL
    ensures
      var a := Ask(d, lba, c, count);
      && a.Answer? && a.reported == |a.zones|
      && FirstMatches(d, a.zones, c, ZoneOf(d, lba), d.N(), count)
  {
    FoundFirstMatches(d, c, Least(ZoneOf(d, lba), d.N()), d.N(), count);
  }

  lemma FoundExactly(d: Device, c: int, from: nat, upto: nat, i: nat)
    requires TableShape(d) && from <= upto <= d.N() && i < d.N()
    ensures d.status[i] in Found(d.status, ZQ(d), c, from, upto) <==>
            from <= i < upto && Meets(d.status[i], ZQ(d), c)
  {
    var zones := Found(d.status, ZQ(d), c, from, upto);
    if d.status[i] in zones {
      var j :| 0 <= j < |zones| && zones[j] == d.status[i];
      FoundIsSound(d.status, ZQ(d), c, from, upto, j);
    } else if from <= i < upto && Meets(d.status[i], ZQ(d), c) {
      FoundIsComplete(d.status, ZQ(d), c, from, upto, i);
    }
  }

  /** A positive criterion returns exactly the zones of the requested slice with that much room. */
  lemma PositiveQueryAnswers(d: Device, lba: nat, c: int, count: u32, i: nat)
    requires TableShape(d) && QueryInRange(d, lba, count) && SliceInTable(d, lba, c, count)
    requires c > 0 && i < d.N()
    ensures
      var a := Ask(d, lba, c, count);
      && a.Answer? && a.reported == |a.zones|
      && (Returns(d, lba, c, count, i) <==>
            ZoneOf(d, lba) <= i < ZoneOf(d, lba) + count && Minus32(ZQ(d), d.status[i].wp) >= c)
  {
    FoundExactly(d, c, ZoneOf(d, lba), ZoneOf(d, lba) + count, i);
  }

  // ------------------------------------------- agreement with accepted writes

  /** A write of `c` sectors at the pointer of zone `i`. */
  function WriteAt(d: Device, i: nat, c: nat): Request
    requires i < |d.status|
  {
    Request(Write, i * d.Z() + d.status[i].wp, c)
  }

  /** Query and I/O agree: with crossing off, a query for `c` free sectors returns a sequential zone
      with room left exactly when a write of `c` sectors at its pointer would be mapped, given that
      `c` is a multiple of 8 and twice the zone size still fits 32 bits; a zone whose pointer is at its
      end is never returned. */
  lemma QueryAgreesWithWrite(d: Device, lba: nat, count: u32, c: nat, i: nat)
    requires StrictState(d) && CrossingOff(d) && TableShape(d)
    requires QueryInRange(d, lba, count) && SliceInTable(d, lba, c, count)
    requires c > 0 && ZoneOf(d, lba) <= i < ZoneOf(d, lba) + count && d.IsSeq(i)
    ensures
      var rq := WriteAt(d, i, c);
      if d.status[i].wp < d.Z() then
        && MapInTable(d, rq)
        && (Returns(d, lba, c, count, i) && c % 8 == 0 && d.layout.zoneShift < ZONE_SIZE_SHIFT_MAX
            <==> Map(d, rq).mapped)
      else !Returns(d, lba, c, count, i)
  {
    PositiveQueryAnswers(d, lba, c, count, i);
    assert ZoneOk(d.status[i], d.Z());
    if d.status[i].wp < d.Z() {
      WriteAtPointer(d, i, c);
    }
  }

  lemma WriteAtPointer(d: Device, i: nat, c: nat)
    requires StrictState(d) && CrossingOff(d) && c > 0
    requires i < d.N() && d.IsSeq(i) && d.status[i].wp < d.Z()
    ensures
      var rq := WriteAt(d, i, c);
      && MapInTable(d, rq)
      && (Map(d, rq).mapped <==>
            c % 8 == 0 && d.status[i].wp + c <= d.Z() && d.layout.zoneShift < ZONE_SIZE_SHIFT_MAX)
  {
    var off := d.status[i].wp;
    var rq := WriteAt(d, i, c);
    AddressOf(d, i, off);
    assert ZoneOk(d.status[i], d.Z());
    assert !Splits(d, i, off + c);
    StrictMap(d, rq);
    ZoneFits(d, off, c);
  }

  /** Doubling the zone size in 32 bits is harmless for every zone size but the largest, where the
      result is 0 and every request is too large. */
  lemma ZoneFits(d: Device, off: nat, c: nat)
    requires d.Valid() && c > 0
    ensures if d.layout.zoneShift < ZONE_SIZE_SHIFT_MAX then Twice32(d.Z()) == 2 * d.Z()
            else off + c > Twice32(d.Z())
  {
    if d.layout.zoneShift < ZONE_SIZE_SHIFT_MAX {
      ZoneSectorsBound(d.layout.zoneShift + 1);
      assert ZoneSectors(d.layout.zoneShift + 1) == 2 * d.Z();
      NotLargest(d.layout.zoneShift);
    } else {
      Pow2Values();
    }
  }

  // -------------------------------------------------------------- partition

  /** In a strict state the FULL, NFULL and FREE criteria are met by each sequential zone exactly
      once, and by no conventional zone, provided condition and pointer agree. */
  lemma CriteriaPartition(d: Device, i: nat)
    requires StrictState(d) && Agrees(d) && i < d.N()
    ensures
      var s, z := d.status[i], ZQ(d);
      var full, nfull, free := Meets(s, z, MATCH_FULL), Meets(s, z, MATCH_NFULL), Meets(s, z, MATCH_FREE);
      && (d.IsSeq(i) <==> full || nfull || free)
      && !(full && nfull) && !(full && free) && !(nfull && free)
  {
    assert ZoneOk(d.status[i], d.Z());
  }

  /** Zone `i` is in the answer to a query over the whole device. */
  predicate Listed(d: Device, c: int, i: nat)
    requires d.Valid() && i < d.N()
  {
    ZoneOf(d, 0) == 0 && Returns(d, 0, c, d.N(), i)
  }

  /** Over every strict run, the whole-device answers to FULL, NFULL and FREE are disjoint and
      together are exactly the sequential zones. */
  lemma AnswersPartitionSequentialZones(capacity: nat, shift: nat, ops: seq<Op>, i: nat)
    requires capacity <= MAX_CAPACITY && shift <= ZONE_SIZE_SHIFT_MAX
    requires IoRun(Initial(capacity, shift), ops) && NoEmptyWrites(Initial(capacity, shift), ops)
    requires i < Run(Initial(capacity, shift), ops).N()
    ensures
      var d := Run(Initial(capacity, shift), ops);
      var full, nfull, free := Listed(d, MATCH_FULL, i), Listed(d, MATCH_NFULL, i), Listed(d, MATCH_FREE, i);
      && (d.IsSeq(i) <==> full || nfull || free)
      && !(full && nfull) && !(full && free) && !(nfull && free)
  {
    var d0 := Initial(capacity, shift);
    StrictInitial(capacity, shift);
    StrictRun(d0, ops);
    RunAgrees(d0, ops);
    InitialShape(capacity, shift);
    ShapeRun(d0, ops);
    var d := Run(d0, ops);
    CriteriaPartition(d, i);
    WholeDeviceAnswer(d, MATCH_FULL, i);
    WholeDeviceAnswer(d, MATCH_NFULL, i);
    WholeDeviceAnswer(d, MATCH_FREE, i);
  }

  lemma WholeDeviceAnswer(d: Device, c: int, i: nat)
    requires TableShape(d) && MATCH_OFFL <= c <= MATCH_FULL && i < d.N()
    ensures Listed(d, c, i) <==> Meets(d.status[i], ZQ(d), c)
  {
    AddressOf(d, 0, 0);
    NegativeQueryAnswers(d, 0, c, d.N());
    var zones := Ask(d, 0, c, d.N()).zones;
    ListedMeets(d, zones, c, i);
    MeetingIsListed(d, zones, c, i);
  }

  lemma ListedMeets(d: Device, zones: seq<ZoneStatus>, c: int, i: nat)
    requires TableShape(d) && FirstMatches(d, zones, c, 0, d.N(), d.N()) && i < d.N()
    ensures d.status[i] in zones ==> Meets(d.status[i], ZQ(d), c)
  {}

  lemma MeetingIsListed(d: Device, zones: seq<ZoneStatus>, c: int, i: nat)
    requires TableShape(d) && FirstMatches(d, zones, c, 0, d.N(), d.N()) && i < d.N()
    ensures Meets(d.status[i], ZQ(d), c) ==> d.status[i] in zones
  {
    if Meets(d.status[i], ZQ(d), c) && d.status[i] !in zones {
      TooMany(zones, i);
    }
  }

  // ------------------------------------------------------ the codes by condition

  /** The whole-device answers to the five codes, zone by zone. */
  lemma AnswersByCondition(d: Device, i: nat)
    requires TableShape(d) && i < d.N()
    ensures Listed(d, -1, i) <==> d.status[i].cond == Full
    ensures Listed(d, -2, i) <==> d.status[i].cond == Closed && d.status[i].wp != 0
    ensures Listed(d, -3, i) <==> d.status[i].cond == Empty
    ensures Listed(d, -4, i) <==> d.status[i].cond == ReadOnly
    ensures Listed(d, -5, i) <==> d.status[i].cond == Offline
  {
    WholeDeviceAnswer(d, -1, i);
    WholeDeviceAnswer(d, -2, i);
    WholeDeviceAnswer(d, -3, i);
    WholeDeviceAnswer(d, -4, i);
    WholeDeviceAnswer(d, -5, i);
  }

  /** Over every strict run, by pointers: FREE lists the sequential zones with nothing written, NFULL and
      FULL together those with something written, and FULL only zones written to the end; if border
      crossing is never switched on, all of these. */
  lemma AnswersByPointer(capacity: nat, shift: nat, ops: seq<Op>, i: nat)
    requires capacity <= MAX_CAPACITY && shift <= ZONE_SIZE_SHIFT_MAX
    requires IoRun(Initial(capacity, shift), ops) && NoEmptyWrites(Initial(capacity, shift), ops)
    requires i < Run(Initial(capacity, shift), ops).N()
    ensures
      var d := Run(Initial(capacity, shift), ops);
      && (Listed(d, -3, i) <==> d.IsSeq(i) && d.status[i].wp == 0)
      && (Listed(d, -2, i) || Listed(d, -1, i) <==> d.IsSeq(i) && d.status[i].wp != 0)
      && (Listed(d, -1, i) ==> d.status[i].wp == d.Z())
      && ((forall op :: op in ops ==> CrossingStaysOff(op)) ==>
            (Listed(d, -1, i) <==> d.IsSeq(i) && d.status[i].wp == d.Z()))
  {
    var d0 := Initial(capacity, shift);
    InitialShape(capacity, shift);
    ShapeRun(d0, ops);
    ConditionMatchesPointer(capacity, shift, ops, i);
    AnswersByCondition(Run(d0, ops), i);
    if (forall op :: op in ops ==> CrossingStaysOff(op)) && Run(d0, ops).IsSeq(i) {
      FullIffPointerAtEnd(capacity, shift, ops, i);
    }
  }

  /** Match-all returns the zones from the start zone on, as many as requested. */
  lemma MatchAllAnswers(d: Device, lba: nat, count: u32)
    requires TableShape(d) && 0 < count && ZoneOf(d, lba) + count <= d.N()
    ensures SliceInTable(d, lba, 0, count)
    ensures
      var a := Ask(d, lba, 0, count);
      && a.Answer? && a.reported == count as nat == |a.zones|
      && forall k :: 0 <= k < count ==>
          a.zones[k] == d.status[ZoneOf(d, lba) + k] && a.zones[k].start == ZoneOf(d, lba) as nat + k
  {}

  /** A query is refused exactly if it asks for no zones or, in 32 bits, for zones behind the last. */
  lemma QueryRefusedIff(d: Device, lba: nat, criterion: int, count: u32)
    requires d.Valid() && SliceInTable(d, lba, criterion, count)
    ensures Ask(d, lba, criterion, count).Refused? <==>
            count == 0 || d.N() as nat < (count as nat + ZoneOf(d, lba) as nat) % 0x1_0000_0000
  {}

  /** A code the source does not know writes no zone and leaves the requested number as it is. */
  lemma UnknownCodeAnswers(d: Device, lba: nat, criterion: int, count: u32)
    requires d.Valid() && criterion < -5 && 0 < count && count + ZoneOf(d, lba) <= d.N()
    ensures Ask(d, lba, criterion, count) == Answer([], count)
  {}

  /** Strictly ascending starts below `i` leave no room for more than `i` entries. */
  lemma {:induction false} TooMany(zones: seq<ZoneStatus>, i: nat)
    requires forall j, k :: 0 <= j < k < |zones| ==> zones[j].start < zones[k].start
    requires forall j :: 0 <= j < |zones| ==> zones[j].start < i
    ensures |zones| <= i
  {
    if zones == [] {
    } else {
      var last := |zones| - 1;
      TooMany(zones[..last], zones[last].start);
    }
  }
}
