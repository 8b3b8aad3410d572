/** The persistence thread's record of what is unsaved: the change flags and the queue of zones whose
    pages are dirty. */
module DirtyQueue {
  import opened Geometry
  import opened ZoneTypes

  /** Zones this close share a page of the persisted state. */
  const PAGE_EDGE: nat := 92
  const QUEUE_DEPTH: nat := 128
  const PAGE_GAP: nat := 2

  /** `abs(a - b)` on 32-bit unsigned operands: the difference read as a signed value. */
  function Distance32(a: u32, b: u32): int {
    var diff: int := if b <= a then a - b else a - b + TWO32;
    var signed: int := if diff < 0x8000_0000 then diff else diff - TWO32;
    if signed < 0 && signed != -0x8000_0000 then -signed else signed
  }

  function Apart(a: int, b: int): nat { if a < b then b - a else a - b }

  /** Below 2^31, which the 32-bit state size enforces for zone indices, it is the distance. */
  lemma DistanceIsApart(a: u32, b: u32)
    requires a < 0x8000_0000 && b < 0x8000_0000
    ensures Distance32(a, b) == Apart(a, b)
  {}

  /** The unsaved-changes record as a value. */
  datatype Pending = Pending(flag: ChangeFlags, queue: seq<u32>, gap: nat, statsZone: u32)

  const NOTHING_PENDING := Pending(NO_CHANGE, [], 0, 0)

  predicate FarFromAll(queue: seq<u32>, zone: u32) {
    forall k :: 0 <= k < |queue| ==> Distance32(zone, queue[k]) > PAGE_EDGE
  }

  predicate NearSome(queue: seq<u32>, zone: u32) {
    exists k :: 0 <= k < |queue| && Distance32(zone, queue[k]) <= PAGE_GAP * PAGE_EDGE
  }

  /** The enqueue step of the map function. */
  function Enqueue(p: Pending, zone: u32): Pending {
    if |p.queue| == QUEUE_DEPTH then p.(gap := PAGE_GAP)
    else if !FarFromAll(p.queue, zone) then p
    else
      var queue := p.queue + [zone];
      p.(queue := queue, gap := if NearSome(queue, zone) then p.gap else p.gap + 1)
  }

  /** What a request leaves behind. */
  function Marked(p: Pending, mark: Mark): Pending {
    match mark
    case NoMark => p
    case StatusMark(zone) => Enqueue(p.(flag := p.flag.Set(STATUS_CHANGE)), Wrap32(zone))
    case StatsMark(zone) => p.(flag := p.flag.Set(STATS_CHANGE), statsZone := Wrap32(zone))
  }

  function MarkedAll(p: Pending, marks: seq<Mark>): Pending
    decreases marks
  {
    if marks == [] then p else MarkedAll(Marked(p, marks[0]), marks[1..])
  }

  // -------------------------------------------------------------- invariants

  ghost predicate Spread(queue: seq<u32>) {
    forall j, k :: 0 <= j < k < |queue| ==> Apart(queue[j], queue[k]) > PAGE_EDGE
  }

  /** A full save is pending, or some queued zone is near enough to share the zone's pages. */
  predicate Covered(p: Pending, zone: nat) {
    p.gap == PAGE_GAP || exists k :: 0 <= k < |p.queue| && Apart(zone, p.queue[k]) <= PAGE_EDGE
  }

  ghost predicate QueueInv(p: Pending, n: nat) {
    && |p.queue| <= QUEUE_DEPTH
    && Spread(p.queue)
    && (p.gap == 0 || p.gap == PAGE_GAP)
    && forall k :: 0 <= k < |p.queue| ==> p.queue[k] < n
  }

  lemma EnqueueStep(p: Pending, zone: u32, n: nat)
    requires QueueInv(p, n) && zone < n <= 0x8000_0000
    ensures QueueInv(Enqueue(p, zone), n)
    ensures Covered(Enqueue(p, zone), zone)
    ensures forall other: nat :: Covered(p, other) ==> Covered(Enqueue(p, zone), other)
    ensures Enqueue(p, zone).gap != p.gap ==> |p.queue| == QUEUE_DEPTH
  {
    forall k | 0 <= k < |p.queue|
      ensures Distance32(zone, p.queue[k]) == Apart(zone, p.queue[k])
    {
      DistanceIsApart(zone, p.queue[k]);
    }
    var r := Enqueue(p, zone);
    if |p.queue| < QUEUE_DEPTH && FarFromAll(p.queue, zone) {
      var last := |p.queue|;
      assert r.queue[last] == zone && Distance32(zone, zone) == 0;
      forall other: nat | Covered(p, other)
        ensures Covered(r, other)
      {
        if p.gap != PAGE_GAP {
          var k :| 0 <= k < |p.queue| && Apart(other, p.queue[k]) <= PAGE_EDGE;
          assert r.queue[k] == p.queue[k];
        }
      }
    }
  }

  /** One enqueue step: a full queue of 128 raises the gap counter to 2; a zone within 92 of a queued one
      changes nothing; any other is appended, which never changes the gap counter. */
  lemma EnqueueOutcome(p: Pending, zone: u32)
    requires zone < 0x8000_0000 && forall k :: 0 <= k < |p.queue| ==> p.queue[k] < 0x8000_0000
    ensures
      Enqueue(p, zone) ==
      if |p.queue| == 128 then Pending(p.flag, p.queue, 2, p.statsZone)
      else if exists k :: 0 <= k < |p.queue| && Apart(zone, p.queue[k]) <= 92 then p
      else Pending(p.flag, p.queue + [zone], p.gap, p.statsZone)
  {
    forall k | 0 <= k < |p.queue|
      ensures Distance32(zone, p.queue[k]) == Apart(zone, p.queue[k])
    {
      DistanceIsApart(zone, p.queue[k]);
    }
    var queue := p.queue + [zone];
    assert queue[|p.queue|] == zone && Distance32(zone, zone) == 0;
  }

  /** What each kind of mark records. */
  lemma MarkOutcome(p: Pending, zone: u32)
    ensures Marked(p, NoMark) == p
    ensures Marked(p, StatsMark(zone)) ==
            Pending(ChangeFlags(p.flag.config, true, p.flag.status), p.queue, p.gap, zone)
    ensures Marked(p, StatusMark(zone)).flag == ChangeFlags(p.flag.config, p.flag.stats, true)
    ensures Marked(p, StatusMark(zone)).statsZone == p.statsZone
    ensures p.queue <= Marked(p, StatusMark(zone)).queue
  {}

  /** The zone index of a mark lies below `n`. */
  predicate MarkBelow(mark: Mark, n: nat) {
    mark.StatusMark? ==> mark.zone < n
  }

  lemma MarkStep(p: Pending, m: Mark, n: nat)
    requires QueueInv(p, n) && n <= 0x8000_0000 && MarkBelow(m, n)
    ensures QueueInv(Marked(p, m), n)
    ensures m.StatusMark? ==> Covered(Marked(p, m), m.zone)
    ensures forall other: nat :: Covered(p, other) ==> Covered(Marked(p, m), other)
  {
    if m.StatusMark? {
      var p1 := p.(flag := p.flag.Set(STATUS_CHANGE));
      EnqueueStep(p1, m.zone, n);
      forall other: nat | Covered(p, other)
        ensures Covered(Marked(p, m), other)
      {
        assert Covered(p1, other);
      }
    }
  }

  lemma {:induction false} MarksKeepInvariant(p: Pending, marks: seq<Mark>, n: nat)
    requires QueueInv(p, n) && n <= 0x8000_0000
    requires forall m :: m in marks ==> MarkBelow(m, n)
    ensures QueueInv(MarkedAll(p, marks), n)
    ensures forall other: nat :: Covered(p, other) ==> Covered(MarkedAll(p, marks), other)
    ensures forall m :: m in marks && m.StatusMark? ==> Covered(MarkedAll(p, marks), m.zone)
    decreases marks
  {
    if marks == [] {
    } else {
      var m, rest := marks[0], marks[1..];
      assert MarkBelow(m, n);
      MarkStep(p, m, n);
      MarksKeepInvariant(Marked(p, m), rest, n);
      forall x | x in marks && x.StatusMark?
        ensures Covered(MarkedAll(p, marks), x.zone)
      {
        assert x == m || x in rest;
      }
    }
  }

  /** From a cleared queue, over any sequence of marks: at most 128 entries, pairwise more than 92
      apart, every marked zone within 92 of an entry or a full save pending, and a gap counter that
      is only ever 0 or 2. */
  lemma QueueCoversEveryMark(marks: seq<Mark>, n: nat)
    requires n <= 0x8000_0000 && forall m :: m in marks ==> MarkBelow(m, n)
    ensures
      var p := MarkedAll(NOTHING_PENDING, marks);
      && QueueInv(p, n)
      && forall m :: m in marks && m.StatusMark? ==> Covered(p, m.zone)
  {
    MarksKeepInvariant(NOTHING_PENDING, marks, n);
  }

  // ---------------------------------------------------------------- capacity

  /** The 93-zone stretches the queued zones fall into. */
  function Slots(queue: seq<u32>): set<nat> {
    if queue == [] then {} else Slots(queue[..|queue| - 1]) + {queue[|queue| - 1] / 93}
  }

  lemma {:induction false} SlotOrigin(queue: seq<u32>, slot: nat) returns (k: nat)
    requires slot in Slots(queue)
    ensures k < |queue| && queue[k] / 93 == slot
  {
    var last := |queue| - 1;
    if queue[last] / 93 == slot { k := last; } else { k := SlotOrigin(queue[..last], slot); }
  }

  lemma {:induction false} FarMeansNewSlot(queue: seq<u32>, zone: u32)
    requires forall k :: 0 <= k < |queue| ==> Apart(queue[k], zone) > PAGE_EDGE
    ensures zone / 93 !in Slots(queue)
  {
    if queue == [] {
    } else {
      FarMeansNewSlot(queue[..|queue| - 1], zone);
      SameSlot(queue[|queue| - 1], zone);
    }
  }

  lemma SameSlot(a: nat, b: nat)
    ensures a / 93 == b / 93 ==> Apart(a, b) <= PAGE_EDGE
  {}

  lemma {:induction false} SlotsDistinct(queue: seq<u32>)
    requires Spread(queue)
    ensures |Slots(queue)| == |queue|
  {
    if queue == [] {
    } else {
      var last := |queue| - 1;
      SlotsDistinct(queue[..last]);
      FarMeansNewSlot(queue[..last], queue[last]);
    }
  }

  lemma {:induction false} BoundedSet(s: set<nat>, m: nat)
    requires forall x :: x in s ==> x < m
    ensures |s| <= m
  {
    if m == 0 {
      assert s == {};
    } else {
      BoundedSet(s - {m - 1}, m - 1);
    }
  }

  /** A queue of zones below `n` holds few entries, so it fills up only with more than 11811 zones. */
  lemma QueueLength(p: Pending, n: nat)
    requires QueueInv(p, n) && p.queue != []
    ensures (|p.queue| - 1) * 93 < n
    ensures |p.queue| == QUEUE_DEPTH ==> n > 11811
  {
    SlotsDistinct(p.queue);
    var m := (n - 1) / 93 + 1;
    forall x | x in Slots(p.queue)
      ensures x < m
    {
      var k := SlotOrigin(p.queue, x);
    }
    BoundedSet(Slots(p.queue), m);
  }

  // --------------------------------------------------------------- the record

  /** The shared record of the persistence thread. */
  class PersistTask {
    var flag: ChangeFlags
    var stuZoneIdx: array<u32>
    var stuZoneIdxCnt: nat
    var stuZoneIdxGap: nat
    var stsZoneIdx: u32

    ghost predicate Valid()
      reads this
    {
      stuZoneIdx.Length == QUEUE_DEPTH && stuZoneIdxCnt <= QUEUE_DEPTH
    }

    ghost function Contents(): Pending
      reads this, stuZoneIdx
      requires Valid()
    {
      Pending(flag, stuZoneIdx[..stuZoneIdxCnt], stuZoneIdxGap, stsZoneIdx)
    }

    constructor ()
      ensures Valid() && fresh(stuZoneIdx)
      ensures Contents() == NOTHING_PENDING
    {
      flag := NO_CHANGE;
      stuZoneIdx := new u32[QUEUE_DEPTH](_ => 0);
      stuZoneIdxCnt := 0;
      stuZoneIdxGap := 0;
      stsZoneIdx := 0;
    }

    method QueueOk(idx: u32) returns (ok: bool)
      requires Valid()
      ensures ok == FarFromAll(Contents().queue, idx)
    {
      var q := 0;
      while q < stuZoneIdxCnt
        invariant 0 <= q <= stuZoneIdxCnt
        invariant forall k :: 0 <= k < q ==> Distance32(idx, stuZoneIdx[k]) > PAGE_EDGE
      {
        if Distance32(idx, stuZoneIdx[q]) <= PAGE_EDGE {
          assert Contents().queue[q] == stuZoneIdx[q];
          return false;
        }
        q := q + 1;
      }
      return true;
    }

    method GapOk(idx: u32) returns (ok: bool)
      requires Valid()
      ensures ok == NearSome(Contents().queue, idx)
    {
      var q := 0;
      while q < stuZoneIdxCnt
        invariant 0 <= q <= stuZoneIdxCnt
        invariant forall k :: 0 <= k < q ==> Distance32(idx, stuZoneIdx[k]) > PAGE_GAP * PAGE_EDGE
      {
        if Distance32(idx, stuZoneIdx[q]) <= PAGE_GAP * PAGE_EDGE {
          assert Contents().queue[q] == stuZoneIdx[q];
          return true;
        }
        q := q + 1;
      }
      return false;
    }

    /** An accepted write to zone `idx`. */
    method NoteStatus(idx: u32)
      requires Valid()
      modifies this`flag, this`stuZoneIdxCnt, this`stuZoneIdxGap, stuZoneIdx
      ensures Valid()
      ensures Contents() == Marked(old(Contents()), StatusMark(idx))
    {
      flag := flag.Set(STATUS_CHANGE);
      assert Contents() == old(Contents()).(flag := flag);
      Push(idx);
    }

    method Push(idx: u32)
      requires Valid()
      modifies this`stuZoneIdxCnt, this`stuZoneIdxGap, stuZoneIdx
      ensures Valid()
      ensures Contents() == Enqueue(old(Contents()), idx)
    {
      if stuZoneIdxCnt == QUEUE_DEPTH {
        stuZoneIdxGap := PAGE_GAP;
      } else {
        var far := QueueOk(idx);
        if far {
          stuZoneIdx[stuZoneIdxCnt] := idx;
          stuZoneIdxCnt := stuZoneIdxCnt + 1;
          assert stuZoneIdx[..stuZoneIdxCnt] == old(stuZoneIdx[..stuZoneIdxCnt]) + [idx];
          var near := GapOk(idx);
          if !near {
            stuZoneIdxGap := stuZoneIdxGap + 1;
          }
        }
      }
    }

    /** A request refused in zone `idx`. */
    method NoteStats(idx: u32)
      requires Valid()
      modifies this`flag, this`stsZoneIdx
      ensures Valid()
      ensures Contents() == Marked(old(Contents()), StatsMark(idx))
    {
      flag := flag.Set(STATS_CHANGE);
      stsZoneIdx := idx;
    }

    /** What the persistence thread does to its record after a full save that found no configuration change. */
    method ClearQueue()
      requires Valid()
      modifies this, stuZoneIdx
      ensures Valid() && stuZoneIdx == old(stuZoneIdx)
      ensures Contents() == old(Contents()).(flag := NO_CHANGE, gap := 0, queue := [])
    {
      flag := NO_CHANGE;
      stuZoneIdxGap := 0;
      for k := 0 to QUEUE_DEPTH
        modifies stuZoneIdx
      {
        stuZoneIdx[k] := 0;
      }
      stuZoneIdxCnt := 0;
    }
  }
}
