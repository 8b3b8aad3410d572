/** Runs of the protocol that end quiet with a stale disk: why each bound on durability is needed, and
    exactly when the disk is lost. */
module Staleness {
  import opened Geometry
  import opened ZoneTypes
  import opened ZoneRules
  import opened Operations
  import opened StrictRules
  import opened Unmarked
  import opened ConfigRuns
  import opened DirtyQueue
  import opened Persistence
  import opened StateImage
  import opened Durability

  // ------------------------------------------------------------ building runs

  lemma Prepend(crc: Checksum, w: World, a: Action, rest: seq<Action>)
    requires Can(crc, w, a) && Interleaving(crc, Do(crc, w, a), rest)
    ensures Interleaving(crc, w, [a] + rest)
    ensures After(crc, w, [a] + rest) == After(crc, Do(crc, w, a), rest)
  {
    assert ([a] + rest)[1..] == rest;
  }

  lemma {:induction false} Concat(crc: Checksum, w: World, xs: seq<Action>, ys: seq<Action>)
    requires Interleaving(crc, w, xs) && Interleaving(crc, After(crc, w, xs), ys)
    ensures Interleaving(crc, w, xs + ys)
    ensures After(crc, w, xs + ys) == After(crc, After(crc, w, xs), ys)
    decreases |xs|
  {
    if xs == [] {
      assert xs + ys == ys;
    } else {
      assert (xs + ys)[0] == xs[0] && (xs + ys)[1..] == xs[1..] + ys;
      Concat(crc, Do(crc, w, xs[0]), xs[1..], ys);
    }
  }

  /** The four steps of one request. */
  function OneRequest(rq: ZoneTypes.Request): seq<Action> {
    [RequestLock] + ([RequestCheck(rq)] + ([RequestMark] + ([RequestUnlock] + [])))
  }

  function Served(w: World, rq: ZoneTypes.Request): World
    requires w.device.Valid() && MapInTable(w.device, rq)
  {
    var r := Map(w.device, rq);
    w.(device := r.device, pending := Marked(w.pending, r.mark), owner := Nobody, request := NoRequest)
  }

  lemma OneRequestRuns(crc: Checksum, w: World, rq: ZoneTypes.Request)
    requires w.device.Valid() && MapInTable(w.device, rq) && w.owner.Nobody?
    ensures Interleaving(crc, w, OneRequest(rq))
    ensures After(crc, w, OneRequest(rq)) == Served(w, rq)
  {
    var w1 := Do(crc, w, RequestLock);
    var w2 := Do(crc, w1, RequestCheck(rq));
    var w3 := Do(crc, w2, RequestMark);
    Prepend(crc, w3, RequestUnlock, []);
    Prepend(crc, w2, RequestMark, [RequestUnlock] + []);
    Prepend(crc, w1, RequestCheck(rq), [RequestMark] + ([RequestUnlock] + []));
    Prepend(crc, w, RequestLock, [RequestCheck(rq)] + ([RequestMark] + ([RequestUnlock] + [])));
  }

  // ------------------------------------------ out-of-policy requests satisfied

  /** The run of one request from a quiet state on disk ends quiet with a stale disk exactly when the
      request broke a rule, was satisfied without delay, and did not leave everything as it was. */
  lemma PassedRequestGoesStale(crc: Checksum, w: World, rq: ZoneTypes.Request) returns (v: World)
    requires w.device.Valid() && Durable(crc, w.disk, w.device) && Quiet(w) && MapInTable(w.device, rq)
    ensures Interleaving(crc, w, OneRequest(rq)) && v == After(crc, w, OneRequest(rq))
    ensures v.disk == w.disk && v.device.Valid()
    ensures Quiet(v) && !Durable(crc, v.disk, v.device) <==> ChangesUnmarked(w.device, rq)
  {
    OneRequestRuns(crc, w, rq);
    v := Served(w, rq);
    UnmarkedChangeIff(w.device, rq);
    MarkedIsPending(w.pending, Map(w.device, rq).mark);
  }

  lemma MarkedIsPending(p: Pending, m: Mark)
    ensures !m.NoMark? ==> Marked(p, m).flag.Any()
  {}

  // -------------------------------------------------------------- border flags

  /** The writes of one border call, zone by zone. */
  function BorderWrites(d: Device, code: u8, n: nat): seq<Action>
    requires n <= |d.status|
  {
    if n == 0 then [] else BorderWrites(d, code, n - 1) + WritesTo(d, code, n - 1)
  }

  function WritesTo(d: Device, code: u8, zone: nat): seq<Action>
    requires zone < |d.status|
  {
    if code == CROSS_OFF || d.IsSeq(zone) then [BorderWrite(zone, code)] else []
  }

  function BorderCall(d: Device, code: u8, zone: nat): seq<Action>
    requires d.Valid()
  {
    if code == CROSS_CUR then [BorderWrite(zone, code)]
    else if code == CROSS_OFF || code == CROSS_SEQ then BorderWrites(d, code, d.N())
    else []
  }

  function FlagsBelow(d: Device, code: u8, n: nat): Device {
    d.(status := seq(|d.status|, i requires 0 <= i < |d.status| =>
      if i < n && (code == CROSS_OFF || d.IsSeq(i)) then WithFlag(d.status[i], code) else d.status[i]))
  }

  lemma FlagsBelowNext(d: Device, code: u8, n: nat)
    requires n < |d.status|
    ensures
      var r := FlagsBelow(d, code, n);
      && r.status[n] == d.status[n]
      && FlagsBelow(d, code, n + 1) ==
         if code == CROSS_OFF || d.IsSeq(n) then SetStatus(r, n, WithFlag(d.status[n], code)) else r
  {
    var r, q := FlagsBelow(d, code, n), FlagsBelow(d, code, n + 1);
    if code == CROSS_OFF || d.IsSeq(n) {
      assert q.status == r.status[n := WithFlag(d.status[n], code)];
    } else {
      assert q.status == r.status;
    }
  }

  lemma OneWrite(crc: Checksum, w: World, zone: nat, code: u8)
    requires w.device.Valid() && BorderWritable(w.device, zone, code)
    ensures Interleaving(crc, w, [BorderWrite(zone, code)])
    ensures After(crc, w, [BorderWrite(zone, code)]) ==
            w.(device := SetStatus(w.device, zone, WithFlag(w.device.status[zone], code)))
  {
    Prepend(crc, w, BorderWrite(zone, code), []);
    assert [BorderWrite(zone, code)] + [] == [BorderWrite(zone, code)];
  }

  lemma WritesToRun(crc: Checksum, w: World, code: u8, n: nat)
    requires w.device.Valid() && n < w.device.N() && (code == CROSS_OFF || code == CROSS_SEQ)
    ensures
      var v := w.(device := FlagsBelow(w.device, code, n));
      && Interleaving(crc, v, WritesTo(w.device, code, n))
      && After(crc, v, WritesTo(w.device, code, n)) == w.(device := FlagsBelow(w.device, code, n + 1))
  {
    FlagsBelowNext(w.device, code, n);
    var v := w.(device := FlagsBelow(w.device, code, n));
    if code == CROSS_OFF || w.device.IsSeq(n) {
      OneWrite(crc, v, n, code);
    }
  }

  /** The writes to the zones below `n` have set their flags. */
  ghost predicate FlagsSet(crc: Checksum, w: World, code: u8, n: nat, writes: seq<Action>) {
    Interleaving(crc, w, writes) && After(crc, w, writes) == w.(device := FlagsBelow(w.device, code, n))
  }

  lemma OneMoreSet(crc: Checksum, w: World, code: u8, n: nat, writes: seq<Action>, more: seq<Action>)
    requires w.device.Valid() && n < w.device.N() && (code == CROSS_OFF || code == CROSS_SEQ)
    requires FlagsSet(crc, w, code, n, writes) && more == WritesTo(w.device, code, n)
    ensures FlagsSet(crc, w, code, n + 1, writes + more)
  {
    WritesToRun(crc, w, code, n);
    Concat(crc, w, writes, more);
  }

  /** The call has set the flags of the zones below `n` so far. */
  ghost predicate CallReached(crc: Checksum, w: World, code: u8, n: nat)
    requires n <= |w.device.status|
  {
    FlagsSet(crc, w, code, n, BorderWrites(w.device, code, n))
  }

  lemma NextZoneReached(crc: Checksum, w: World, code: u8, n: nat)
    requires w.device.Valid() && n < w.device.N() && (code == CROSS_OFF || code == CROSS_SEQ)
    requires CallReached(crc, w, code, n)
    ensures CallReached(crc, w, code, n + 1)
  {
    var writes, more := BorderWrites(w.device, code, n), WritesTo(w.device, code, n);
    OneMoreSet(crc, w, code, n, writes, more);
    assert BorderWrites(w.device, code, n + 1) == writes + more;
  }

  lemma NoZoneReached(crc: Checksum, w: World, code: u8)
    ensures CallReached(crc, w, code, 0)
  {
    assert FlagsBelow(w.device, code, 0).status == w.device.status;
  }

  lemma {:induction false} BorderWritesRun(crc: Checksum, w: World, code: u8, n: nat)
    requires w.device.Valid() && n <= w.device.N() && (code == CROSS_OFF || code == CROSS_SEQ)
    ensures CallReached(crc, w, code, n)
  {
    if n == 0 {
      NoZoneReached(crc, w, code);
    } else {
      BorderWritesRun(crc, w, code, n - 1);
      NextZoneReached(crc, w, code, n - 1);
    }
  }

  lemma BorderCallRuns(crc: Checksum, w: World, code: u8, zone: nat)
    requires w.device.Valid() && Enabled(w.device, Border(code, zone))
    ensures Interleaving(crc, w, BorderCall(w.device, code, zone))
    ensures After(crc, w, BorderCall(w.device, code, zone)) == w.(device := BorderAcross(w.device, code, zone))
  {
    if code == CROSS_CUR {
      OneWrite(crc, w, zone, code);
    } else if code == CROSS_OFF || code == CROSS_SEQ {
      BorderWritesRun(crc, w, code, w.device.N());
    }
  }

  /** A border call sets no flag: from a quiet state on disk it ends quiet, and the disk is stale
      exactly when the call has changed the border flag of a live zone. */
  lemma BorderCallGoesStale(crc: Checksum, w: World, code: u8, zone: nat) returns (v: World)
    requires w.device.Valid() && Durable(crc, w.disk, w.device) && Quiet(w)
    requires Enabled(w.device, Border(code, zone))
    ensures Interleaving(crc, w, BorderCall(w.device, code, zone))
    ensures v == After(crc, w, BorderCall(w.device, code, zone))
    ensures v.device == BorderAcross(w.device, code, zone) && v.disk == w.disk && Quiet(v)
    ensures !Durable(crc, v.disk, v.device) <==>
            exists i :: 0 <= i < w.device.N() && v.device.status[i].flag != w.device.status[i].flag
  {
    BorderCallRuns(crc, w, code, zone);
    v := w.(device := BorderAcross(w.device, code, zone));
    BorderChangesFlags(w.device, code, zone);
  }

  /** What a border call changes of the persisted state. */
  lemma BorderChangesFlags(d: Device, code: u8, zone: nat)
    requires d.Valid() && Enabled(d, Border(code, zone))
    ensures
      var r := BorderAcross(d, code, zone);
      PersistedOf(r) != PersistedOf(d) <==>
      exists i :: 0 <= i < d.N() && r.status[i].flag != d.status[i].flag
  {
    var r := BorderAcross(d, code, zone);
    var p, q := PersistedOf(d), PersistedOf(r);
    forall i | 0 <= i < d.N()
      ensures p.status[i] == d.status[i] && q.status[i] == r.status[i]
      ensures r.status[i] == WithFlag(d.status[i], r.status[i].flag)
    {}
    if forall i :: 0 <= i < d.N() ==> r.status[i].flag == d.status[i].flag {
      assert q.status == p.status;
    } else {
      var i :| 0 <= i < d.N() && r.status[i].flag != d.status[i].flag;
      assert q.status[i] != p.status[i];
    }
  }

  // ------------------------------------------------ between checksum and copy

  /** A border flag or an idle time written between the checksum and the copy of a save: the disk then
      loads if the checksum happens to fit, and otherwise not at all. */
  lemma TornSave(crc: Checksum, w: World, a: Action, disk: seq<Page>) returns (v: World)
    requires w.task.Copying? && Sizable(w.device) && w.device.N() as nat == |w.device.status| >= 1
    requires (a.BorderWrite? || a.IdleWrite?) && Can(crc, w, a)
    requires Sizable(Do(crc, w, a).device) && Holds(disk, InMemory(Do(crc, w, a)))
    ensures Interleaving(crc, w, [a] + ([TaskSave(disk)] + []))
    ensures v == After(crc, w, [a] + ([TaskSave(disk)] + [])) && Sizable(v.device)
    ensures Loaded(crc, v.disk) ==
            if w.crc32 == Sum(crc, v.device, v.idle) then Some(PersistedOf(v.device)) else None
  {
    var w1 := Do(crc, w, a);
    Prepend(crc, w1, TaskSave(disk), []);
    Prepend(crc, w, a, [TaskSave(disk)] + []);
    v := Do(crc, w1, TaskSave(disk));
    HeldLoadsIff(crc, disk, w1.device, w1.idle, w1.crc32);
  }

  // ----------------------------------------------------- beyond the first page

  /** The nine steps of a flush that finds no configuration change and no full queue. */
  function OneFlush(page: Page): seq<Action> {
    SEAL_STEPS + FlushSteps(page)
  }

  const SEAL_STEPS: seq<Action> := [TaskPoll] + ([TaskLock] + ([TaskDecide] + ([TaskSeal] + [])))

  function FlushSteps(page: Page): seq<Action> { [TaskMaskConfig] + ([TaskFlush(page)] + LAST_STEPS) }

  const LAST_STEPS: seq<Action> := [TaskMaskStats] + ([TaskMaskStatus] + ([TaskUnlock] + []))

  /** Some requests have been marked, no configuration change, and no full save is due. */
  predicate FlushDue(w: World) {
    && w.owner.Nobody? && w.task.Asleep?
    && w.pending.flag.Any() && !w.pending.flag.config && w.pending.gap < PAGE_GAP
  }

  function Masking(crc: Checksum, w: World): World
    requires Sizable(w.device)
  {
    w.(crc32 := Sum(crc, w.device, w.idle), owner := Owner.Task, task := MaskConfig)
  }

  function Flushed(crc: Checksum, w: World, page: Page): World
    requires Sizable(w.device) && |w.disk| > 0
  {
    w.(crc32 := Sum(crc, w.device, w.idle), disk := w.disk[0 := page],
       pending := WithFlags(w.pending, NO_CHANGE), owner := Nobody, task := Asleep)
  }

  lemma FlushStepsRun(crc: Checksum, w: World, page: Page)
    requires Sizable(w.device) && |w.disk| > 0 && w.task.MaskConfig? && !w.pending.flag.config
    requires StartsWith(page, InMemory(w))
    ensures Interleaving(crc, w, FlushSteps(page))
    ensures After(crc, w, FlushSteps(page)) ==
            w.(disk := w.disk[0 := page], pending := WithFlags(w.pending, NO_CHANGE), owner := Nobody, task := Asleep)
  {
    var w1 := w.(pending := WithFlags(w.pending, NO_CHANGE), task := FlushPage);
    var w2 := w1.(disk := w.disk[0 := page], task := MaskStats);
    LastSteps(crc, w2);
    assert Do(crc, w, TaskMaskConfig) == w1 && Do(crc, w1, TaskFlush(page)) == w2;
    Prepend(crc, w1, TaskFlush(page), LAST_STEPS);
    Prepend(crc, w, TaskMaskConfig, [TaskFlush(page)] + LAST_STEPS);
  }

  lemma LastSteps(crc: Checksum, w: World)
    requires w.task.MaskStats? && w.pending.flag == NO_CHANGE
    ensures Interleaving(crc, w, LAST_STEPS)
    ensures After(crc, w, LAST_STEPS) == w.(owner := Nobody, task := Asleep)
  {
    var w1 := w.(task := MaskStatus);
    LastTwoSteps(crc, w1);
    Prepend(crc, w, TaskMaskStats, [TaskMaskStatus] + ([TaskUnlock] + []));
  }

  lemma LastTwoSteps(crc: Checksum, w: World)
    requires w.task.MaskStatus? && w.pending.flag == NO_CHANGE
    ensures Interleaving(crc, w, [TaskMaskStatus] + ([TaskUnlock] + []))
    ensures After(crc, w, [TaskMaskStatus] + ([TaskUnlock] + [])) == w.(owner := Nobody, task := Asleep)
  {
    var w1 := w.(task := Leaving);
    Prepend(crc, w1, TaskUnlock, []);
    Prepend(crc, w, TaskMaskStatus, [TaskUnlock] + []);
  }

  lemma SealStepsRun(crc: Checksum, w: World)
    requires Sizable(w.device) && FlushDue(w)
    ensures Interleaving(crc, w, SEAL_STEPS) && After(crc, w, SEAL_STEPS) == Masking(crc, w)
  {
    var w1 := w.(task := Awake);
    var w2 := w1.(owner := Owner.Task, task := Deciding);
    DecideAndSeal(crc, w2);
    Prepend(crc, w1, TaskLock, [TaskDecide] + ([TaskSeal] + []));
    Prepend(crc, w, TaskPoll, [TaskLock] + ([TaskDecide] + ([TaskSeal] + [])));
  }

  lemma DecideAndSeal(crc: Checksum, w: World)
    requires Sizable(w.device) && w.task.Deciding? && !w.pending.flag.config && w.pending.gap < PAGE_GAP
    ensures Interleaving(crc, w, [TaskDecide] + ([TaskSeal] + []))
    ensures After(crc, w, [TaskDecide] + ([TaskSeal] + [])) ==
            w.(crc32 := Sum(crc, w.device, w.idle), task := MaskConfig)
  {
    var w1 := w.(task := SealFlush);
    Prepend(crc, w1, TaskSeal, []);
    Prepend(crc, w, TaskDecide, [TaskSeal] + []);
  }

  lemma OneFlushRuns(crc: Checksum, w: World, page: Page)
    requires Sizable(w.device) && |w.disk| > 0 && FlushDue(w)
    requires StartsWith(page, InMemory(Masking(crc, w)))
    ensures Interleaving(crc, w, OneFlush(page))
    ensures After(crc, w, OneFlush(page)) == Flushed(crc, w, page)
  {
    SealStepsRun(crc, w);
    FlushStepsRun(crc, Masking(crc, w), page);
    Concat(crc, w, SEAL_STEPS, FlushSteps(page));
  }

  /** The same window in a flush: a border flag or an idle time written between its checksum and its copy
      of a state of one page. The run ends with the flag word 0 and the lock free, and the disk loads if
      the checksum happens to fit, and otherwise not at all. */
  lemma TornFlush(crc: Checksum, w: World, a: Action, page: Page) returns (v: World)
    requires Sizable(w.device) && 1 <= w.device.N() as nat == |w.device.status| <= 92
    requires |w.disk| > 0 && FlushDue(w)
    requires (a.BorderWrite? || a.IdleWrite?) && Can(crc, Masking(crc, w), a)
    requires Sizable(Do(crc, Masking(crc, w), a).device)
    requires StartsWith(page, InMemory(Do(crc, Masking(crc, w), a)))
    ensures Interleaving(crc, w, SEAL_STEPS + ([a] + FlushSteps(page)))
    ensures v == After(crc, w, SEAL_STEPS + ([a] + FlushSteps(page)))
    ensures v.owner.Nobody? && !v.pending.flag.Any() && Sizable(v.device)
    ensures Loaded(crc, v.disk) ==
            if Sum(crc, w.device, w.idle) == Sum(crc, v.device, v.idle) then Some(PersistedOf(v.device)) else None
  {
    var m := Masking(crc, w);
    var u := Do(crc, m, a);
    SealStepsRun(crc, w);
    FlushStepsRun(crc, u, page);
    Prepend(crc, m, a, FlushSteps(page));
    Concat(crc, w, SEAL_STEPS, [a] + FlushSteps(page));
    v := After(crc, u, FlushSteps(page));
    FlushedLoadsIff(crc, w.disk, page, u.device, u.idle, u.crc32);
  }

  /** Where the status entry of zone `i` of `n` stands in the state. */
  function EntryAt(n: nat, i: nat): nat { 40 + 20 * n + 24 * i }

  /** The bytes a durable disk loads. */
  lemma DurableBytes(crc: Checksum, disk: seq<Page>, d: Device) returns (b: Bytes)
    requires d.Valid() && Durable(crc, disk, d)
    ensures b == DiskBytes(disk, |b|) && Readable(b) && Recovered(b) == PersistedOf(d)
  {
    b := LoadBytes(crc, disk).value;
  }

  /** The status entry of zone `i` in them. */
  lemma RecoveredEntry(b: Bytes, d: Device, i: nat)
    requires d.Valid() && Readable(b) && Recovered(b) == PersistedOf(d) && i < d.N()
    ensures EntryAt(d.N(), i) + 24 <= |b| && ReadStatus(b, EntryAt(d.N(), i)) == d.status[i]
  {
    var p := Recovered(b);
    assert |p.status| == d.N() as nat;
    assert p.status[i] == d.status[i];
  }

  lemma SameBytesSameStatus(a: Bytes, b: Bytes, at: nat)
    requires at + 24 <= |a| && at + 24 <= |b|
    requires forall k :: at <= k < at + 24 ==> a[k] == b[k]
    ensures ReadStatus(a, at) == ReadStatus(b, at)
  {}

  /** After a flush a zone whose status lies behind the first page loads as it was before. */
  lemma FlushLosesFarZone(crc: Checksum, disk: seq<Page>, page: Page, before: Device, after: Device, i: nat)
    requires before.Valid() && Durable(crc, disk, before) && |disk| > 0
    requires after.Valid() && after.N() == before.N() && i < after.N()
    requires EntryAt(after.N(), i) >= PAGE_SIZE && before.status[i] != after.status[i]
    ensures !Durable(crc, disk[0 := page], after)
  {
    if Durable(crc, disk[0 := page], after) {
      var at := EntryAt(after.N(), i);
      var b := DurableBytes(crc, disk, before);
      var b' := DurableBytes(crc, disk[0 := page], after);
      RecoveredEntry(b, before, i);
      RecoveredEntry(b', after, i);
      BehindFirstPage(disk, page, |b|, |b'|, at);
      SameBytesSameStatus(b, b', at);
    }
  }

  lemma BehindFirstPage(disk: seq<Page>, page: Page, n: nat, n': nat, at: nat)
    requires |disk| > 0 && at >= PAGE_SIZE && at + 24 <= n && at + 24 <= n'
    ensures forall k :: at <= k < at + 24 ==> DiskBytes(disk, n)[k] == DiskBytes(disk[0 := page], n')[k]
  {
    forall k | at <= k < at + 24
      ensures DiskByte(disk, k) == DiskByte(disk[0 := page], k)
    {
      assert k / PAGE_SIZE >= 1;
    }
  }

  /** One mapped write, then the flush it causes. */
  function WriteThenFlush(rq: ZoneTypes.Request, page: Page): seq<Action> { OneRequest(rq) + OneFlush(page) }

  function FirstPage(b: Bytes): (page: Page)
    requires |b| >= PAGE_SIZE
    ensures StartsWith(page, b)
  {
    b[..PAGE_SIZE]
  }

  /** The flush of a state with more than one page, when the disk still holds an older one. */
  lemma FarFlushIsLost(crc: Checksum, w: World, before: Device, i: nat) returns (page: Page)
    requires Sizable(w.device) && |w.disk| > 0 && FlushDue(w)
    requires before.Valid() && before.N() == w.device.N() && Durable(crc, w.disk, before) && i < before.N()
    requires EntryAt(before.N(), i) >= PAGE_SIZE && before.status[i] != w.device.status[i]
    ensures Interleaving(crc, w, OneFlush(page)) && After(crc, w, OneFlush(page)) == Flushed(crc, w, page)
    ensures !Durable(crc, Flushed(crc, w, page).disk, w.device)
  {
    page := FirstPage(InMemory(Masking(crc, w)));
    OneFlushRuns(crc, w, page);
    FlushLosesFarZone(crc, w.disk, page, before, w.device, i);
  }

  /** A mapped write that changes the status entry of live zone `i`, behind the first page. */
  predicate ChangesFarZone(d: Device, rq: ZoneTypes.Request, i: nat)
    requires d.Valid()
  {
    && MapInTable(d, rq) && Map(d, rq).mark.StatusMark?
    && i < d.N() && EntryAt(d.N(), i) >= PAGE_SIZE
    && Map(d, rq).device.status[i] != d.status[i]
  }

  /** The run ends in `v`, quiet, and the disk does not load as the state in memory. */
  ghost predicate EndsStale(crc: Checksum, w: World, actions: seq<Action>, v: World) {
    && Interleaving(crc, w, actions) && v == After(crc, w, actions)
    && Quiet(v) && v.device.Valid() && !Durable(crc, v.disk, v.device)
  }

  /** A mapped write that changes the status of a zone behind the first page is lost by the flush it
      causes: the run ends quiet and the disk does not load as the state in memory. */
  lemma FarWriteIsLost(crc: Checksum, w: World, rq: ZoneTypes.Request, i: nat) returns (page: Page, v: World)
    requires Started(crc, w)
    requires ChangesFarZone(w.device, rq, i)
    ensures EndsStale(crc, w, WriteThenFlush(rq, page), v) && v.device == Map(w.device, rq).device
  {
    OneRequestRuns(crc, w, rq);
    var u := Served(w, rq);
    DirtyAfterWrite(crc, w, rq);
    page := FarFlushIsLost(crc, u, w.device, i);
    Concat(crc, w, OneRequest(rq), OneFlush(page));
    v := Flushed(crc, u, page);
  }

  /** A mapped write from a started state leaves a flush due, with the disk as it was. */
  lemma DirtyAfterWrite(crc: Checksum, w: World, rq: ZoneTypes.Request)
    requires Started(crc, w) && MapInTable(w.device, rq) && Map(w.device, rq).mark.StatusMark?
    ensures
      var u := Served(w, rq);
      && FlushDue(u) && u.config.NoConfig? && Sizable(u.device) && u.device.N() == w.device.N()
      && u.disk == w.disk && |u.disk| > 0 && Durable(crc, u.disk, w.device)
  {
    FirstMark(Map(w.device, rq).mark);
    IoShape(w.device, rq);
  }

  lemma FirstMark(m: Mark)
    requires m.StatusMark?
    ensures
      var p := Marked(NOTHING_PENDING, m);
      p.flag == STATUS_CHANGE && p.gap < PAGE_GAP
  {}

  /** From 93 zones on, in every strict state with nothing written to the last zone, initialisation
      among them, one block written there is lost: 92 zones are the most for which the protocol is
      durable. */
  lemma NinetyThreeZonesLoseAWrite(crc: Checksum, w: World)
    returns (rq: ZoneTypes.Request, page: Page, v: World)
    requires Started(crc, w) && StrictState(w.device)
    requires w.device.N() >= 93 && w.device.status[w.device.N() - 1].wp == 0
    ensures rq.dir.Write? && rq.sectors == 8 && ZoneOf(w.device, rq.lba) == w.device.N() - 1
    ensures EndsStale(crc, w, WriteThenFlush(rq, page), v)
  {
    var last: nat := w.device.N() - 1;
    rq := LastBlock(w.device, last);
    page, v := FarWriteIsLost(crc, w, rq, last);
  }

  lemma LastBlock(d: Device, last: nat) returns (rq: ZoneTypes.Request)
    requires TableShape(d) && StrictState(d) && d.N() as nat == last + 1 >= 93 && d.status[last].wp == 0
    ensures rq.dir.Write? && rq.sectors == 8 && ZoneOf(d, rq.lba) as nat == last
    ensures ChangesFarZone(d, rq, last)
  {
    ManyZonesAreSmall(d);
    rq := BlockAtStart(d, last);
  }

  lemma BlockAtStart(d: Device, j: nat) returns (rq: ZoneTypes.Request)
    requires StrictState(d) && d.layout.zoneShift < ZONE_SIZE_SHIFT_MAX && j < d.N() && d.status[j].wp == 0
    ensures rq.dir.Write? && rq.sectors == 8 && ZoneOf(d, rq.lba) == j && MapInTable(d, rq)
    ensures Map(d, rq).mark.StatusMark? && Map(d, rq).device.status[j].wp == 8
  {
    WriteFromStart(d, j, 8);
    rq := ZoneTypes.Request.Request(Write, j * d.Z(), 8);
  }

  lemma ManyZonesAreSmall(d: Device)
    requires TableShape(d) && d.N() >= 93
    ensures d.layout.zoneShift < ZONE_SIZE_SHIFT_MAX
  {
    ZoneCountExact(d.layout.capacity, d.layout.zoneShift);
    MulMonotone(93, |d.status|, d.Z());
    Pow2Values();
  }
}
