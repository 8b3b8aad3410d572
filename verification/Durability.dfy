/** The flag and lock protocol between requests, configuration calls and the persistence thread, as
    interleaved steps: what is lost between memory and disk, and what is not. */
module Durability {
  import opened Geometry
  import opened ZoneTypes
  import opened ZoneRules
  import opened Operations
  import opened ConfigRuns
  import opened DirtyQueue
  import opened Persistence
  import opened StateImage

  // -------------------------------------------------------------- the states

  datatype Owner = Nobody | Request | Config | Task

  /** A request holds the zone lock from its first test to its last flag update. */
  datatype RequestPc = NoRequest | Checking | Marking(mark: Mark) | Answered

  /** A configuration call changes the device under the zone lock, possibly in several critical
      sections, and sets the change flag after releasing it. */
  datatype ConfigPc = NoConfig | Changing(changed: bool) | Unflagged

  datatype AfterSave = KeepQueue | DropQueue

  /** Program points of the persistence thread. Both a save and a flush compute the checksum first and
      copy the state to disk later. */
  datatype TaskPc =
    | Asleep
    | Awake
    | Deciding
    | SealSave(after: AfterSave)
    | Copying(after: AfterSave)
    | Copied(after: AfterSave)
    | Dropping
    | SealFlush
    | MaskConfig
    | ClearConfig
    | FlushPage
    | MaskStats
    | MoreStatsPages
    | MaskStatus
    | MoreStatusPages
    | Leaving

  /** The state in memory is the device, the idle times and the checksum field of the header. */
  datatype World = World(
    device: Device,
    idle: Idle,
    crc32: u32,
    disk: seq<Page>,
    pending: Pending,
    owner: Owner,
    request: RequestPc,
    config: ConfigPc,
    task: TaskPc)

  /** Configuration calls that change the device only under the zone lock. */
  predicate Locked(op: Op) {
    op.ZoneReset? || op.SizeChange? || op.ZoneConfigReset? || op.DeviceConfigReset?
    || op.Add? || op.Modify? || op.ReadPolicy? || op.WritePolicy?
  }

  predicate Accepted(d: Device, op: Op)
    requires d.Valid()
  {
    match op
    case ZoneReset(sector) => ResetAccepted(d, sector)
    case SizeChange(size) => SizeAccepted(size)
    case Add(e) => AddAccepted(d, e)
    case Modify(e) => ModifyAccepted(d, e)
    case _ => true
  }

  /** The size of the state is a 32-bit value. */
  predicate Sizable(d: Device) {
    TableShape(d) && StateSize(|d.status|) < TWO32
  }

  /** Border flags and idle times are written without the zone lock, and nothing marks them as
      changed. One border call writes the flags of several zones one by one. */
  datatype Action =
    | RequestLock
    | RequestCheck(rq: ZoneTypes.Request)
    | RequestMark
    | RequestUnlock
    | ConfigLock
    | ConfigChange(op: Op)
    | ConfigUnlock
    | ConfigFlag
    | Switch(switches: Switches)
    | BorderWrite(zone: nat, code: u8)
    | IdleWrite(idle: Idle)
    | TaskPoll
    | TaskLock
    | TaskDecide
    | TaskSeal
    | TaskSave(disk: seq<Page>)
    | TaskForget
    | TaskDrop
    | TaskMaskConfig
    | TaskClearConfig
    | TaskFlush(page: Page)
    | TaskMaskStats
    | TaskMaskStatus
    | TaskUnlock

  /** The checksum of the state in memory. */
  function Sum(crc: Checksum, d: Device, idle: Idle): u32
    requires d.Valid() && StateSize(|d.status|) < TWO32
  {
    crc(Image(d, idle, 0)[HEADER_SIZE..])
  }

  /** It covers the state from byte 16 on, whatever the checksum field holds. */
  lemma SumCovers(crc: Checksum, d: Device, idle: Idle, stale: u32)
    requires d.Valid() && StateSize(|d.status|) < TWO32
    ensures Sum(crc, d, idle) == crc(Image(d, idle, stale)[16..])
  {
    ImageBody(d, idle, stale, 0);
  }

  /** The bytes of the state in memory, with whatever the checksum field holds. */
  function InMemory(w: World): Bytes
    requires w.device.Valid() && StateSize(|w.device.status|) < TWO32
  {
    Image(w.device, w.idle, w.crc32)
  }

  predicate StartsWith(page: Page, bytes: Bytes) {
    forall o :: 0 <= o < |bytes| && o < PAGE_SIZE ==> page[o] == bytes[o]
  }

  predicate BorderWritable(d: Device, zone: nat, code: u8)
    requires d.Valid()
  {
    && zone < |d.status|
    && (code == CROSS_CUR || (zone < d.N() && (code == CROSS_OFF || (code == CROSS_SEQ && d.IsSeq(zone)))))
  }

  ghost predicate Can(crc: Checksum, w: World, a: Action) {
    match a
    case RequestLock => w.owner.Nobody?
    case RequestCheck(rq) => w.request.Checking? && w.device.Valid() && MapInTable(w.device, rq)
    case RequestMark => w.request.Marking?
    case RequestUnlock => w.request.Answered?
    case ConfigLock => w.owner.Nobody? && !w.config.Changing?
    case ConfigChange(op) =>
      && w.config.Changing? && Locked(op)
      && w.device.Valid() && Enabled(w.device, op) && Sizable(Step(w.device, op))
    case ConfigUnlock => w.config.Changing?
    case ConfigFlag => w.config.Unflagged?
    case Switch(_) => true
    case BorderWrite(zone, code) => w.device.Valid() && BorderWritable(w.device, zone, code)
    case IdleWrite(_) => true
    case TaskPoll => w.task.Asleep? && w.pending.flag.Any()
    case TaskLock => w.task.Awake? && w.owner.Nobody?
    case TaskDecide => w.task.Deciding?
    case TaskSeal => (w.task.SealSave? || w.task.SealFlush?) && Sizable(w.device)
    case TaskSave(disk) => w.task.Copying? && Sizable(w.device) && Holds(disk, InMemory(w))
    case TaskForget => w.task.Copied?
    case TaskDrop => w.task.Dropping?
    case TaskMaskConfig => w.task.MaskConfig?
    case TaskClearConfig => w.task.ClearConfig?
    case TaskFlush(page) =>
      w.task.FlushPage? && Sizable(w.device) && |w.disk| > 0 && StartsWith(page, InMemory(w))
    case TaskMaskStats => w.task.MaskStats?
    case TaskMaskStatus => w.task.MaskStatus?
    case TaskUnlock => w.task.Leaving?
  }

  function WithFlags(p: Pending, flag: ChangeFlags): Pending { p.(flag := flag) }

  ghost function Do(crc: Checksum, w: World, a: Action): World
    requires Can(crc, w, a)
  {
    match a
    case RequestLock => w.(owner := Owner.Request, request := Checking)
    case RequestCheck(rq) =>
      var r := Map(w.device, rq);
      w.(device := r.device, request := Marking(r.mark))
    case RequestMark => w.(pending := Marked(w.pending, w.request.mark), request := Answered)
    case RequestUnlock => w.(owner := Nobody, request := NoRequest)
    case ConfigLock => w.(owner := Owner.Config, config := Changing(w.config.Unflagged?))
    case ConfigChange(op) =>
      w.(device := Step(w.device, op), config := Changing(w.config.changed || Accepted(w.device, op)))
    case ConfigUnlock => w.(owner := Nobody, config := if w.config.changed then Unflagged else NoConfig)
    case ConfigFlag => w.(pending := WithFlags(w.pending, w.pending.flag.Set(CONFIG_CHANGE)), config := NoConfig)
    case Switch(s) => w.(device := w.device.(switches := s))
    case BorderWrite(zone, code) => w.(device := SetStatus(w.device, zone, WithFlag(w.device.status[zone], code)))
    case IdleWrite(idle) => w.(idle := idle)
    case TaskPoll => w.(task := Awake)
    case TaskLock => w.(owner := Owner.Task, task := Deciding)
    case TaskDecide =>
      w.(task := if w.pending.flag.config then (if w.device.N() == 0 then Dropping else SealSave(KeepQueue))
                 else if w.pending.gap >= PAGE_GAP then SealSave(DropQueue)
                 else SealFlush)
    case TaskSeal =>
      w.(crc32 := Sum(crc, w.device, w.idle),
         task := if w.task.SealSave? then Copying(w.task.after) else MaskConfig)
    case TaskSave(disk) => w.(disk := disk, task := Copied(w.task.after))
    case TaskForget =>
      w.(pending := if w.task.after.DropQueue? then w.pending.(flag := NO_CHANGE, gap := 0, queue := [])
                    else WithFlags(w.pending, NO_CHANGE),
         task := Leaving)
    case TaskDrop => w.(pending := WithFlags(w.pending, NO_CHANGE), task := Leaving)
    case TaskMaskConfig =>
      var flag := w.pending.flag.Keep(CONFIG_CHANGE);
      w.(pending := WithFlags(w.pending, flag), task := if flag.Any() then ClearConfig else FlushPage)
    case TaskClearConfig =>
      w.(pending := WithFlags(w.pending, w.pending.flag.Keep(ALL_BUT_CONFIG)), task := FlushPage)
    case TaskFlush(page) => w.(disk := w.disk[0 := page], task := MaskStats)
    case TaskMaskStats =>
      var flag := w.pending.flag.Keep(STATS_CHANGE);
      w.(pending := WithFlags(w.pending, flag), task := if flag.Any() then MoreStatsPages else MaskStatus)
    case TaskMaskStatus =>
      var flag := w.pending.flag.Keep(STATUS_CHANGE);
      w.(pending := WithFlags(w.pending, flag), task := if flag.Any() then MoreStatusPages else Leaving)
    case TaskUnlock => w.(owner := Nobody, task := Asleep)
  }

  ghost predicate Interleaving(crc: Checksum, w: World, actions: seq<Action>)
    decreases |actions|
  {
    actions != [] ==> Can(crc, w, actions[0]) && Interleaving(crc, Do(crc, w, actions[0]), actions[1..])
  }

  ghost function After(crc: Checksum, w: World, actions: seq<Action>): World
    requires Interleaving(crc, w, actions)
    decreases |actions|
  {
    if actions == [] then w else After(crc, Do(crc, w, actions[0]), actions[1..])
  }

  // ------------------------------------------------------- locks and flags

  predicate TaskHolds(t: TaskPc) { !t.Asleep? && !t.Awake? }

  /** Who holds the lock, and that a flush has masked away every flag that would make it write more. */
  predicate Locks(w: World) {
    && (w.owner == Owner.Request <==> !w.request.NoRequest?)
    && (w.owner == Owner.Config <==> w.config.Changing?)
    && (w.owner == Owner.Task <==> TaskHolds(w.task))
    && !w.task.MoreStatsPages? && !w.task.MoreStatusPages?
    && (w.task.ClearConfig? || w.task.FlushPage? || w.task.MaskStats? || w.task.MaskStatus? ==>
          !w.pending.flag.stats && !w.pending.flag.status)
  }

  lemma LocksStep(crc: Checksum, w: World, a: Action)
    requires Locks(w) && Can(crc, w, a)
    ensures Locks(Do(crc, w, a))
  {
    if a.RequestLock? || a.RequestCheck? || a.RequestMark? || a.RequestUnlock? {
    } else if a.ConfigLock? || a.ConfigChange? || a.ConfigUnlock? || a.ConfigFlag? {
    } else if a.Switch? || a.BorderWrite? || a.IdleWrite? {
    } else if a.TaskPoll? || a.TaskLock? || a.TaskDecide? || a.TaskSeal? {
      DecidingKeepsLocks(crc, w, a);
    } else if a.TaskSave? || a.TaskFlush? {
      WritingKeepsLocks(crc, w, a);
    } else if a.TaskForget? || a.TaskDrop? || a.TaskUnlock? {
      LeavingKeepsLocks(crc, w, a);
    } else {
      MaskingKeepsLocks(crc, w, a);
    }
  }

  lemma DecidingKeepsLocks(crc: Checksum, w: World, a: Action)
    requires Locks(w) && Can(crc, w, a) && (a.TaskPoll? || a.TaskLock? || a.TaskDecide? || a.TaskSeal?)
    ensures Locks(Do(crc, w, a))
  {}

  lemma WritingKeepsLocks(crc: Checksum, w: World, a: Action)
    requires Locks(w) && Can(crc, w, a) && (a.TaskSave? || a.TaskFlush?)
    ensures Locks(Do(crc, w, a))
  {}

  lemma LeavingKeepsLocks(crc: Checksum, w: World, a: Action)
    requires Locks(w) && Can(crc, w, a) && (a.TaskForget? || a.TaskDrop? || a.TaskUnlock?)
    ensures Locks(Do(crc, w, a))
  {}

  lemma MaskingKeepsLocks(crc: Checksum, w: World, a: Action)
    requires Locks(w) && Can(crc, w, a)
    requires a.TaskMaskConfig? || a.TaskClearConfig? || a.TaskMaskStats? || a.TaskMaskStatus?
    ensures Locks(Do(crc, w, a))
  {}

  lemma {:induction false} LocksAlways(crc: Checksum, w: World, actions: seq<Action>)
    requires Locks(w) && Interleaving(crc, w, actions)
    ensures Locks(After(crc, w, actions))
    decreases |actions|
  {
    if actions == [] {
    } else {
      LocksStep(crc, w, actions[0]);
      LocksAlways(crc, Do(crc, w, actions[0]), actions[1..]);
    }
  }

  /** Nobody is at work. */
  predicate AtRest(w: World) {
    w.owner.Nobody? && w.request.NoRequest? && w.config.NoConfig? && w.task.Asleep?
  }

  /** Under every interleaving, for any number of zones, the flush writes no page but the first. */
  lemma FlushStopsAtFirstPage(crc: Checksum, w: World, actions: seq<Action>)
    requires AtRest(w) && Interleaving(crc, w, actions)
    ensures
      var v := After(crc, w, actions);
      !v.task.MoreStatsPages? && !v.task.MoreStatusPages?
  {
    LocksAlways(crc, w, actions);
  }

  // ------------------------------------------------------------- what loads

  predicate Readable(b: Bytes) {
    |b| >= 40 && Read32(b, 36) >= 1 && StateSize(Read32(b, 36)) <= |b|
  }

  /** What loading the disk recovers, if anything. */
  function Loaded(crc: Checksum, disk: seq<Page>): Option<Persisted> {
    if !HeaderSane(disk) then None
    else
      match LoadBytes(crc, disk)
      case None => None
      case Some(b) => if Readable(b) then Some(Recovered(b)) else None
  }

  /** Loading the disk gives back what the device in memory persists. */
  predicate Durable(crc: Checksum, disk: seq<Page>, d: Device)
    requires d.Valid()
  {
    Loaded(crc, disk) == Some(PersistedOf(d))
  }

  function BorderFlags(p: Persisted): seq<u8> {
    seq(|p.status|, i requires 0 <= i < |p.status| => p.status[i].flag)
  }

  /** The persisted state with or without its border flags. */
  function View(p: Persisted, flagsToo: bool): Persisted {
    if flagsToo then p
    else p.(status := seq(|p.status|, i requires 0 <= i < |p.status| => WithFlag(p.status[i], CROSS_OFF)))
  }

  predicate OnDisk(crc: Checksum, disk: seq<Page>, d: Device, flagsToo: bool)
    requires d.Valid()
  {
    Loaded(crc, disk).Some? && View(Loaded(crc, disk).value, flagsToo) == View(PersistedOf(d), flagsToo)
  }

  /** States that agree apart from border flags are equal exactly if those agree too. */
  lemma FlagsDecide(p: Persisted, q: Persisted)
    requires View(p, false) == View(q, false)
    ensures p == q <==> BorderFlags(p) == BorderFlags(q)
  {
    if BorderFlags(p) == BorderFlags(q) {
      assert |p.status| == |View(p, false).status| == |q.status|;
      forall i | 0 <= i < |p.status|
        ensures p.status[i] == q.status[i]
      {
        assert View(p, false).status[i] == View(q, false).status[i];
        assert BorderFlags(p)[i] == BorderFlags(q)[i];
      }
      assert p.status == q.status;
    }
  }

  /** Every allocated zone is live, the state fits one page, and out-of-policy reads are not
      satisfied: those would change counters without leaving a mark. */
  predicate Storable(d: Device) {
    && Sizable(d)
    && d.N() as nat == |d.status|
    && 1 <= d.N() <= 92
    && d.policy.readFlag != 1
  }

  /** State bytes on disk load exactly if their checksum field fits them. */
  lemma HeldLoadsIff(crc: Checksum, disk: seq<Page>, d: Device, idle: Idle, sum: u32)
    requires Sizable(d) && d.N() as nat == |d.status| >= 1 && Holds(disk, Image(d, idle, sum))
    ensures Loaded(crc, disk) == if sum == Sum(crc, d, idle) then Some(PersistedOf(d)) else None
  {
    HeldBytes(crc, disk, d, idle, sum);
    ImageReadable(d, idle, sum);
    LoadedBytes(crc, disk, Image(d, idle, sum));
  }

  lemma HeldBytes(crc: Checksum, disk: seq<Page>, d: Device, idle: Idle, sum: u32)
    requires d.Valid() && StateSize(|d.status|) < TWO32 && Holds(disk, Image(d, idle, sum))
    ensures HeaderSane(disk)
    ensures LoadBytes(crc, disk) == if sum == Sum(crc, d, idle) then Some(Image(d, idle, sum)) else None
  {
    ImageWellFormed(d, idle, sum);
    ImageBody(d, idle, sum, 0);
    HeldBytesLoadIff(crc, disk, Image(d, idle, sum));
  }

  lemma ImageReadable(d: Device, idle: Idle, sum: u32)
    requires Sizable(d) && d.N() as nat == |d.status| >= 1
    ensures Readable(Image(d, idle, sum)) && Recovered(Image(d, idle, sum)) == PersistedOf(d)
  {
    FullTableRecovered(d, idle, sum);
  }

  lemma LoadedBytes(crc: Checksum, disk: seq<Page>, b: Bytes)
    requires HeaderSane(disk) && Readable(b)
    ensures LoadBytes(crc, disk) == Some(b) ==> Loaded(crc, disk) == Some(Recovered(b))
    ensures LoadBytes(crc, disk) == None ==> Loaded(crc, disk) == None
  {}

  /** With at most 92 zones the same holds for the first page alone. */
  lemma FlushedLoadsIff(crc: Checksum, disk: seq<Page>, page: Page, d: Device, idle: Idle, sum: u32)
    requires Sizable(d) && 1 <= d.N() as nat == |d.status| <= 92
    requires |disk| > 0 && StartsWith(page, Image(d, idle, sum))
    ensures Loaded(crc, disk[0 := page]) == if sum == Sum(crc, d, idle) then Some(PersistedOf(d)) else None
  {
    OnePageUpTo92Zones(d.N());
    var b := Image(d, idle, sum);
    forall i | 0 <= i < |b|
      ensures DiskByte(disk[0 := page], i) == b[i]
    {}
    HeldLoadsIff(crc, disk[0 := page], d, idle, sum);
  }

  /** A request that changes the device leaves a mark, unless out-of-policy reads are satisfied. */
  lemma UnmarkedMeansUnchanged(d: Device, rq: ZoneTypes.Request)
    requires d.Valid() && MapInTable(d, rq) && d.policy.readFlag != 1
    ensures Map(d, rq).mark.NoMark? ==> Map(d, rq).device == d
  {}

  // --------------------------------------------------------------- invariant

  predicate TaskWritten(t: TaskPc) { t.Copied? || t.MaskStats? || t.MaskStatus? || t.Leaving? }

  /** Between the checksum and the copy. */
  predicate InWindow(t: TaskPc) { t.Copying? || t.MaskConfig? || t.ClearConfig? || t.FlushPage? }

  /** Memory is on disk, or a flag says that it is not, or a configuration call is about to. */
  predicate Accounted(w: World, saved: bool) {
    saved || w.pending.flag.Any() || w.config.Unflagged?
  }

  /** The part of the invariant about locks, flags and program points; `saved` says whether the disk
      holds the state in memory. */
  predicate Control(w: World, saved: bool) {
    && Locks(w)
    && !w.task.Dropping?
    && match w.owner
       case Nobody => Accounted(w, saved)
       case Request => (w.request.Marking? && !w.request.mark.NoMark?) || Accounted(w, saved)
       case Config => w.config.changed || Accounted(w, saved)
       case Task => TaskWritten(w.task) ==> saved
  }

  predicate Inv(crc: Checksum, w: World, flagsToo: bool) {
    && Storable(w.device)
    && |w.disk| > 0
    && Control(w, OnDisk(crc, w.disk, w.device, flagsToo))
    && (InWindow(w.task) ==> w.crc32 == Sum(crc, w.device, w.idle))
  }

  /** What is asked of a step: configuration calls leave a storable device, and what is written
      without the lock changes nothing between checksum and copy; border flags not at any time, if
      they too are to be on disk. */
  predicate Tame(w: World, a: Action, flagsToo: bool)
    requires w.device.Valid()
  {
    match a
    case ConfigChange(op) => Enabled(w.device, op) ==> Storable(Step(w.device, op))
    case BorderWrite(zone, code) =>
      (flagsToo || InWindow(w.task)) && zone < |w.device.status| ==> w.device.status[zone].flag == code
    case IdleWrite(idle) => InWindow(w.task) ==> idle == w.idle
    case _ => true
  }

  /** The actions that touch nothing but locks, flags and program points. */
  predicate ControlOnly(a: Action) {
    && !a.RequestCheck? && !a.ConfigChange? && !a.Switch? && !a.BorderWrite? && !a.IdleWrite?
    && !a.TaskSeal? && !a.TaskSave? && !a.TaskFlush?
  }

  lemma ControlStep(crc: Checksum, w: World, a: Action, saved: bool)
    requires Control(w, saved) && Can(crc, w, a) && ControlOnly(a) && w.device.N() >= 1
    ensures Control(Do(crc, w, a), saved)
    ensures var r := Do(crc, w, a); r == w.(pending := r.pending, owner := r.owner, request := r.request,
                                             config := r.config, task := r.task)
    ensures InWindow(Do(crc, w, a).task) ==> InWindow(w.task)
  {
    LocksStep(crc, w, a);
  }

  /** A step changes the device or the idle times. */
  lemma ChangeStep(crc: Checksum, w: World, a: Action, saved: bool, saved': bool)
    requires Control(w, saved) && Can(crc, w, a)
    requires a.RequestCheck? || a.ConfigChange? || a.Switch? || a.BorderWrite? || a.IdleWrite?
    requires a.RequestCheck? && Map(w.device, a.rq).mark.NoMark? ==> saved' == saved
    requires a.ConfigChange? && !Accepted(w.device, a.op) ==> saved' == saved
    requires a.Switch? || a.BorderWrite? || a.IdleWrite? ==> saved' == saved
    ensures Control(Do(crc, w, a), saved')
    ensures Do(crc, w, a).task == w.task && Do(crc, w, a).disk == w.disk
    ensures a.RequestCheck? || a.ConfigChange? ==> !InWindow(w.task)
  {}

  lemma WriteControl(crc: Checksum, w: World, a: Action, saved: bool)
    requires Control(w, saved) && Can(crc, w, a) && (a.TaskSave? || a.TaskFlush?)
    ensures Control(Do(crc, w, a), true) && !InWindow(Do(crc, w, a).task)
    ensures Do(crc, w, a).device == w.device
  {
    LocksStep(crc, w, a);
  }

  lemma SealControl(crc: Checksum, w: World, saved: bool)
    requires Control(w, saved) && Can(crc, w, TaskSeal)
    ensures Control(Do(crc, w, TaskSeal), saved)
  {}

  lemma RefusedChangesNothing(d: Device, op: Op)
    requires d.Valid() && Enabled(d, op) && Locked(op) && !Accepted(d, op)
    ensures Step(d, op) == d
  {}

  /** Neither the research switches nor, in the view without them, the border flags are persisted; a
      border write that repeats the flag changes nothing at all. */
  lemma SwitchesNotPersisted(d: Device, s: Switches)
    requires Storable(d)
    ensures Storable(d.(switches := s)) && PersistedOf(d.(switches := s)) == PersistedOf(d)
  {}

  lemma SameSumForSwitches(crc: Checksum, d: Device, s: Switches, idle: Idle)
    requires Storable(d)
    ensures Sum(crc, d.(switches := s), idle) == Sum(crc, d, idle)
  {}

  lemma BorderKeepsView(d: Device, zone: nat, code: u8)
    requires Storable(d) && zone < |d.status|
    ensures
      var r := SetStatus(d, zone, WithFlag(d.status[zone], code));
      && Storable(r)
      && View(PersistedOf(r), false) == View(PersistedOf(d), false)
      && (d.status[zone].flag == code ==> r == d)
  {
    var r := SetStatus(d, zone, WithFlag(d.status[zone], code));
    assert r.status[..d.N()] == d.status[..d.N()][zone := r.status[zone]];
    assert View(PersistedOf(r), false).status == View(PersistedOf(d), false).status;
    if d.status[zone].flag == code { assert r.status == d.status; }
  }

  lemma AnyStep(crc: Checksum, w: World, a: Action, flagsToo: bool)
    requires Inv(crc, w, flagsToo) && Can(crc, w, a) && Tame(w, a, flagsToo)
    ensures Inv(crc, Do(crc, w, a), flagsToo)
  {
    var saved := OnDisk(crc, w.disk, w.device, flagsToo);
    if ControlOnly(a) {
      ControlStep(crc, w, a, saved);
    } else if a.TaskSeal? {
      SealControl(crc, w, saved);
    } else if a.TaskSave? {
      WriteControl(crc, w, a, saved);
      HeldLoadsIff(crc, a.disk, w.device, w.idle, w.crc32);
      SavedNotEmpty(a.disk, w.device, w.idle, w.crc32);
    } else if a.TaskFlush? {
      WriteControl(crc, w, a, saved);
      FlushedLoadsIff(crc, w.disk, a.page, w.device, w.idle, w.crc32);
    } else {
      MemoryStep(crc, w, a, flagsToo);
    }
  }

  lemma MemoryStep(crc: Checksum, w: World, a: Action, flagsToo: bool)
    requires Inv(crc, w, flagsToo) && Can(crc, w, a) && Tame(w, a, flagsToo)
    requires a.RequestCheck? || a.ConfigChange? || a.Switch? || a.BorderWrite? || a.IdleWrite?
    ensures Inv(crc, Do(crc, w, a), flagsToo)
  {
    var r := Do(crc, w, a);
    if a.RequestCheck? {
      UnmarkedMeansUnchanged(w.device, a.rq);
      ShapeStep(w.device, Io(a.rq));
    } else if a.ConfigChange? {
      if !Accepted(w.device, a.op) { RefusedChangesNothing(w.device, a.op); }
    } else {
      UnlockedStep(crc, w, a, flagsToo);
    }
    ChangeStep(crc, w, a, OnDisk(crc, w.disk, w.device, flagsToo), OnDisk(crc, r.disk, r.device, flagsToo));
  }

  lemma UnlockedStep(crc: Checksum, w: World, a: Action, flagsToo: bool)
    requires Inv(crc, w, flagsToo) && Can(crc, w, a) && Tame(w, a, flagsToo)
    requires a.Switch? || a.BorderWrite? || a.IdleWrite?
    ensures
      var r := Do(crc, w, a);
      && Storable(r.device)
      && OnDisk(crc, r.disk, r.device, flagsToo) == OnDisk(crc, w.disk, w.device, flagsToo)
      && (InWindow(r.task) ==> r.crc32 == Sum(crc, r.device, r.idle))
  {
    if a.Switch? {
      SwitchesNotPersisted(w.device, a.switches);
      SameSumForSwitches(crc, w.device, a.switches, w.idle);
    } else if a.BorderWrite? {
      BorderKeepsView(w.device, a.zone, a.code);
    }
  }

  /** The magic number cannot be held by no page at all. */
  lemma SavedNotEmpty(disk: seq<Page>, d: Device, idle: Idle, sum: u32)
    requires Sizable(d) && Holds(disk, Image(d, idle, sum))
    ensures |disk| > 0
  {
    ImageWellFormed(d, idle, sum);
    HeaderOnDisk(disk, Image(d, idle, sum));
  }

  // ------------------------------------------------------------ whole runs

  /** After start-up the disk holds the state, whether it was loaded or just saved. */
  predicate Started(crc: Checksum, w: World) {
    && Sizable(w.device) && |w.disk| > 0 && Durable(crc, w.disk, w.device)
    && w.pending == NOTHING_PENDING
    && AtRest(w)
  }

  /** Start-up that saves the state it has set up, as `SavePersistence` does, begins a run. */
  lemma StartedBySaving(crc: Checksum, d: Device, disk: seq<Page>, idle: Idle, stale: u32, crc32: u32)
    requires Sizable(d) && d.N() as nat == |d.status| >= 1
    requires Holds(disk, WithChecksum(crc, Image(d, idle, stale)))
    ensures Started(crc, World(d, idle, crc32, disk, NOTHING_PENDING, Nobody, NoRequest, NoConfig, Asleep))
  {
    ImageWithChecksum(crc, d, idle, stale);
    ImageBody(d, idle, stale, 0);
    HeldLoadsIff(crc, disk, d, idle, Sum(crc, d, idle));
    SavedNotEmpty(disk, d, idle, Sum(crc, d, idle));
  }

  /** Every step of the run is tame. */
  ghost predicate TameRun(crc: Checksum, w: World, actions: seq<Action>, flagsToo: bool)
    requires Interleaving(crc, w, actions)
    decreases |actions|
  {
    actions != [] ==>
      && w.device.Valid() && Tame(w, actions[0], flagsToo)
      && TameRun(crc, Do(crc, w, actions[0]), actions[1..], flagsToo)
  }

  lemma {:induction false} InvAlways(crc: Checksum, w: World, actions: seq<Action>, flagsToo: bool)
    requires Inv(crc, w, flagsToo) && Interleaving(crc, w, actions) && TameRun(crc, w, actions, flagsToo)
    ensures Inv(crc, After(crc, w, actions), flagsToo)
    decreases |actions|
  {
    if actions == [] {
    } else {
      AnyStep(crc, w, actions[0], flagsToo);
      InvAlways(crc, Do(crc, w, actions[0]), actions[1..], flagsToo);
    }
  }

  /** The lock is free, the flag word is 0, and no configuration call is between its change and its
      flag. */
  predicate Quiet(w: World) {
    w.owner.Nobody? && !w.pending.flag.Any() && !w.config.Unflagged?
  }

  lemma StartedInv(crc: Checksum, w: World, flagsToo: bool)
    requires Started(crc, w) && Storable(w.device)
    ensures Inv(crc, w, flagsToo)
  {
    DurableIsOnDisk(crc, w.disk, w.device, flagsToo);
    RestControl(w, OnDisk(crc, w.disk, w.device, flagsToo));
  }

  lemma DurableIsOnDisk(crc: Checksum, disk: seq<Page>, d: Device, flagsToo: bool)
    requires d.Valid() && Durable(crc, disk, d)
    ensures OnDisk(crc, disk, d, flagsToo)
  {}

  lemma RestControl(w: World, saved: bool)
    requires AtRest(w) && saved
    ensures Control(w, saved) && !InWindow(w.task)
  {}

  lemma QuietInv(crc: Checksum, w: World, flagsToo: bool)
    requires Inv(crc, w, flagsToo)
    ensures Storable(w.device)
    ensures Quiet(w) ==> OnDisk(crc, w.disk, w.device, flagsToo)
    ensures Quiet(w) ==>
              (Durable(crc, w.disk, w.device) <==>
               BorderFlags(Loaded(crc, w.disk).value) == BorderFlags(PersistedOf(w.device)))
  {
    if Quiet(w) {
      var p, q := Loaded(crc, w.disk).value, PersistedOf(w.device);
      assert View(p, false) == View(q, false);
      FlagsDecide(p, q);
    }
  }

  /** Durability under every interleaving in which no border flag changes and no idle time changes
      between checksum and copy: whenever it is quiet, loading the disk gives back the state in
      memory. */
  lemma QuietMeansDurable(crc: Checksum, w: World, actions: seq<Action>)
    requires Started(crc, w) && Storable(w.device)
    requires Interleaving(crc, w, actions) && TameRun(crc, w, actions, true)
    ensures
      var v := After(crc, w, actions);
      Storable(v.device) && (Quiet(v) ==> Durable(crc, v.disk, v.device))
  {
    StartedInv(crc, w, true);
    InvAlways(crc, w, actions, true);
    QuietInv(crc, After(crc, w, actions), true);
  }

  /** When border flags change too, but not between checksum and copy, loading gives back everything
      else whenever it is quiet; so the state is durable exactly when the border flags on disk are
      those in memory. */
  lemma QuietMeansDurableButFlags(crc: Checksum, w: World, actions: seq<Action>)
    requires Started(crc, w) && Storable(w.device)
    requires Interleaving(crc, w, actions) && TameRun(crc, w, actions, false)
    ensures
      var v := After(crc, w, actions);
      && Storable(v.device)
      && (Quiet(v) ==>
            && OnDisk(crc, v.disk, v.device, false)
            && (Durable(crc, v.disk, v.device) <==>
                  BorderFlags(Loaded(crc, v.disk).value) == BorderFlags(PersistedOf(v.device))))
  {
    StartedInv(crc, w, false);
    InvAlways(crc, w, actions, false);
    QuietInv(crc, After(crc, w, actions), false);
  }
}
