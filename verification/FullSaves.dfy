/** Full saves, for any number of zones: a configuration change, or a queue of dirty zones that ran over,
    is on disk when the persistence thread releases the lock. */
module FullSaves {
  import opened Geometry
  import opened ZoneTypes
  import opened ZoneRules
  import opened Operations
  import opened ConfigRuns
  import opened DirtyQueue
  import opened Persistence
  import opened StateImage
  import opened Durability
  import opened Staleness
  import opened ConfigEffects

  /** The state has a 32-bit size and every allocated zone is live. */
  predicate Whole(d: Device) { Sizable(d) && 1 <= d.N() as nat == |d.status| }

  /** The thread is about to take the free lock, and a configuration change or an overrun queue is due. */
  predicate SaveDue(w: World) {
    && Locks(w) && Whole(w.device)
    && w.task.Awake? && w.owner.Nobody?
    && (w.pending.flag.config || w.pending.gap >= 2)
  }

  /** What is written without the lock changes nothing: no border flag at any time, no idle time between
      checksum and copy. */
  predicate Calm(w: World, a: Action) {
    match a
    case BorderWrite(zone, code) => zone < |w.device.status| ==> w.device.status[zone].flag == code
    case IdleWrite(idle) => InWindow(w.task) ==> idle == w.idle
    case _ => true
  }

  /** Steps of any party while the thread holds the lock. */
  ghost predicate CriticalSteps(crc: Checksum, w: World, steps: seq<Action>)
    decreases |steps|
  {
    steps != [] ==>
      && Can(crc, w, steps[0]) && !steps[0].TaskUnlock? && Calm(w, steps[0])
      && CriticalSteps(crc, Do(crc, w, steps[0]), steps[1..])
  }

  ghost function AfterSteps(crc: Checksum, w: World, steps: seq<Action>): World
    requires CriticalSteps(crc, w, steps)
    decreases |steps|
  {
    if steps == [] then w else AfterSteps(crc, Do(crc, w, steps[0]), steps[1..])
  }

  // -------------------------------------------------------------- the save path

  /** How far the thread has got, and what is on disk by then. */
  predicate OnTheWay(crc: Checksum, w: World) {
    && Locks(w) && Whole(w.device) && w.owner == Owner.Task
    && match w.task
       case Deciding => w.pending.flag.config || w.pending.gap >= 2
       case SealSave(_) => true
       case Copying(_) => w.crc32 == Sum(crc, w.device, w.idle)
       case Copied(_) => Durable(crc, w.disk, w.device)
       case Leaving => Durable(crc, w.disk, w.device)
       case _ => false
  }

  lemma SwitchKeepsWhole(crc: Checksum, d: Device, s: Switches, idle: Idle)
    requires Whole(d)
    ensures Whole(d.(switches := s)) && PersistedOf(d.(switches := s)) == PersistedOf(d)
    ensures Sum(crc, d.(switches := s), idle) == Sum(crc, d, idle)
  {}

  /** What is done without the lock keeps it so. */
  lemma UnlockedKeepsWay(crc: Checksum, w: World, a: Action)
    requires OnTheWay(crc, w) && Can(crc, w, a) && Calm(w, a)
    requires a.Switch? || a.BorderWrite? || a.IdleWrite? || a.ConfigFlag?
    ensures OnTheWay(crc, Do(crc, w, a))
  {
    LocksStep(crc, w, a);
    if a.Switch? {
      SwitchKeepsWhole(crc, w.device, a.switches, w.idle);
    } else if a.BorderWrite? {
      assert Do(crc, w, a).device.status == w.device.status;
    }
  }

  lemma ThreadKeepsWay(crc: Checksum, w: World, a: Action)
    requires OnTheWay(crc, w) && Can(crc, w, a)
    requires a.TaskDecide? || a.TaskSeal? || a.TaskForget?
    ensures OnTheWay(crc, Do(crc, w, a))
  {
    LocksStep(crc, w, a);
  }

  lemma SaveKeepsWay(crc: Checksum, w: World, a: Action)
    requires OnTheWay(crc, w) && Can(crc, w, a) && a.TaskSave?
    ensures OnTheWay(crc, Do(crc, w, a))
  {
    LocksStep(crc, w, a);
    HeldLoadsIff(crc, a.disk, w.device, w.idle, w.crc32);
  }

  lemma KeepsWay(crc: Checksum, w: World, a: Action)
    requires OnTheWay(crc, w) && Can(crc, w, a) && Calm(w, a) && !a.TaskUnlock?
    ensures OnTheWay(crc, Do(crc, w, a))
  {
    if a.Switch? || a.BorderWrite? || a.IdleWrite? || a.ConfigFlag? {
      UnlockedKeepsWay(crc, w, a);
    } else if a.TaskSave? {
      SaveKeepsWay(crc, w, a);
    } else {
      OnlyTheThread(crc, w, a);
      ThreadKeepsWay(crc, w, a);
    }
  }

  /** Nobody else gets a locked step in. */
  lemma OnlyTheThread(crc: Checksum, w: World, a: Action)
    requires OnTheWay(crc, w) && Can(crc, w, a) && !a.TaskUnlock? && !a.TaskSave?
    requires !a.Switch? && !a.BorderWrite? && !a.IdleWrite? && !a.ConfigFlag?
    ensures a.TaskDecide? || a.TaskSeal? || a.TaskForget?
  {}

  lemma {:induction false} StaysOnTheWay(crc: Checksum, w: World, steps: seq<Action>)
    requires OnTheWay(crc, w) && CriticalSteps(crc, w, steps)
    ensures OnTheWay(crc, AfterSteps(crc, w, steps))
    decreases |steps|
  {
    if steps == [] {
    } else {
      KeepsWay(crc, w, steps[0]);
      StaysOnTheWay(crc, Do(crc, w, steps[0]), steps[1..]);
    }
  }

  // ------------------------------------------------------------ flags and queue

  predicate NoConfigFlag(steps: seq<Action>) { forall a :: a in steps ==> !a.ConfigFlag? }

  /** Flags, and with `drops` also the queue, are forgotten once the state is written. */
  predicate Forgetting(w: World, drops: bool) {
    && w.owner == Owner.Task && Locks(w)
    && (w.task.Leaving? ==>
          && !w.pending.flag.config && !w.pending.flag.stats && !w.pending.flag.status
          && (drops ==> w.pending.queue == [] && w.pending.gap == 0))
    && (drops ==>
          match w.task
          case Deciding => !w.pending.flag.config && w.pending.gap >= 2
          case SealSave(after) => after == DropQueue
          case Copying(after) => after == DropQueue
          case Copied(after) => after == DropQueue
          case _ => true)
  }

  lemma ForgettingStep(crc: Checksum, w: World, a: Action, drops: bool)
    requires OnTheWay(crc, w) && Forgetting(w, drops) && Can(crc, w, a) && !a.TaskUnlock? && !a.ConfigFlag?
    ensures Forgetting(Do(crc, w, a), drops)
  {
    if a.Switch? || a.BorderWrite? || a.IdleWrite? {
      UnlockedForgets(crc, w, a, drops);
    } else if a.TaskSave? {
      SaveForgets(crc, w, a, drops);
    } else {
      OnlyTheThread(crc, w, a);
      ThreadForgets(crc, w, a, drops);
    }
  }

  lemma UnlockedForgets(crc: Checksum, w: World, a: Action, drops: bool)
    requires Forgetting(w, drops) && Can(crc, w, a) && (a.Switch? || a.BorderWrite? || a.IdleWrite?)
    ensures Forgetting(Do(crc, w, a), drops)
  {
    LocksStep(crc, w, a);
  }

  lemma SaveForgets(crc: Checksum, w: World, a: Action, drops: bool)
    requires Forgetting(w, drops) && Can(crc, w, a) && a.TaskSave?
    ensures Forgetting(Do(crc, w, a), drops)
  {
    LocksStep(crc, w, a);
  }

  lemma ThreadForgets(crc: Checksum, w: World, a: Action, drops: bool)
    requires Forgetting(w, drops) && Can(crc, w, a)
    requires a.TaskDecide? || a.TaskSeal? || a.TaskForget?
    ensures Forgetting(Do(crc, w, a), drops)
  {
    LocksStep(crc, w, a);
  }

  lemma {:induction false} StaysForgetting(crc: Checksum, w: World, steps: seq<Action>, drops: bool)
    requires OnTheWay(crc, w) && Forgetting(w, drops) && CriticalSteps(crc, w, steps) && NoConfigFlag(steps)
    ensures Forgetting(AfterSteps(crc, w, steps), drops)
    decreases |steps|
  {
    if steps == [] {
    } else {
      ForgettingStep(crc, w, steps[0], drops);
      KeepsWay(crc, w, steps[0]);
      StaysForgetting(crc, Do(crc, w, steps[0]), steps[1..], drops);
    }
  }

  // --------------------------------------------------------------- main results

  /** For every number of zones: if a configuration change or an overrun queue is due when the thread
      takes the lock, then whatever steps follow, the disk loads as the state in memory when it
      releases the lock. The flag word is 0 then, unless a configuration call has set its flag
      meanwhile; and if it was the queue that was due, the queue is empty. */
  lemma SaveDueIsDurable(crc: Checksum, w: World, steps: seq<Action>)
    requires SaveDue(w) && Can(crc, w, TaskLock) && CriticalSteps(crc, Do(crc, w, TaskLock), steps)
    requires Can(crc, AfterSteps(crc, Do(crc, w, TaskLock), steps), TaskUnlock)
    ensures
      var u := Do(crc, AfterSteps(crc, Do(crc, w, TaskLock), steps), TaskUnlock);
      && u.device.Valid() && u.owner.Nobody? && Durable(crc, u.disk, u.device)
      && (NoConfigFlag(steps) ==> !u.pending.flag.config && !u.pending.flag.stats && !u.pending.flag.status)
      && (NoConfigFlag(steps) && !w.pending.flag.config ==> u.pending.queue == [] && u.pending.gap == 0)
  {
    var w1 := Do(crc, w, TaskLock);
    LocksStep(crc, w, TaskLock);
    StaysOnTheWay(crc, w1, steps);
    if NoConfigFlag(steps) { StaysForgetting(crc, w1, steps, !w.pending.flag.config); }
  }

  /** With no live zones a configuration change is forgotten without writing anything. */
  lemma NoZonesNothingSaved(crc: Checksum, w: World)
    requires w.task.Deciding? && w.pending.flag.config && w.device.N() == 0
    ensures Interleaving(crc, w, [TaskDecide] + ([TaskDrop] + []))
    ensures
      var v := After(crc, w, [TaskDecide] + ([TaskDrop] + []));
      v == w.(task := Leaving, pending := v.pending) && v.pending == w.pending.(flag := NO_CHANGE)
  {
    var w1 := Do(crc, w, TaskDecide);
    Prepend(crc, w1, TaskDrop, []);
    Prepend(crc, w, TaskDecide, [TaskDrop] + []);
  }

  // ------------------------------------------------------------- what sets the flag

  /** A configuration call counts as a change exactly if it is accepted, or cannot be refused. */
  lemma ChangedIffAccepted(crc: Checksum, w: World, op: Op)
    requires w.config == Changing(false) && TableShape(w.device) && Can(crc, w, ConfigChange(op))
    ensures
      Do(crc, w, ConfigChange(op)).config == Changing(
        match op
        case ZoneReset(sector) => ResetTakesEffect(w.device, sector)
        case SizeChange(size) => WholeBlocksPower(size)
        case Add(e) => Addable(w.device, e)
        case Modify(e) => Modifiable(w.device, e)
        case _ => true)
  {
    match op
    case ZoneReset(sector) => ZoneNumberIs(w.device, sector);
    case SizeChange(size) => SizeAcceptedIff(size);
    case Add(e) =>
    case Modify(e) => ModifyAcceptedIff(w.device, e);
    case _ =>
  }

  /** The call sets the change flag, after it has released the lock, exactly if something was accepted. */
  lemma FlagFollowsChange(crc: Checksum, w: World)
    requires Can(crc, w, ConfigUnlock)
    ensures Do(crc, w, ConfigUnlock).owner.Nobody?
    ensures Can(crc, Do(crc, w, ConfigUnlock), ConfigFlag) <==> w.config.changed
    ensures w.config.changed ==>
              Do(crc, Do(crc, w, ConfigUnlock), ConfigFlag).pending.flag ==
              ChangeFlags(true, w.pending.flag.stats, w.pending.flag.status)
  {}

  /** The sleeping thread wakes exactly if some change flag is set, and then waits for the lock. */
  lemma ThreadWakesIff(crc: Checksum, w: World)
    ensures Can(crc, w, TaskPoll) <==>
            w.task.Asleep? && (w.pending.flag.config || w.pending.flag.stats || w.pending.flag.status)
    ensures Can(crc, w, TaskPoll) ==> Do(crc, w, TaskPoll) == w.(task := Awake)
  {}

  /** Once the flag of a configuration change is set, the next thing the thread does is a full save. */
  lemma FlaggedChangeIsDue(crc: Checksum, w: World)
    requires Locks(w) && Whole(w.device) && w.task.Asleep? && w.owner.Nobody? && Can(crc, w, ConfigFlag)
    ensures
      var w1 := Do(crc, w, ConfigFlag);
      Can(crc, w1, TaskPoll) && SaveDue(Do(crc, w1, TaskPoll)) && Can(crc, Do(crc, w1, TaskPoll), TaskLock)
  {
    ThreadWakesIff(crc, Do(crc, w, ConfigFlag));
  }

  // ------------------------------------------------------------- such runs exist

  function PageOf(bytes: Bytes, k: nat): Page {
    seq(PAGE_SIZE, o requires 0 <= o < PAGE_SIZE =>
      if k * PAGE_SIZE + o < |bytes| then bytes[k * PAGE_SIZE + o] else 0)
  }

  /** Pages that hold the bytes. */
  function DiskOf(bytes: Bytes): (disk: seq<Page>)
    ensures Holds(disk, bytes)
  {
    DiskOfHolds(bytes);
    seq(|bytes| / PAGE_SIZE + 1, k requires 0 <= k => PageOf(bytes, k))
  }

  lemma DiskOfHolds(bytes: Bytes)
    ensures Holds(seq(|bytes| / PAGE_SIZE + 1, k requires 0 <= k => PageOf(bytes, k)), bytes)
  {
    var disk := seq(|bytes| / PAGE_SIZE + 1, k requires 0 <= k => PageOf(bytes, k));
    forall i | 0 <= i < |bytes|
      ensures DiskByte(disk, i) == bytes[i]
    {
      var k, o := i / PAGE_SIZE, i % PAGE_SIZE;
      assert k * PAGE_SIZE + o == i;
      assert disk[k] == PageOf(bytes, k);
    }
  }

  lemma FirstStep(crc: Checksum, w: World, a: Action, rest: seq<Action>)
    requires Can(crc, w, a) && !a.TaskUnlock? && Calm(w, a) && CriticalSteps(crc, Do(crc, w, a), rest)
    ensures CriticalSteps(crc, w, [a] + rest)
    ensures AfterSteps(crc, w, [a] + rest) == AfterSteps(crc, Do(crc, w, a), rest)
  {
    assert ([a] + rest)[1..] == rest;
  }

  /** The thread by itself gets from the lock to its release. */
  lemma SaveCanFinish(crc: Checksum, w: World) returns (steps: seq<Action>)
    requires SaveDue(w)
    ensures Can(crc, w, TaskLock) && CriticalSteps(crc, Do(crc, w, TaskLock), steps) && NoConfigFlag(steps)
    ensures Can(crc, AfterSteps(crc, Do(crc, w, TaskLock), steps), TaskUnlock)
  {
    steps := DecidingCanFinish(crc, w.(owner := Owner.Task, task := Deciding));
  }

  lemma DecidingCanFinish(crc: Checksum, w: World) returns (steps: seq<Action>)
    requires Whole(w.device) && w.task.Deciding? && (w.pending.flag.config || w.pending.gap >= 2)
    ensures CriticalSteps(crc, w, steps) && NoConfigFlag(steps) && AfterSteps(crc, w, steps).task.Leaving?
  {
    var w1 := w.(task := SealSave(if w.pending.flag.config then KeepQueue else DropQueue));
    var rest := SealedCanFinish(crc, w1);
    FirstStep(crc, w, TaskDecide, rest);
    steps := [TaskDecide] + rest;
  }

  lemma SealedCanFinish(crc: Checksum, w: World) returns (steps: seq<Action>)
    requires Whole(w.device) && w.task.SealSave?
    ensures CriticalSteps(crc, w, steps) && NoConfigFlag(steps) && AfterSteps(crc, w, steps).task.Leaving?
  {
    var w1 := w.(crc32 := Sum(crc, w.device, w.idle), task := Copying(w.task.after));
    var rest := CopyCanFinish(crc, w1, DiskOf(InMemory(w1)));
    FirstStep(crc, w, TaskSeal, rest);
    steps := [TaskSeal] + rest;
  }

  lemma CopyCanFinish(crc: Checksum, w: World, disk: seq<Page>) returns (steps: seq<Action>)
    requires Whole(w.device) && w.task.Copying? && Holds(disk, InMemory(w))
    ensures CriticalSteps(crc, w, steps) && NoConfigFlag(steps) && AfterSteps(crc, w, steps).task.Leaving?
  {
    FirstStep(crc, w.(disk := disk, task := Copied(w.task.after)), TaskForget, []);
    FirstStep(crc, w, TaskSave(disk), [TaskForget] + []);
    steps := [TaskSave(disk)] + ([TaskForget] + []);
  }
}
