/**
 The life of an open file in pfs.c. Its one object is shared by file handles, running reads, a write
 timer and threads that release it for upload; each holds it through a reference count. A step is
 what one of them does while it has the file locked, so a schedule of steps is an interleaving.
 */
module OpenFileLife {
  // ---------------------------------------------------------------- The steps as functions

  /** Who else holds the file: none of this is stored in it. */
  datatype World = World(
    // Timers that are registered: false while waiting, true once the timer thread has taken them
    timers: map<nat, bool>,
    lastTimer: nat,
    handles: nat,
    // Writes that wait in psync_fs_inc_writeid_locked to lock the file again; one handle may have several
    waiting: nat,
    readers: nat,
    // Timer callbacks that have left the locked part: to start a release thread, or to drop their reference
    starting: nat,
    dropping: nat,
    // Running release threads
    threads: nat,
    // Someone took the last reference and is about to free the file; how often it was freed
    freeing: nat,
    freed: nat,
    // The last write whose content was released for upload
    released: nat)

  /** The fields of the open file that take part, with 0 for no timer. */
  datatype File = File(
    refcnt: int, runningreads: int, writetimer: nat, writeid: nat,
    modified: bool, staticfile: bool, releasedforupload: bool, inTree: bool)

  datatype State = State(f: File, w: World)

  datatype Step =
    | Open
    | Close
    | BeginRead
    | EndRead
    | Write
    | WriteWaits
    | WriteResumes
    | Flush(cryptoFails: bool)
    | TimerDue
    | TimerLocked(cryptoFails: bool)
    | TimerStartsThread
    | TimerDrops
    | ThreadEnds
    | Free
    // Reopening for writing and finished uploads change these flags under the lock
    | SetFlags(modified: bool, staticfile: bool, releasedforupload: bool)

  function Init(modified: bool): (s: State) {
    State(File(1, 0, 0, 0, modified, false, false, true), World(map[], 0, 1, 0, 0, 0, 0, 0, 0, 0, 0))
  }

  /**
   Whether the holder that takes the step exists. Calls through one handle may run side by side; only the
   handle of a call that is still running is not closed.
   */
  predicate Enabled(s: State, step: Step) {
    match step
    case Open => s.f.inTree
    case Close => s.w.handles > 1 || (s.w.handles == 1 && s.w.waiting == 0)
    case BeginRead | Write | Flush(_) => s.w.handles > 0
    case WriteWaits => s.w.handles > 0 && s.f.releasedforupload
    case WriteResumes => s.w.waiting > 0
    case EndRead => s.w.readers > 0
    case TimerDue => exists t :: t in s.w.timers && !s.w.timers[t]
    case TimerLocked(_) => exists t :: t in s.w.timers && s.w.timers[t]
    case TimerStartsThread => s.w.starting > 0
    case TimerDrops => s.w.dropping > 0
    case ThreadEnds => s.w.threads > 0
    case Free => s.w.freeing > 0
    case SetFlags(_, _, _) => s.f.inTree
  }

  /** psync_fs_dec_of_refcnt: the last reference takes the file out of the tree of open files. */
  function Dropped(s: State): (r: State) {
    var s1 := s.(f := s.f.(refcnt := s.f.refcnt - 1));
    if s1.f.refcnt == 0 then State(s1.f.(inTree := false), s1.w.(freeing := s1.w.freeing + 1)) else s1
  }

  /** psync_timer_stop: a waiting timer is freed; one that runs is only told not to run again. */
  function StopTimer(w: World, t: nat): (r: World)
    requires t in w.timers
  {
    if w.timers[t] then w else w.(timers := w.timers - {t})
  }

  /** A new write timer takes the place of none, or of one that was still waiting. */
  function Rearmed(s: State): (r: State)
    requires s.f.writetimer == 0 || s.f.writetimer in s.w.timers
  {
    var t := s.f.writetimer;
    if t != 0 && s.w.timers[t] then s else
      var w := if t == 0 then s.w else s.w.(timers := s.w.timers - {t});
      var n := w.lastTimer + 1;
      State(s.f.(writetimer := n, refcnt := if t == 0 then s.f.refcnt + 1 else s.f.refcnt),
            w.(timers := w.timers[n := false], lastTimer := n))
  }

  /** psync_fs_inc_writeid_locked */
  function Written(s: State): (r: State)
    requires s.f.writetimer == 0 || s.f.writetimer in s.w.timers
  {
    Rearmed(s.(f := s.f.(releasedforupload := false, writeid := s.f.writeid + 1)))
  }

  /** psync_fs_flush as far as it holds the lock */
  function Flushed(s: State, cryptoFails: bool): (r: State)
    requires s.f.writetimer == 0 || s.f.writetimer in s.w.timers
  {
    if !s.f.modified || s.f.staticfile || cryptoFails then s else
      var t := s.f.writetimer;
      var f, w := s.f.(releasedforupload := true), s.w.(released := s.f.writeid);
      if t != 0 && !s.w.timers[t] then
        State(f.(refcnt := f.refcnt - 1, writetimer := 0), w.(timers := w.timers - {t}))
      else State(f, w)
  }

  /** psync_fs_write_timer as far as it holds the lock; the timer thread frees the timer afterwards. */
  function Fired(s: State, cryptoFails: bool): (r: State) {
    var s1 := State(s.f.(writetimer := 0), s.w.(timers := s.w.timers - {s.f.writetimer}));
    if !s.f.releasedforupload && s.f.modified && !s.f.staticfile && !cryptoFails
    then State(s1.f.(releasedforupload := true), s1.w.(starting := s1.w.starting + 1, released := s.f.writeid))
    else s1.(w := s1.w.(dropping := s1.w.dropping + 1))
  }

  /** One step; a step whose holder does not exist changes nothing. */
  function Next(s: State, step: Step): (r: State)
    requires s.f.writetimer == 0 || s.f.writetimer in s.w.timers
  {
    var f, w := s.f, s.w;
    if !Enabled(s, step) then s else
    match step
    case Open => State(f.(refcnt := f.refcnt + 1), w.(handles := w.handles + 1))
    case Close => Dropped(s.(w := w.(handles := w.handles - 1)))
    case BeginRead => State(f.(refcnt := f.refcnt + 1, runningreads := f.runningreads + 1), w.(readers := w.readers + 1))
    case EndRead => Dropped(State(f.(runningreads := f.runningreads - 1), w.(readers := w.readers - 1)))
    case Write => Written(s)
    case WriteWaits => s.(w := w.(waiting := w.waiting + 1))
    case WriteResumes => Written(s.(w := w.(waiting := w.waiting - 1)))
    case Flush(cryptoFails) => Flushed(s, cryptoFails)
    case TimerDue => s.(w := w.(timers := map t | t in w.timers :: true))
    case TimerLocked(cryptoFails) => Fired(s, cryptoFails)
    case TimerStartsThread => s.(w := w.(starting := w.starting - 1, threads := w.threads + 1))
    case TimerDrops => Dropped(s.(w := w.(dropping := w.dropping - 1)))
    case ThreadEnds => Dropped(s.(w := w.(threads := w.threads - 1)))
    case Free => s.(w := w.(freeing := w.freeing - 1, freed := w.freed + 1))
    case SetFlags(m, st, r) => s.(f := f.(modified := m, staticfile := st, releasedforupload := r))
  }

  function Run(s: State, steps: seq<Step>): (r: State)
    requires Inv(s)
    ensures Inv(r)
    decreases |steps|
  {
    if steps == [] then s else
      NextKeeps(s, steps[0]);
      Run(Next(s, steps[0]), steps[1..])
  }

  // ---------------------------------------------------------------- What every interleaving keeps

  /** Everything that may still use the file. */
  function Holders(w: World): (n: nat) {
    w.handles + w.readers + |w.timers| + w.starting + w.dropping + w.threads
  }

  /** The write timer is the one registered timer, if there is any. */
  predicate OwnTimer(s: State) {
    && s.w.timers.Keys == (if s.f.writetimer == 0 then {} else {s.f.writetimer})
    && s.f.writetimer <= s.w.lastTimer
  }

  predicate Inv(s: State) {
    && s.f.refcnt == Holders(s.w) && s.f.runningreads == s.w.readers
    && (s.w.waiting > 0 ==> s.w.handles > 0) && OwnTimer(s)
    && (s.f.inTree <==> Holders(s.w) > 0)
    && s.w.freeing + s.w.freed == (if Holders(s.w) == 0 then 1 else 0)
  }

  lemma TimerCount(s: State)
    requires OwnTimer(s)
    ensures |s.w.timers| == if s.f.writetimer == 0 then 0 else 1
    ensures forall t | t in s.w.timers :: t == s.f.writetimer
  {
    assert |s.w.timers| == |s.w.timers.Keys|;
  }

  /** One reference more than there are holders: its owner is about to drop it. */
  predicate OneToDrop(s: State) {
    && s.f.refcnt == Holders(s.w) + 1 && s.f.runningreads == s.w.readers
    && (s.w.waiting > 0 ==> s.w.handles > 0) && OwnTimer(s) && s.f.inTree && s.w.freeing + s.w.freed == 0
  }

  lemma DroppedKeeps(s: State)
    requires OneToDrop(s)
    ensures Inv(Dropped(s))
  {
    hide OwnTimer;
    OwnTimerStays(s);
  }

  lemma RearmedKeeps(s: State)
    requires Inv(s) && s.f.inTree
    ensures Inv(Rearmed(s))
  {
    RearmedTimers(s);
    hide OwnTimer, Rearmed;
  }

  /** Afterwards one timer is registered, and the file has one reference more if there was none before. */
  lemma RearmedTimers(s: State)
    requires OwnTimer(s)
    ensures var r := Rearmed(s);
            && OwnTimer(r) && |r.w.timers| == 1 && |s.w.timers| <= 1
            && r.f == s.f.(refcnt := s.f.refcnt + 1 - |s.w.timers|, writetimer := r.f.writetimer)
            && r.w == s.w.(timers := r.w.timers, lastTimer := r.w.lastTimer)
  {
    TimerCount(s);
    assert OwnTimer(Rearmed(s));
    TimerCount(Rearmed(s));
  }

  lemma FlushedKeeps(s: State, cryptoFails: bool)
    requires Inv(s) && s.w.handles > 0
    ensures Inv(Flushed(s, cryptoFails))
  {
    TimerCount(s);
    assert OwnTimer(Flushed(s, cryptoFails));
    TimerCount(Flushed(s, cryptoFails));
  }

  lemma FiredKeeps(s: State, cryptoFails: bool)
    requires Inv(s) && s.w.timers != map[]
    ensures Inv(Fired(s, cryptoFails))
  {
    TimerCount(s);
    assert OwnTimer(Fired(s, cryptoFails));
    TimerCount(Fired(s, cryptoFails));
  }

  lemma DueKeeps(s: State)
    requires Inv(s)
    ensures Inv(Next(s, TimerDue))
  {
    TimerCount(s);
    assert OwnTimer(Next(s, TimerDue));
    TimerCount(Next(s, TimerDue));
  }

  lemma NextKeeps(s: State, step: Step)
    requires Inv(s)
    ensures Inv(Next(s, step))
  {
    hide Dropped, Rearmed, Flushed, Fired, OwnTimer;
    if Enabled(s, step) {
      OwnTimerStays(s);
      var f, w := s.f, s.w;
      match step
      case Close => DroppedKeeps(s.(w := w.(handles := w.handles - 1)));
      case EndRead => DroppedKeeps(State(f.(runningreads := f.runningreads - 1), w.(readers := w.readers - 1)));
      case TimerDrops => DroppedKeeps(s.(w := w.(dropping := w.dropping - 1)));
      case ThreadEnds => DroppedKeeps(s.(w := w.(threads := w.threads - 1)));
      case Write => RearmedKeeps(s.(f := f.(releasedforupload := false, writeid := f.writeid + 1)));
      case WriteResumes => RearmedKeeps(State(f.(releasedforupload := false, writeid := f.writeid + 1), w.(waiting := w.waiting - 1)));
      case Flush(cryptoFails) => FlushedKeeps(s, cryptoFails);
      case TimerDue => DueKeeps(s);
      case TimerLocked(cryptoFails) => FiredKeeps(s, cryptoFails);
      case _ =>
    }
  }

  /** The timers are their own: changing anything else does not matter to them. */
  lemma OwnTimerStays(s: State)
    ensures forall r: State | r.w.timers == s.w.timers && r.f.writetimer == s.f.writetimer && r.w.lastTimer == s.w.lastTimer ::
              OwnTimer(r) == OwnTimer(s)
  {
  }

  lemma InitKeeps(modified: bool)
    ensures Inv(Init(modified))
  {
  }

  function After(modified: bool, steps: seq<Step>): (s: State)
    ensures Inv(s)
  {
    InitKeeps(modified);
    Run(Init(modified), steps)
  }

  /** The count is right in every interleaving, and only the file's own write timer is registered. */
  lemma RefcntIsRight(modified: bool, steps: seq<Step>)
    ensures var s := After(modified, steps);
            && s.f.refcnt == s.w.handles + s.f.runningreads + (if s.f.writetimer != 0 then 1 else 0)
                             + s.w.starting + s.w.dropping + s.w.threads
            && s.w.timers.Keys == if s.f.writetimer != 0 then {s.f.writetimer} else {}
  {
    TimerCount(After(modified, steps));
  }

  /** The file is freed at most once, exactly when its last user is gone, and never with its timer set. */
  lemma FreedExactlyOnce(modified: bool, steps: seq<Step>)
    ensures var s := After(modified, steps);
            && s.w.freed <= 1
            && (s.w.freed + s.w.freeing == 1 <==> Holders(s.w) == 0)
            && (s.w.freed == 1 ==> s.f.writetimer == 0 && s.w.timers == map[] && !s.f.inTree)
            && (Holders(s.w) == 0 ==> After(modified, steps + [Free]).w.freed == 1)
  {
    hide Run, After, Next, Inv, Holders;
    var s := After(modified, steps);
    FreedWithoutTimer(s);
    AfterMeans(modified, steps);
    AfterMeans(modified, steps + [Free]);
    RunOneMore(Init(modified), steps, Free);
    FreeFrees(s);
  }

  lemma AfterMeans(modified: bool, steps: seq<Step>)
    ensures Inv(Init(modified)) && After(modified, steps) == Run(Init(modified), steps)
  {
  }

  lemma FreedWithoutTimer(s: State)
    requires Inv(s)
    ensures Holders(s.w) == 0 ==> s.f.writetimer == 0 && s.w.timers == map[] && !s.f.inTree
    ensures s.w.freed + s.w.freeing == if Holders(s.w) == 0 then 1 else 0
  {
    TimerCount(s);
    assert |s.w.timers| == 0 <==> s.w.timers == map[];
  }

  lemma FreeFrees(s: State)
    requires Inv(s)
    ensures Holders(s.w) == 0 ==> Next(s, Free).w.freed == 1
  {
  }

  lemma {:induction false} RunOneMore(s: State, steps: seq<Step>, step: Step)
    requires Inv(s)
    ensures Run(s, steps + [step]) == Next(Run(s, steps), step)
    decreases |steps|
  {
    hide Next;
    NextKeeps(s, (steps + [step])[0]);
    if steps == [] {
      assert (steps + [step])[1..] == [];
    } else {
      assert (steps + [step])[1..] == steps[1..] + [step];
      RunOneMore(Next(s, steps[0]), steps[1..], step);
    }
  }

  /** Once nobody holds the file, nobody comes to hold it again: nothing but the freeing itself can happen. */
  lemma {:induction false} GoneForGood(s: State, steps: seq<Step>)
    requires Inv(s) && Holders(s.w) == 0
    ensures var r := Run(s, steps); Holders(r.w) == 0 && r.f == s.f
    decreases |steps|
  {
    if steps != [] {
      TimerCount(s);
      assert |s.w.timers| == 0;
      NextKeeps(s, steps[0]);
      GoneForGood(Next(s, steps[0]), steps[1..]);
    }
  }

  /** A flush that cancels the timer leaves the reference of its own handle. */
  lemma FlushLeavesReference(s: State, cryptoFails: bool)
    requires Inv(s) && s.w.handles > 0
    ensures Flushed(s, cryptoFails).f.refcnt > 0
  {
    FlushedKeeps(s, cryptoFails);
  }

  /**
   No write is forgotten: after it a timer is pending, and only a flush or the timer itself takes it
   away; then the file is released for upload, unless it has nothing to upload or could not be encrypted.
   */
  lemma WriteIsRemembered(s: State, step: Step)
    requires Inv(s) && Enabled(s, step)
    ensures step.Write? || step.WriteResumes? ==>
              Next(s, step).f.writetimer != 0 && Next(s, step).f.writeid == s.f.writeid + 1 && !Next(s, step).f.releasedforupload
    ensures !step.Write? && !step.WriteResumes? ==> Next(s, step).f.writeid == s.f.writeid
    ensures s.f.writetimer != 0 && Next(s, step).f.writetimer == 0 ==>
              (step.Flush? || step.TimerLocked?)
              && (Next(s, step).f.releasedforupload || !s.f.modified || s.f.staticfile || step.cryptoFails)
  {
    TimerCount(s);
  }

  /** Neither the flags are changed from outside nor does encryption fail. */
  predicate Calm(step: Step) {
    match step
    case SetFlags(_, _, _) => false
    case Flush(cryptoFails) => !cryptoFails
    case TimerLocked(cryptoFails) => !cryptoFails
    case _ => true
  }

  /** A file that counts as released has its last write released, and a write that is not has its timer set. */
  predicate UpToDate(s: State) {
    && s.f.modified && !s.f.staticfile
    && (s.f.releasedforupload ==> s.w.released == s.f.writeid)
    && (s.w.released != s.f.writeid ==> s.f.writetimer != 0)
  }

  lemma CalmKeepsUpToDate(s: State, step: Step)
    requires Inv(s) && Calm(step) && UpToDate(s)
    ensures UpToDate(Next(s, step))
  {
    TimerCount(s);
  }

  lemma {:induction false} CalmRun(s: State, steps: seq<Step>)
    requires Inv(s) && UpToDate(s) && forall i | 0 <= i < |steps| :: Calm(steps[i])
    ensures UpToDate(Run(s, steps))
    decreases |steps|
  {
    hide Next, UpToDate;
    if steps != [] {
      CalmKeepsUpToDate(s, steps[0]);
      NextKeeps(s, steps[0]);
      CalmRun(Next(s, steps[0]), steps[1..]);
    }
  }

  /**
   Every write of a modified file is released for upload: after any run the last one has been, or a timer
   is set whose firing releases it and starts the thread that says so.
   */
  lemma EveryWriteIsReleased(steps: seq<Step>)
    requires forall i | 0 <= i < |steps| :: Calm(steps[i])
    ensures var s := After(true, steps);
            s.w.released != s.f.writeid ==>
              var r := After(true, steps + [TimerDue, TimerLocked(false)]);
              r.w.released == r.f.writeid == s.f.writeid && r.w.starting == s.w.starting + 1
  {
    hide Run, After, Next, Inv, Holders;
    var s := After(true, steps);
    AfterMeans(true, steps);
    AfterMeans(true, steps + [TimerDue]);
    AfterMeans(true, steps + [TimerDue] + [TimerLocked(false)]);
    assert UpToDate(Init(true));
    CalmRun(Init(true), steps);
    RunOneMore(Init(true), steps, TimerDue);
    RunOneMore(Init(true), steps + [TimerDue], TimerLocked(false));
    assert steps + [TimerDue] + [TimerLocked(false)] == steps + [TimerDue, TimerLocked(false)];
    if s.w.released != s.f.writeid {
      TimerReleases(s);
    }
  }

  lemma TimerReleases(s: State)
    requires Inv(s) && UpToDate(s) && s.w.released != s.f.writeid
    ensures var d := Next(s, TimerDue);
            Inv(d) && var r := Next(d, TimerLocked(false));
            r.w.released == r.f.writeid == s.f.writeid && r.w.starting == s.w.starting + 1
  {
    TimerCount(s);
    NextKeeps(s, TimerDue);
    var t := s.f.writetimer;
    var d := Next(s, TimerDue);
    assert t in s.w.timers;
    assert t in d.w.timers && d.w.timers[t];
  }

  // ---------------------------------------------------------------- The open file itself

  class OpenFile {
    var refcnt: int
    var runningreads: int
    var writetimer: nat
    var writeid: nat
    var modified: bool
    var staticfile: bool
    var releasedforupload: bool
    var inTree: bool
    // The other threads of the process, with the registered timers
    var world: World

    ghost function View(): (s: State)
      reads this
    {
      State(File(refcnt, runningreads, writetimer, writeid, modified, staticfile, releasedforupload, inTree), world)
    }

    ghost predicate Valid()
      reads this
    {
      Inv(View())
    }

    /** The new object of psync_fs_create_file, with the one reference of its first handle. */
    constructor (modified: bool)
      ensures View() == Init(modified) && Valid()
    {
      refcnt, runningreads, writetimer, writeid := 1, 0, 0, 0;
      this.modified, staticfile, releasedforupload, inTree := modified, false, false, true;
      world := World(map[], 0, 1, 0, 0, 0, 0, 0, 0, 0, 0);
    }

    method IncRefcnt()
      modifies this`refcnt
      ensures refcnt == old(refcnt) + 1
    {
      refcnt := refcnt + 1;
    }

    method DecRefcnt()
      modifies this`refcnt, this`inTree, this`world
      ensures View() == Dropped(old(View()))
    {
      refcnt := refcnt - 1;
      if refcnt == 0 {
        inTree := false;
        world := world.(freeing := world.freeing + 1);
      }
    }

    method IncRefcntAndReaders()
      modifies this`refcnt, this`runningreads
      ensures refcnt == old(refcnt) + 1 && runningreads == old(runningreads) + 1
    {
      refcnt := refcnt + 1;
      runningreads := runningreads + 1;
    }

    method DecRefcntAndReaders()
      modifies this`refcnt, this`runningreads, this`inTree, this`world
      ensures View() == Dropped(old(View()).(f := old(View()).f.(runningreads := old(runningreads) - 1)))
    {
      runningreads := runningreads - 1;
      DecRefcnt();
    }

    /** psync_timer_stop: true when the timer is already running. Only a registered timer may be stopped. */
    method TimerStop(t: nat) returns (running: bool)
      requires t in world.timers
      modifies this`world
      ensures running == old(world.timers)[t] && world == StopTimer(old(world), t)
    {
      running := world.timers[t];
      if !running {
        world := world.(timers := world.timers - {t});
      }
    }

    method TimerRegister() returns (t: nat)
      modifies this`world
      ensures t == old(world.lastTimer) + 1 && world == old(world).(timers := old(world.timers)[t := false], lastTimer := t)
    {
      t := world.lastTimer + 1;
      world := world.(timers := world.timers[t := false], lastTimer := t);
    }

    /** psync_fs_inc_writeid_locked once it has the locks it needs. */
    method IncWriteidLocked()
      requires Valid() && inTree
      modifies this
      ensures Valid() && View() == Written(old(View()))
    {
      hide Holders, OwnTimer, Rearmed;
      ghost var s := View();
      TimerCount(s);
      OwnTimerStays(s);
      RearmedKeeps(s.(f := s.f.(releasedforupload := false, writeid := s.f.writeid + 1)));
      if releasedforupload {
        releasedforupload := false;
      }
      writeid := writeid + 1;
      Rearm();
    }

    /** The end of psync_fs_inc_writeid_locked: the timer starts again unless it is already running. */
    method Rearm()
      requires writetimer == 0 || writetimer in world.timers
      modifies this`refcnt, this`writetimer, this`world
      ensures View() == Rearmed(old(View()))
    {
      var running := false;
      if writetimer != 0 {
        running := TimerStop(writetimer);
      }
      if !running {
        if writetimer == 0 {
          IncRefcnt();
        }
        writetimer := TimerRegister();
      }
    }

    /** psync_fs_flush up to the point where it unlocks the file. */
    method Flush(cryptoFails: bool)
      requires Valid() && world.handles > 0
      modifies this
      ensures Valid() && View() == Flushed(old(View()), cryptoFails)
    {
      FlushedKeeps(View(), cryptoFails);
      TimerCount(View());
      if modified {
        if staticfile || cryptoFails {
          return;
        }
        releasedforupload := true;
        world := world.(released := writeid);
        if writetimer != 0 {
          var running := TimerStop(writetimer);
          if !running {
            refcnt := refcnt - 1;
            assert refcnt != 0;
            writetimer := 0;
          }
        }
      }
    }

    /** psync_fs_write_timer up to the point where it unlocks the file; it runs for the file's own timer. */
    method WriteTimer(timer: nat, cryptoFails: bool) returns (startsThread: bool)
      requires Valid() && timer in world.timers && world.timers[timer]
      modifies this
      ensures Valid() && View() == Fired(old(View()), cryptoFails)
      ensures startsThread <==> releasedforupload && !old(releasedforupload)
    {
      FiredKeeps(View(), cryptoFails);
      TimerCount(View());
      var running := TimerStop(timer);
      assert running;
      // the timer thread frees the timer when this callback is done
      world := world.(timers := world.timers - {timer});
      writetimer := 0;
      startsThread := false;
      if !releasedforupload && modified && !staticfile && !cryptoFails {
        releasedforupload := true;
        startsThread := true;
      }
      if startsThread {
        world := world.(starting := world.starting + 1, released := writeid);
      } else {
        world := world.(dropping := world.dropping + 1);
      }
    }

    /** Any holder that exists may take the next step. */
    method Take(step: Step)
      requires Valid() && Enabled(View(), step)
      modifies this
      ensures Valid() && View() == Next(old(View()), step)
    {
      hide Inv, Dropped, Rearmed, Flushed, Fired;
      NextKeeps(View(), step);
      EnabledMeans(View(), step);
      match step {
        case Open =>
          IncRefcnt();
          world := world.(handles := world.handles + 1);
        case Close =>
          world := world.(handles := world.handles - 1);
          DecRefcnt();
        case BeginRead =>
          IncRefcntAndReaders();
          world := world.(readers := world.readers + 1);
        case EndRead =>
          world := world.(readers := world.readers - 1);
          DecRefcntAndReaders();
        case Write =>
          IncWriteidLocked();
        case WriteWaits =>
          world := world.(waiting := world.waiting + 1);
        case WriteResumes =>
          world := world.(waiting := world.waiting - 1);
          IncWriteidLocked();
        case Flush(cryptoFails) =>
          Flush(cryptoFails);
        case TimerDue =>
          world := world.(timers := map t | t in world.timers :: true);
        case TimerLocked(cryptoFails) =>
          var startsThread := WriteTimer(writetimer, cryptoFails);
        case TimerStartsThread =>
          world := world.(starting := world.starting - 1, threads := world.threads + 1);
        case TimerDrops =>
          world := world.(dropping := world.dropping - 1);
          DecRefcnt();
        case ThreadEnds =>
          world := world.(threads := world.threads - 1);
          DecRefcnt();
        case Free =>
          world := world.(freeing := world.freeing - 1, freed := world.freed + 1);
        case SetFlags(m, st, r) =>
          modified, staticfile, releasedforupload := m, st, r;
      }
    }
  }

  /** What the callers of the file's methods rely on. */
  lemma EnabledMeans(s: State, step: Step)
    requires Inv(s) && Enabled(s, step)
    ensures step.Write? ==> s.f.inTree
    ensures step.WriteResumes? ==> s.f.inTree && Inv(s.(w := s.w.(waiting := s.w.waiting - 1)))
    ensures step.Flush? ==> s.w.handles > 0
    ensures step.TimerLocked? ==> s.f.writetimer in s.w.timers && s.w.timers[s.f.writetimer]
  {
    TimerCount(s);
  }
}
