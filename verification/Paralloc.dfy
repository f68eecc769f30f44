/**
  Preallocation as a protocol between fileset_createset's main thread and the
  detached allocation threads it spawns, over all interleavings.  A region under
  a lock is one step; a condition wait is a guard.  The outcome of allocating a
  file, the random order of picks and the random skips are free choices.
*/
module Paralloc {
  import opened AvlShape
  import opened FilesetSpec
  import opened Filesets

  /** MAX_PARALLOC_THREADS */
  const MAX_THREADS: nat := 32

  /** An allocation thread is at work on its file, or has released it and is about to report. */
  datatype Phase = Working | Released(ok: bool)

  /** The main thread: choosing a file, holding one, waiting for the threads, or done. */
  datatype Main = Choosing | Holding(p: Ptr) | Draining | Returned(ok: bool)

  /** One fileset of the list, with its paralloc attribute. */
  datatype Job = Job(files: set<Ptr>, parallel: bool)

  ghost function AllFiles(jobs: seq<Job>): set<Ptr> {
    set i, p | 0 <= i < |jobs| && p in jobs[i].files :: p
  }

  datatype Protocol = Protocol(
    jobs: seq<Job>,
    cur: nat,                  // the fileset being created
    files: Entries,            // the files of all filesets
    threads: map<Ptr, Phase>,  // live threads, by the file they allocate
    count: int,                // shm_fsparalloc_count
    main: Main,
    failed: bool,              // an allocation or a set-up step of this call failed
    reported: bool,            // a thread reported a failed allocation
    picked: seq<Ptr>           // what was picked, in order
  )

  datatype Act =
    | PickFile(p: Ptr) | PickNothing
    | Skip | Allocate(ok: bool) | Spawn | GiveUp
    | Release(p: Ptr, ok: bool) | Report(p: Ptr)
    | Return
    | Fails  // an error exit of a fileset's population, its directory tree or its leaf directories

  // ------------------------------------------------------------- the steps

  /** A file that nobody has picked yet. */
  predicate Open(e: Entry) {
    e.free && !e.busy
  }

  ghost predicate SomeOpen(s: Protocol) {
    s.cur < |s.jobs| && exists p :: p in s.jobs[s.cur].files && p in s.files && Open(s.files[p])
  }

  /** fileset_pick waits while the fileset has files and none is idle. */
  ghost predicate PickWaits(s: Protocol) {
    && s.cur < |s.jobs| && s.jobs[s.cur].files != {}
    && forall p :: p in s.jobs[s.cur].files && p in s.files ==> s.files[p].busy
  }

  ghost predicate Can(s: Protocol, a: Act) {
    match a
    case PickFile(p) =>
      && s.main == Choosing && s.cur < |s.jobs| && p in s.jobs[s.cur].files && p in s.files && Open(s.files[p])
    case PickNothing =>
      s.main == Choosing && s.cur < |s.jobs| && !SomeOpen(s) && !PickWaits(s)
    case Skip => s.main.Holding? && s.main.p in s.files
    case Allocate(ok) => s.main.Holding? && s.main.p in s.files && s.cur < |s.jobs| && !s.jobs[s.cur].parallel
    case Spawn => s.main.Holding? && s.cur < |s.jobs| && s.jobs[s.cur].parallel && 0 <= s.count < MAX_THREADS
    case GiveUp => s.main.Holding? && s.cur < |s.jobs| && s.jobs[s.cur].parallel && s.count < 0
    case Release(p, ok) => p in s.threads && s.threads[p] == Working
    case Report(p) => p in s.threads && s.threads[p].Released?
    case Return => s.main == Draining && s.count <= 0
    case Fails => s.main == Choosing
  }

  /** fileset_unbusy on a file that has been allocated or not. */
  function Settle(files: Entries, p: Ptr, ok: bool): Entries {
    if p in files then files[p := Unbusied(files[p], true, ok, 0)] else files
  }

  ghost function Do(s: Protocol, a: Act): Protocol
    requires Can(s, a)
  {
    match a
    case PickFile(p) =>
      s.(files := s.files[p := s.files[p].(busy := true)], main := Holding(p), picked := s.picked + [p])
    case PickNothing =>
      s.(cur := s.cur + 1, main := if s.cur + 1 == |s.jobs| then Draining else Choosing)
    case Skip =>
      s.(files := Settle(s.files, s.main.p, false), main := Choosing)
    case Allocate(ok) =>
      s.(files := Settle(s.files, s.main.p, ok), main := if ok then Choosing else Returned(false),
         failed := s.failed || !ok)
    case Spawn =>
      s.(count := s.count + 1, threads := s.threads[s.main.p := Working], main := Choosing)
    case GiveUp =>
      s.(main := Returned(false))
    case Release(p, ok) =>
      s.(files := Settle(s.files, p, ok), threads := s.threads[p := Released(ok)],
         failed := s.failed || (p in s.files && !ok))
    case Report(p) =>
      var ok := s.threads[p].ok;
      s.(count := if ok then s.count - 1 else -1, threads := s.threads - {p}, reported := s.reported || !ok)
    case Return =>
      s.(main := Returned(s.count >= 0))
    case Fails =>
      s.(main := Returned(false), failed := true)
  }

  // ------------------------------------------------ the picks of a fileset

  /** The protocol's view of the current fileset is the fileset itself. */
  ghost predicate Views(s: Protocol, fs: Fileset)
    reads fs
  {
    && s.cur < |s.jobs|
    && (forall p :: p in s.jobs[s.cur].files <==> p in fs.entries && fs.entries[p].kind == File)
    && (forall p :: p in s.jobs[s.cur].files ==> p in s.files && s.files[p] == fs.entries[p])
  }

  /**
    The guards of the pick steps are those of fileset_pick on the fileset: it finds
    all of the free-file tree busy exactly if no file is open, and it waits exactly
    if there are files and the idle counter is zero.
  */
  lemma PickGuards(s: Protocol, fs: Fileset)
    requires fs.Valid() && fs.Counted(File) && Views(s, fs)
    ensures FreeFiles in fs.trees && ByIndex(fs.trees[FreeFiles].Order(), fs.entries)
    ensures AllBusy(fs.trees[FreeFiles].Order(), fs.entries) <==> !SomeOpen(s)
    ensures PickWaits(s) <==> s.jobs[s.cur].files != {} && fs.idle[File] == 0
  {
    fs.TreeMembers(FreeFiles);
    fs.TreeByIndex(FreeFiles);
    HomeOfFree();
    var o := fs.trees[FreeFiles].Order();
    OpenInTree(s, fs, o);
    IdleOrNone(fs.entries);
  }

  lemma OpenInTree(s: Protocol, fs: Fileset, o: seq<Ptr>)
    requires Views(s, fs) && ByIndex(o, fs.entries)
    requires forall p :: p in o <==> p in fs.entries && fs.entries[p].kind == File && fs.entries[p].free
    ensures AllBusy(o, fs.entries) <==> !SomeOpen(s)
  {
    if SomeOpen(s) {
      var p :| p in s.jobs[s.cur].files && p in s.files && Open(s.files[p]);
      var i :| 0 <= i < |o| && o[i] == p;
    }
    if !AllBusy(o, fs.entries) {
      var i :| 0 <= i < |o| && !fs.entries[o[i]].busy;
      assert o[i] in o && o[i] in s.jobs[s.cur].files;
    }
  }

  lemma IdleOrNone(entries: Entries)
    ensures |Idle(entries, File)| == 0 <==> forall p :: p in entries && entries[p].kind == File ==> entries[p].busy
  {
    if |Idle(entries, File)| == 0 {
      assert Idle(entries, File) == {};
      assert forall p :: p in entries && entries[p].kind == File && !entries[p].busy ==> p in Idle(entries, File);
    } else {
      var p :| p in Idle(entries, File);
    }
  }

  // ------------------------------------------------------------------- runs

  ghost predicate Legal(s: Protocol, acts: seq<Act>)
    decreases |acts|
  {
    acts == [] || (Can(s, acts[0]) && Legal(Do(s, acts[0]), acts[1..]))
  }

  ghost function Run(s: Protocol, acts: seq<Act>): Protocol
    requires Legal(s, acts)
    decreases |acts|
  {
    if acts == [] then s else Run(Do(s, acts[0]), acts[1..])
  }

  /** The start of a call after population: every file is unused, and `left` are threads of an earlier call. */
  ghost predicate Start(s: Protocol, left: map<Ptr, Phase>) {
    && s.cur == 0 && s.count == 0 && s.threads == left && !s.failed && !s.reported && s.picked == []
    && s.main == (if s.jobs == [] then Draining else Choosing)
    && (forall p :: p in s.files ==> Open(s.files[p]))
    && (forall p :: p in left ==> p !in s.files)
    && s.files.Keys == AllFiles(s.jobs)
  }

  // -------------------------------------------------------------- invariant

  /** Who holds a busy file. */
  ghost predicate Held(s: Protocol, p: Ptr) {
    s.main == Holding(p) || (p in s.threads && s.threads[p] == Working)
  }

  ghost predicate FilesOk(s: Protocol) {
    && (forall p :: p in s.threads ==> p in s.files && (s.threads[p].Released? ==> !s.files[p].free))
    && (s.main.Holding? ==> s.main.p in s.files && s.main.p !in s.threads)
    && (forall p :: p in s.files ==>
          && (s.files[p].busy ==> s.files[p].free)
          && (Held(s, p) ==> s.files[p].busy)
          && (s.files[p].busy ==> Held(s, p) || s.main == Returned(false)))
  }

  ghost predicate PicksOk(s: Protocol) {
    && Distinct(s.picked)
    && forall p :: p in s.picked <==> p in s.files && !Open(s.files[p])
  }

  /** Filesets already left behind have no open file; while draining none has. */
  ghost predicate PassedOk(s: Protocol) {
    && s.cur <= |s.jobs|
    && (s.main == Draining ==> s.cur == |s.jobs|)
    && (s.main == Choosing || s.main.Holding? ==> s.cur < |s.jobs|)
    && (s.main == Returned(true) ==> s.cur == |s.jobs|)
    && s.files.Keys == AllFiles(s.jobs)
    && (forall i, p :: 0 <= i < s.cur && p in s.jobs[i].files && p in s.files ==> !Open(s.files[p]))
  }

  ghost predicate CountOk(s: Protocol) {
    && |s.threads| <= MAX_THREADS
    && (if s.reported then s.count < 0 else s.count == |s.threads|)
  }

  /** A failure shows: it was reported, a thread is about to report it, or the call has returned an error. */
  ghost predicate FailureOk(s: Protocol) {
    && (s.reported ==> s.failed)
    && (s.failed ==> s.reported || s.main == Returned(false) ||
                     exists p :: p in s.threads && s.threads[p] == Released(false))
    && (forall p :: p in s.threads && s.threads[p] == Released(false) ==> s.failed)
    && (s.main == Returned(false) ==> s.failed)
    && (s.main == Returned(true) ==> s.threads == map[] && !s.failed)
  }

  ghost predicate Inv(s: Protocol) {
    FilesOk(s) && PicksOk(s) && PassedOk(s) && CountOk(s) && FailureOk(s)
  }

  lemma StartInv(s: Protocol)
    requires Start(s, map[])
    ensures Inv(s)
  {
  }

  lemma DoFiles(s: Protocol, a: Act)
    requires FilesOk(s) && Can(s, a)
    ensures FilesOk(Do(s, a))
  {
  }

  lemma DoPicks(s: Protocol, a: Act)
    requires FilesOk(s) && PicksOk(s) && Can(s, a)
    ensures PicksOk(Do(s, a))
  {
  }

  lemma DoPassed(s: Protocol, a: Act)
    requires FilesOk(s) && PassedOk(s) && CountOk(s) && Can(s, a)
    ensures PassedOk(Do(s, a))
  {
    hide AllFiles;
    assert Do(s, a).files.Keys == s.files.Keys;
  }

  lemma DoCount(s: Protocol, a: Act)
    requires FilesOk(s) && CountOk(s) && Can(s, a)
    ensures CountOk(Do(s, a))
  {
  }

  lemma DoFailure(s: Protocol, a: Act)
    requires FilesOk(s) && CountOk(s) && FailureOk(s) && Can(s, a)
    ensures FailureOk(Do(s, a))
  {
    var t := Do(s, a);
    if a.Return? && t.main == Returned(true) {
      assert |s.threads| == 0;
      assert s.threads.Keys == {};
    }
    if t.failed && !t.reported && t.main != Returned(false) {
      if a.Release? && !a.ok && a.p in s.files {
        assert t.threads[a.p] == Released(false);
      } else {
        var p :| p in s.threads && s.threads[p] == Released(false);
        assert p in t.threads && t.threads[p] == Released(false);
      }
    }
  }

  lemma DoInv(s: Protocol, a: Act)
    requires Inv(s) && Can(s, a)
    ensures Inv(Do(s, a))
  {
    hide FilesOk, PicksOk, PassedOk, CountOk, FailureOk, Can, Do;
    DoFiles(s, a);
    DoPicks(s, a);
    DoPassed(s, a);
    DoCount(s, a);
    DoFailure(s, a);
  }

  lemma {:induction false} RunInv(s: Protocol, acts: seq<Act>)
    requires Inv(s) && Legal(s, acts)
    ensures Inv(Run(s, acts))
    decreases |acts|
  {
    hide Inv, Can, Do;
    if acts != [] {
      DoInv(s, acts[0]);
      RunInv(Do(s, acts[0]), acts[1..]);
    }
  }

  // ---------------------------------------------------------- main results

  /** Never more than 32 allocation threads are outstanding. */
  lemma ThreadBound(s: Protocol, acts: seq<Act>)
    requires Start(s, map[]) && Legal(s, acts)
    ensures |Run(s, acts).threads| <= 32
  {
    StartInv(s);
    RunInv(s, acts);
  }

  /** Once an error is reported the count stays negative for the rest of the call. */
  lemma ErrorSticks(s: Protocol, acts: seq<Act>)
    requires Start(s, map[]) && Legal(s, acts) && Run(s, acts).reported
    ensures Run(s, acts).count < 0
  {
    StartInv(s);
    RunInv(s, acts);
  }

  datatype Verdict = Unsettled | Settled(ok: bool)

  /** What a step says about the file p: skipped, or allocated or not. */
  ghost function Said(s: Protocol, a: Act, p: Ptr): Verdict {
    match a
    case Skip => if s.main == Holding(p) then Settled(false) else Unsettled
    case Allocate(ok) => if s.main == Holding(p) then Settled(ok) else Unsettled
    case Release(q, ok) => if q == p then Settled(ok) else Unsettled
    case _ => Unsettled
  }

  /** What a run says about the file p in the end. */
  ghost function Outcome(s: Protocol, acts: seq<Act>, p: Ptr): Verdict
    requires Legal(s, acts)
    decreases |acts|
  {
    if acts == [] then Unsettled
    else
      var later := Outcome(Do(s, acts[0]), acts[1..], p);
      if later.Settled? then later else Said(s, acts[0], p)
  }

  /** The file p was picked and then skipped by the draw. */
  ghost predicate Skipped(s: Protocol, acts: seq<Act>, p: Ptr)
    requires Legal(s, acts)
    decreases |acts|
  {
    acts != [] && ((acts[0] == Skip && s.main == Holding(p)) || Skipped(Do(s, acts[0]), acts[1..], p))
  }

  lemma StepOutcome(s: Protocol, a: Act, p: Ptr)
    requires FilesOk(s) && Can(s, a) && p in s.files
    ensures p in Do(s, a).files
    ensures var e, f := s.files[p], Do(s, a).files[p];
      match Said(s, a, p)
      case Unsettled => f.free == e.free && f.onDisk == e.onDisk
      case Settled(ok) => e.free && !f.free && f.onDisk == ok
  {
  }

  /** Over every run a file is settled exactly if a step settled it, and on disk as that step says. */
  lemma {:induction false} RunOutcome(s: Protocol, acts: seq<Act>, p: Ptr)
    requires Inv(s) && Legal(s, acts) && p in s.files
    ensures p in Run(s, acts).files
    ensures var e, f := s.files[p], Run(s, acts).files[p];
      match Outcome(s, acts, p)
      case Unsettled => f.free == e.free && f.onDisk == e.onDisk
      case Settled(ok) => !f.free && f.onDisk == ok
    ensures !s.files[p].free ==> Outcome(s, acts, p) == Unsettled && !Skipped(s, acts, p)
    decreases |acts|
  {
    hide Inv, Do, Can, Said;
    if acts != [] {
      InvFiles(s);
      StepOutcome(s, acts[0], p);
      SkipSays(s, acts[0], p);
      DoInv(s, acts[0]);
      RunOutcome(Do(s, acts[0]), acts[1..], p);
    }
  }

  lemma InvFiles(s: Protocol)
    requires Inv(s)
    ensures FilesOk(s)
  {
  }

  lemma SkipSays(s: Protocol, a: Act, p: Ptr)
    ensures a == Skip && s.main == Holding(p) ==> Said(s, a, p) == Settled(false)
  {
  }

  /** In a run without a failure only a skip settles a file as not on disk. */
  lemma {:induction false} OnlySkips(s: Protocol, acts: seq<Act>, p: Ptr)
    requires Inv(s) && Legal(s, acts) && p in s.files && !Run(s, acts).failed
    ensures Outcome(s, acts, p).Settled? ==> (Outcome(s, acts, p).ok <==> !Skipped(s, acts, p))
    ensures Outcome(s, acts, p) == Unsettled ==> !Skipped(s, acts, p)
    decreases |acts|
  {
    hide Inv, Do, Can, Said;
    if acts != [] {
      InvFiles(s);
      var t := Do(s, acts[0]);
      StepOutcome(s, acts[0], p);
      DoInv(s, acts[0]);
      RunOutcome(t, acts[1..], p);
      FailedStays(t, acts[1..]);
      SaidOk(s, acts[0], p);
      OnlySkips(t, acts[1..], p);
    }
  }

  lemma SaidOk(s: Protocol, a: Act, p: Ptr)
    requires FilesOk(s) && Can(s, a) && p in s.files && !Do(s, a).failed
    ensures Said(s, a, p).Settled? ==> (Said(s, a, p).ok <==> !(a == Skip && s.main == Holding(p)))
    ensures a == Skip && s.main == Holding(p) ==> Said(s, a, p).Settled?
  {
  }

  lemma {:induction false} FailedStays(s: Protocol, acts: seq<Act>)
    requires Legal(s, acts)
    ensures s.failed ==> Run(s, acts).failed
    decreases |acts|
  {
    hide Settle;
    if acts != [] {
      FailedStays(Do(s, acts[0]), acts[1..]);
    }
  }

  /** The call returns OK only when every thread has finished, none failed, and every file was picked and settled. */
  lemma ReturnsOk(s: Protocol, acts: seq<Act>)
    requires Start(s, map[]) && Legal(s, acts) && Run(s, acts).main == Returned(true)
    ensures var t := Run(s, acts);
      && t.threads == map[] && !t.failed
      && (forall p :: p in t.files ==> !t.files[p].free && !t.files[p].busy)
      && Distinct(t.picked) && (forall p :: p in t.picked <==> p in t.files)
    ensures forall p :: p in s.files <==> p in Run(s, acts).files
    ensures forall p :: p in s.files ==> (Run(s, acts).files[p].onDisk <==> !Skipped(s, acts, p))
  {
    StartInv(s);
    RunInv(s, acts);
    SameFiles(s, acts);
    var t := Run(s, acts);
    forall p | p in t.files ensures !t.files[p].free && !t.files[p].busy {
      assert p in AllFiles(t.jobs);
    }
    forall p | p in s.files ensures t.files[p].onDisk <==> !Skipped(s, acts, p) {
      RunOutcome(s, acts, p);
      OnlySkips(s, acts, p);
      assert !t.files[p].free && s.files[p].free;
    }
  }

  lemma {:induction false} SameFiles(s: Protocol, acts: seq<Act>)
    requires Legal(s, acts)
    ensures Run(s, acts).files.Keys == s.files.Keys
    decreases |acts|
  {
    if acts != [] {
      SameFiles(Do(s, acts[0]), acts[1..]);
    }
  }

  /** The call returns an error only when an allocation or a set-up step of this call failed. */
  lemma ReturnsError(s: Protocol, acts: seq<Act>)
    requires Start(s, map[]) && Legal(s, acts) && Run(s, acts).main == Returned(false)
    ensures Run(s, acts).failed
  {
    StartInv(s);
    RunInv(s, acts);
  }

  /** The main thread has no step of its own to take. */
  ghost predicate Blocked(s: Protocol) {
    match s.main
    case Choosing => PickWaits(s)
    case Holding(p) => s.count >= MAX_THREADS && s.cur < |s.jobs| && s.jobs[s.cur].parallel
    case Draining => s.count > 0
    case Returned(_) => false
  }

  /** A step of the main thread that it can always take, whatever is drawn and even if nothing fails. */
  ghost predicate MainAct(a: Act) {
    !a.Release? && !a.Report? && !a.Skip? && !a.Fails?
  }

  ghost predicate ThreadAct(a: Act) {
    a.Release? || a.Report?
  }

  /** Until the call returns, the main thread can step unless it is blocked; and then a live thread can step. */
  lemma NoDeadlock(s: Protocol, acts: seq<Act>)
    requires Start(s, map[]) && Legal(s, acts) && !Run(s, acts).main.Returned?
    ensures var t := Run(s, acts);
      && (!Blocked(t) ==> exists a :: MainAct(a) && Can(t, a))
      && (Blocked(t) ==> exists a :: ThreadAct(a) && Can(t, a))
  {
    StartInv(s);
    RunInv(s, acts);
    var t := Run(s, acts);
    if Blocked(t) {
      BlockedMeansLive(t);
      var p :| p in t.threads;
      if t.threads[p] == Working {
        assert Can(t, Release(p, true)) && ThreadAct(Release(p, true));
      } else {
        assert Can(t, Report(p)) && ThreadAct(Report(p));
      }
    } else {
      MainCanStep(t);
    }
  }

  lemma BlockedMeansLive(t: Protocol)
    requires Inv(t) && Blocked(t)
    ensures exists p :: p in t.threads
  {
    if t.main == Choosing {
      var p :| p in t.jobs[t.cur].files;
      assert p in AllFiles(t.jobs);
      assert t.files[p].busy && Held(t, p);
    } else {
      assert |t.threads.Keys| > 0;
    }
  }

  lemma MainCanStep(t: Protocol)
    requires Inv(t) && !Blocked(t) && !t.main.Returned?
    ensures exists a :: MainAct(a) && Can(t, a)
  {
    match t.main
    case Choosing =>
      if SomeOpen(t) {
        var p :| p in t.jobs[t.cur].files && p in t.files && Open(t.files[p]);
        assert Can(t, PickFile(p)) && MainAct(PickFile(p));
      } else {
        assert Can(t, PickNothing) && MainAct(PickNothing);
      }
    case Holding(p) =>
      var a := if !t.jobs[t.cur].parallel then Allocate(true) else if t.count < 0 then GiveUp else Spawn;
      assert Can(t, a) && MainAct(a);
    case Draining =>
      assert Can(t, Return) && MainAct(Return);
  }

  // ----------------------------------------------------------- termination

  ghost function OpenFiles(s: Protocol): set<Ptr> {
    set p | p in s.files && Open(s.files[p])
  }

  ghost function WorkingThreads(s: Protocol): set<Ptr> {
    set p | p in s.threads && s.threads[p] == Working
  }

  function MainWeight(m: Main): nat {
    match m case Choosing => 1 case Holding(_) => 4 case Draining => 1 case Returned(_) => 0
  }

  /** How many steps can still be taken. */
  ghost function Fuel(s: Protocol): int {
    4 * |OpenFiles(s)| + |s.threads| + |WorkingThreads(s)| + MainWeight(s.main) + (|s.jobs| - s.cur)
  }

  lemma OpenChange(s: Protocol, a: Act)
    requires FilesOk(s) && Can(s, a)
    ensures |OpenFiles(Do(s, a))| == |OpenFiles(s)| - if a.PickFile? then 1 else 0
  {
    var t := Do(s, a);
    if a.PickFile? {
      CountChange(OpenFiles(s), OpenFiles(t), a.p);
    } else {
      assert OpenFiles(t) == OpenFiles(s);
    }
  }

  lemma WorkChange(s: Protocol, a: Act)
    requires FilesOk(s) && Can(s, a)
    ensures |WorkingThreads(Do(s, a))| == |WorkingThreads(s)| + if a.Spawn? then 1 else if a.Release? then -1 else 0
    ensures |Do(s, a).threads| == |s.threads| + if a.Spawn? then 1 else if a.Report? then -1 else 0
  {
    hide Settle;
    var t := Do(s, a);
    if a.Spawn? {
      CountChange(WorkingThreads(s), WorkingThreads(t), s.main.p);
    } else if a.Release? {
      CountChange(WorkingThreads(s), WorkingThreads(t), a.p);
      assert t.threads.Keys == s.threads.Keys;
    } else {
      assert WorkingThreads(t) == WorkingThreads(s);
    }
  }

  lemma FuelDrops(s: Protocol, a: Act)
    requires FilesOk(s) && Can(s, a)
    ensures Fuel(Do(s, a)) < Fuel(s)
  {
    hide FilesOk, OpenFiles, WorkingThreads, Settle, SomeOpen, PickWaits;
    OpenChange(s, a);
    WorkChange(s, a);
  }

  /** No run takes more than four steps per file, one per fileset and one more: with no deadlock, the call returns. */
  lemma {:induction false} RunsEnd(s: Protocol, acts: seq<Act>)
    requires Inv(s) && Legal(s, acts)
    ensures |acts| <= Fuel(s)
    decreases |acts|
  {
    if acts == [] {
      assert |s.jobs| >= s.cur;
    } else {
      FuelDrops(s, acts[0]);
      DoInv(s, acts[0]);
      RunsEnd(Do(s, acts[0]), acts[1..]);
    }
  }

  lemma CreateSetEnds(s: Protocol, acts: seq<Act>)
    requires Start(s, map[]) && Legal(s, acts)
    ensures |acts| <= 4 * |s.files| + |s.jobs| + 1
  {
    StartInv(s);
    RunsEnd(s, acts);
    assert OpenFiles(s) == s.files.Keys;
    assert WorkingThreads(s) == {};
  }

  // ------------------------------------------- threads of an earlier call

  /** Whatever the interleaving, the call returns OK exactly if nothing of its own failed. */
  ghost predicate Accurate(s: Protocol) {
    forall acts :: Legal(s, acts) && Run(s, acts).main.Returned? ==>
      (Run(s, acts).main.ok <==> !Run(s, acts).failed)
  }

  lemma OneMore(s: Protocol, a: Act, rest: seq<Act>)
    requires Can(s, a) && Legal(Do(s, a), rest)
    ensures Legal(s, [a] + rest) && Run(s, [a] + rest) == Run(Do(s, a), rest)
  {
    hide Can, Do;
    assert ([a] + rest)[1..] == rest;
  }

  /** Nothing of this call is in flight, and the count already tells of an error. */
  ghost predicate Doomed(s: Protocol) {
    && s.count < 0 && !s.failed && (s.main == Choosing || s.main == Draining)
    && s.cur <= |s.jobs| && (s.main == Choosing ==> s.cur < |s.jobs|)
    && (forall p :: p in s.files ==> !s.files[p].busy)
    && s.files.Keys == AllFiles(s.jobs)
  }

  lemma DoomedPick(s: Protocol, p: Ptr)
    requires Doomed(s) && s.main == Choosing && p in s.jobs[s.cur].files && p in s.files && Open(s.files[p])
    ensures Can(s, PickFile(p))
    ensures var t := Do(s, PickFile(p));
      if s.jobs[s.cur].parallel then
        Can(t, GiveUp) && Do(t, GiveUp).main == Returned(false) && !Do(t, GiveUp).failed
      else
        && Can(t, Allocate(true)) && Doomed(Do(t, Allocate(true)))
        && |OpenFiles(Do(t, Allocate(true)))| < |OpenFiles(s)|
  {
    hide AllFiles;
    var t := Do(s, PickFile(p));
    if !s.jobs[s.cur].parallel {
      var u := Do(t, Allocate(true));
      CountChange(OpenFiles(s), OpenFiles(u), p);
      assert u.files.Keys == s.files.Keys;
    }
  }

  lemma DoomedNext(s: Protocol)
    requires Doomed(s) && s.main == Choosing && !SomeOpen(s)
    ensures Can(s, PickNothing) && Doomed(Do(s, PickNothing))
    ensures |OpenFiles(Do(s, PickNothing))| == |OpenFiles(s)|
    ensures Do(s, PickNothing).jobs == s.jobs && Do(s, PickNothing).cur == s.cur + 1
  {
    assert PickWaits(s) ==> exists p :: p in s.jobs[s.cur].files && p in AllFiles(s.jobs);
    assert OpenFiles(Do(s, PickNothing)) == OpenFiles(s);
  }

  /** From such a state the call can go on without any failure of its own and still return an error. */
  lemma {:induction false} FalseError(s: Protocol) returns (acts: seq<Act>)
    requires Doomed(s)
    ensures Legal(s, acts) && Run(s, acts).main == Returned(false) && !Run(s, acts).failed
    decreases |OpenFiles(s)|, |s.jobs| - s.cur
  {
    if s.main == Draining {
      acts := [Return];
      OneMore(s, Return, []);
    } else if SomeOpen(s) {
      var p :| p in s.jobs[s.cur].files && p in s.files && Open(s.files[p]);
      acts := FalseErrorAt(s, p);
    } else {
      hide Can, Do, SomeOpen, OpenFiles;
      DoomedNext(s);
      acts := FalseError(Do(s, PickNothing));
      OneMore(s, PickNothing, acts);
      acts := [PickNothing] + acts;
    }
  }

  lemma {:induction false} FalseErrorAt(s: Protocol, p: Ptr) returns (acts: seq<Act>)
    requires Doomed(s) && s.main == Choosing && p in s.jobs[s.cur].files && p in s.files && Open(s.files[p])
    ensures Legal(s, acts) && Run(s, acts).main == Returned(false) && !Run(s, acts).failed
    decreases |OpenFiles(s)|, |s.jobs| - s.cur, 0
  {
    hide Can, Do, OpenFiles;
    DoomedPick(s, p);
    var t := Do(s, PickFile(p));
    if s.jobs[s.cur].parallel {
      OneMore(t, GiveUp, []);
      acts := [GiveUp] + [];
    } else {
      var u := Do(t, Allocate(true));
      acts := FalseError(u);
      OneMore(t, Allocate(true), acts);
      acts := [Allocate(true)] + acts;
    }
    OneMore(s, PickFile(p), acts);
    acts := [PickFile(p)] + acts;
  }

  lemma StaleReport(s: Protocol, left: map<Ptr, Phase>) returns (acts: seq<Act>)
    requires Start(s, left) && left != map[]
    ensures Legal(s, acts) && Doomed(Run(s, acts))
  {
    var p :| p in left;
    if s.threads[p] == Working {
      acts := [Release(p, true), Report(p)];
      var t := Do(s, Release(p, true));
      OneMore(t, Report(p), []);
      OneMore(s, Release(p, true), [Report(p)]);
      assert acts == [Release(p, true)] + ([Report(p)] + []);
    } else {
      acts := [Report(p)];
      OneMore(s, Report(p), []);
    }
  }

  lemma {:induction false} Joined(s: Protocol, first: seq<Act>, rest: seq<Act>)
    requires Legal(s, first) && Legal(Run(s, first), rest)
    ensures Legal(s, first + rest) && Run(s, first + rest) == Run(Run(s, first), rest)
    decreases |first|
  {
    hide Can, Do;
    if first == [] {
      assert first + rest == rest;
    } else {
      Joined(Do(s, first[0]), first[1..], rest);
      assert (first + rest)[1..] == first[1..] + rest;
    }
  }

  /** The count is reset at the start of a call: its result can be trusted iff no thread of an earlier call is alive. */
  lemma TrustedIffNoneLeft(s: Protocol, left: map<Ptr, Phase>)
    requires Start(s, left)
    ensures Accurate(s) <==> left == map[]
  {
    if left == map[] {
      forall acts | Legal(s, acts) && Run(s, acts).main.Returned?
        ensures Run(s, acts).main.ok <==> !Run(s, acts).failed
      {
        StartInv(s);
        RunInv(s, acts);
      }
    } else {
      var first := StaleReport(s, left);
      var rest := FalseError(Run(s, first));
      Joined(s, first, rest);
    }
  }

  /** Both files of a parallel fileset are being allocated. */
  ghost predicate TwoAtWork(t: Protocol, p: Ptr, q: Ptr) {
    && p != q && t.jobs == [Job({p, q}, true)] && t.cur == 0 && t.main == Choosing
    && p in t.files && q in t.files && t.files[q].busy
    && t.threads == map[p := Working, q := Working]
  }

  lemma SpawnBoth(s: Protocol, p: Ptr, q: Ptr) returns (acts: seq<Act>)
    requires Start(s, map[]) && s.jobs == [Job({p, q}, true)] && p != q
    ensures Legal(s, acts) && TwoAtWork(Run(s, acts), p, q)
  {
    assert s.jobs[0].files == {p, q};
    var s1 := Do(s, PickFile(p));
    var s2 := Do(s1, Spawn);
    var s3 := Do(s2, PickFile(q));
    acts := [PickFile(p), Spawn, PickFile(q), Spawn];
    OneMore(s3, Spawn, []);
    OneMore(s2, PickFile(q), [Spawn]);
    OneMore(s1, Spawn, [PickFile(q), Spawn]);
    OneMore(s, PickFile(p), [Spawn, PickFile(q), Spawn]);
  }

  lemma FailOne(t: Protocol, p: Ptr, q: Ptr) returns (acts: seq<Act>)
    requires TwoAtWork(t, p, q)
    ensures Legal(t, acts) && Run(t, acts).main == Returned(false) && Run(t, acts).threads == map[q := Working]
  {
    var t1 := Do(t, Release(p, false));
    var t2 := Do(t1, Report(p));
    assert p in t2.jobs[0].files && !t2.files[p].busy;
    var t3 := Do(t2, PickNothing);
    acts := [Release(p, false), Report(p), PickNothing, Return];
    OneMore(t3, Return, []);
    OneMore(t2, PickNothing, [Return]);
    OneMore(t1, Report(p), [PickNothing, Return]);
    OneMore(t, Release(p, false), [Report(p), PickNothing, Return]);
  }

  /** And a call does return an error with live threads: a failure reported while another thread is at work. */
  lemma LeavesThreads(s: Protocol, p: Ptr, q: Ptr)
    requires Start(s, map[]) && s.jobs == [Job({p, q}, true)] && p != q
    ensures exists acts :: Legal(s, acts) && Run(s, acts).main == Returned(false)
              && Run(s, acts).threads == map[q := Working]
  {
    var first := SpawnBoth(s, p, q);
    var rest := FailOne(Run(s, first), p, q);
    Joined(s, first, rest);
  }
}
