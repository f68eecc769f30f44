/**
  The entries of a fileset as values, and what each operation that holds the
  pick lock does to them.  A region under fs_pick_lock is one atomic step; class
  Filesets.Fileset carries the steps out on AVL trees.
*/
module FilesetSpec {
  import opened AvlShape

  datatype Kind = File | Dir | LeafDir

  /** The flag bits of fse_flags that matter here, with the index and the open count. */
  datatype Entry = Entry(kind: Kind, index: nat, free: bool, onDisk: bool, busy: bool, waiting: bool, opens: int)

  /** The AVL trees of a fileset. */
  datatype TreeId =
    | FreeFiles | NoexFiles | ExistFiles
    | FreeLeafDirs | NoexLeafDirs | ExistLeafDirs
    | AllDirs

  function KindOf(t: TreeId): Kind {
    match t
    case FreeFiles | NoexFiles | ExistFiles => File
    case FreeLeafDirs | NoexLeafDirs | ExistLeafDirs => LeafDir
    case AllDirs => Dir
  }

  /** The stages of a file or leaf directory: unused, known not to be on disk, on disk. */
  datatype Stage = Free | Noexist | Exist

  function TreeAt(kind: Kind, stage: Stage): (t: TreeId)
    ensures KindOf(t) == kind
  {
    match kind
    case File => (match stage case Free => FreeFiles case Noexist => NoexFiles case Exist => ExistFiles)
    case LeafDir => (match stage case Free => FreeLeafDirs case Noexist => NoexLeafDirs case Exist => ExistLeafDirs)
    case Dir => AllDirs
  }

  /** The tree that the flags of an entry name. */
  function Home(e: Entry): (t: TreeId)
    ensures KindOf(t) == e.kind
  {
    TreeAt(e.kind, if e.free then Free else if e.onDisk then Exist else Noexist)
  }

  type Entries = map<Ptr, Entry>

  /** No two entries of one kind share an index. */
  ghost predicate DistinctIndexes(entries: Entries) {
    forall p, q :: p in entries && q in entries && p != q && entries[p].kind == entries[q].kind ==>
      entries[p].index != entries[q].index
  }

  /** Where the flags say the entries are. */
  ghost function Homes(entries: Entries): map<Ptr, TreeId> {
    map p | p in entries :: Home(entries[p])
  }

  lemma DistinctInsert(entries: Entries, p: Ptr, e: Entry)
    requires DistinctIndexes(entries) && p !in entries
    requires forall q :: q in entries && entries[q].kind == e.kind ==> entries[q].index != e.index
    ensures DistinctIndexes(entries[p := e])
  {
  }

  lemma HomesAre(entries: Entries)
    ensures Homes(entries).Keys == entries.Keys
    ensures forall q :: q in entries ==> Homes(entries)[q] == Home(entries[q])
  {
  }

  lemma HomesUpdate(entries: Entries, p: Ptr, e: Entry)
    ensures Homes(entries[p := e]) == Homes(entries)[p := Home(e)]
    ensures p in entries && Home(entries[p]) == Home(e) ==> Homes(entries[p := e]) == Homes(entries)
  {
    if p in entries && Home(entries[p]) == Home(e) {
      assert Homes(entries)[p := Home(e)] == Homes(entries);
    }
  }

  /** A new entry as the list-insert functions flag it. */
  function NewEntry(kind: Kind, index: nat): Entry {
    Entry(kind, index, kind != Dir, kind == Dir, false, false, 0)
  }

  /** What fileset_unbusy does to the entry. */
  function Unbusied(e: Entry, updateExist: bool, newExist: bool, openIncr: int): Entry {
    var e1 := if !updateExist then e else e.(free := false, onDisk := newExist);
    e1.(opens := e1.opens + openIncr, busy := false, waiting := if e1.busy then false else e1.waiting)
  }

  // ------------------------------------------------------------------ steps

  /** The entries and the three idle counters. */
  datatype State = State(entries: Entries, idle: map<Kind, int>)

  ghost predicate Wf(s: State) {
    forall k: Kind :: k in s.idle
  }

  const EMPTY: State := State(map[], map[File := 0, Dir := 0, LeafDir := 0])

  datatype Op =
    | Insert(p: Ptr, kind: Kind)                                        // fileset_populate_*, fileset_ins*list
    | Pick(p: Ptr)                                                      // fileset_pick returning p
    | Unbusy(p: Ptr, updateExist: bool, newExist: bool, openIncr: int)  // fileset_unbusy
    | DeleteGrab(p: Ptr)                                                // flowoplib_deletefile taking p
    | CloseGrab(p: Ptr)                                                 // flowoplib_closefile taking p
    | Await(p: Ptr)                                                     // either of them going to sleep on p
    | FailedDir                                                         // fileset_populate_subdir out of path memory

  /** When the step can be taken; a wait is a guard. */
  ghost predicate Enabled(s: State, op: Op) {
    Wf(s) &&
    match op
    case Insert(p, kind) =>
      && p !in s.entries && s.idle[kind] >= 0
      && forall q :: q in s.entries && s.entries[q].kind == kind ==> s.entries[q].index != s.idle[kind]
    case Pick(p) => p in s.entries && !s.entries[p].busy && s.idle[s.entries[p].kind] != 0
    case Unbusy(p, _, _, _) => p in s.entries
    case DeleteGrab(p) => p in s.entries && s.entries[p].kind == File && !s.entries[p].busy
    case CloseGrab(p) => p in s.entries && s.entries[p].kind == File && !s.entries[p].busy
    case Await(p) => p in s.entries && s.entries[p].busy
    case FailedDir => true
  }

  ghost function Step(s: State, op: Op): State
    requires Enabled(s, op)
  {
    match op
    case Insert(p, kind) =>
      State(s.entries[p := NewEntry(kind, s.idle[kind])], s.idle[kind := s.idle[kind] + 1])
    case Pick(p) =>
      Grabbed(s, p, 1)
    case Unbusy(p, u, n, o) =>
      var e := s.entries[p];
      State(s.entries[p := Unbusied(e, u, n, o)], s.idle[e.kind := s.idle[e.kind] + (if e.busy then 1 else 0)])
    case DeleteGrab(p) =>
      Grabbed(s, p, 1)
    case CloseGrab(p) =>
      Grabbed(s, p, if s.entries[p].opens == 1 then 1 else 0)
    case Await(p) =>
      s.(entries := s.entries[p := s.entries[p].(waiting := true)])
    case FailedDir =>
      s.(idle := s.idle[Dir := s.idle[Dir] + 1])
  }

  ghost function Grabbed(s: State, p: Ptr, taken: int): State
    requires Wf(s) && p in s.entries
  {
    var e := s.entries[p];
    State(s.entries[p := e.(busy := true)], s.idle[e.kind := s.idle[e.kind] - taken])
  }

  // ------------------------------------------------------------------- runs

  ghost predicate Legal(s: State, ops: seq<Op>)
    decreases |ops|
  {
    ops == [] || (Enabled(s, ops[0]) && Legal(Step(s, ops[0]), ops[1..]))
  }

  ghost function Run(s: State, ops: seq<Op>): State
    requires Legal(s, ops)
    decreases |ops|
  {
    if ops == [] then s else Run(Step(s, ops[0]), ops[1..])
  }

  // ----------------------------------------------------------- idle counters

  /** The entries of one kind that nobody holds. */
  ghost function Idle(entries: Entries, k: Kind): set<Ptr> {
    set p | p in entries && entries[p].kind == k && !entries[p].busy
  }

  /** How often a run closes a file whose open count is not one. */
  ghost function OddCloses(s: State, ops: seq<Op>): nat
    requires Legal(s, ops)
    decreases |ops|
  {
    if ops == [] then 0
    else (if ops[0].CloseGrab? && s.entries[ops[0].p].opens != 1 then 1 else 0) + OddCloses(Step(s, ops[0]), ops[1..])
  }

  /** How often a run draws the index of a directory that is then not entered. */
  function FailedDirs(ops: seq<Op>): nat {
    if ops == [] then 0 else (if ops[0].FailedDir? then 1 else 0) + FailedDirs(ops[1..])
  }

  /** How far off a run leaves the counter of a kind. */
  ghost function Drift(s: State, ops: seq<Op>, k: Kind): nat
    requires Legal(s, ops)
  {
    match k
    case File => OddCloses(s, ops)
    case Dir => FailedDirs(ops)
    case LeafDir => 0
  }

  lemma IdleChange(entries: Entries, p: Ptr, e: Entry, k: Kind)
    requires p in entries ==> entries[p].kind == e.kind
    ensures |Idle(entries[p := e], k)| ==
            |Idle(entries, k)| + (if e.kind == k && !e.busy then 1 else 0)
            - (if p in entries && e.kind == k && !entries[p].busy then 1 else 0)
  {
    var a, b := Idle(entries, k), Idle(entries[p := e], k);
    CountChange(a, b, p);
  }

  lemma CountChange(a: set<Ptr>, b: set<Ptr>, p: Ptr)
    requires forall q :: q != p ==> (q in a <==> q in b)
    ensures |b| == |a| + (if p in b then 1 else 0) - (if p in a then 1 else 0)
  {
    assert a - {p} == b - {p};
    CountWith(a, p);
    CountWith(b, p);
  }

  lemma CountWith(a: set<Ptr>, p: Ptr)
    ensures |a| == |a - {p}| + (if p in a then 1 else 0)
  {
    if p in a {
      assert a == (a - {p}) + {p};
    } else {
      assert a == a - {p};
    }
  }

  /** One step moves a counter as it moves the number of idle entries, except for an odd close or a failed directory. */
  lemma StepIdle(s: State, op: Op, k: Kind)
    requires Enabled(s, op)
    ensures Wf(Step(s, op))
    ensures Step(s, op).idle[k] - |Idle(Step(s, op).entries, k)| ==
            s.idle[k] - |Idle(s.entries, k)|
            + (if op.CloseGrab? && s.entries[op.p].opens != 1 && k == File then 1 else 0)
            + (if op.FailedDir? && k == Dir then 1 else 0)
  {
    if !op.FailedDir? {
      IdleChange(s.entries, op.p, Step(s, op).entries[op.p], k);
      assert Step(s, op).entries == s.entries[op.p := Step(s, op).entries[op.p]];
    }
  }

  /** Over every run the counters are off by exactly the number of odd closes and of failed directories. */
  lemma {:induction false} RunIdle(s: State, ops: seq<Op>, k: Kind)
    requires Wf(s) && Legal(s, ops)
    ensures Wf(Run(s, ops))
    ensures Run(s, ops).idle[k] - |Idle(Run(s, ops).entries, k)| ==
            s.idle[k] - |Idle(s.entries, k)| + Drift(s, ops, k)
    decreases |ops|
  {
    if ops != [] {
      StepIdle(s, ops[0], k);
      RunIdle(Step(s, ops[0]), ops[1..], k);
    }
  }

  /** A counter counts the idle entries of its kind if and only if no close was odd, or no directory failed. */
  lemma IdleCounters(ops: seq<Op>)
    requires Legal(EMPTY, ops)
    ensures Wf(Run(EMPTY, ops))
    ensures Run(EMPTY, ops).idle[Dir] == |Idle(Run(EMPTY, ops).entries, Dir)| <==> FailedDirs(ops) == 0
    ensures Run(EMPTY, ops).idle[LeafDir] == |Idle(Run(EMPTY, ops).entries, LeafDir)|
    ensures Run(EMPTY, ops).idle[File] == |Idle(Run(EMPTY, ops).entries, File)| <==> OddCloses(EMPTY, ops) == 0
  {
    EmptyWf();
    RunIdle(EMPTY, ops, File);
    RunIdle(EMPTY, ops, Dir);
    RunIdle(EMPTY, ops, LeafDir);
    assert forall k :: Idle(EMPTY.entries, k) == {};
  }

  // ------------------------------------------------------------- exclusion

  lemma {:induction false} OneMore(s: State, op: Op, rest: seq<Op>)
    requires Enabled(s, op) && Legal(Step(s, op), rest)
    ensures Legal(s, [op] + rest) && Run(s, [op] + rest) == Run(Step(s, op), rest)
    ensures OddCloses(s, [op] + rest) ==
            (if op.CloseGrab? && s.entries[op.p].opens != 1 then 1 else 0) + OddCloses(Step(s, op), rest)
  {
    hide Enabled, Step;
    assert ([op] + rest)[1..] == rest;
  }

  lemma EmptyWf()
    ensures Wf(EMPTY)
  {
    forall k: Kind ensures k in EMPTY.idle {
      match k case File => case Dir => case LeafDir =>
    }
  }

  /** One file, opened twice. */
  ghost function OpenedTwice(p: Ptr): seq<Op> {
    [Insert(p, File), Pick(p), Unbusy(p, true, true, 1), Pick(p), Unbusy(p, false, false, 1)]
  }

  lemma OpenTwice(p: Ptr)
    ensures Legal(EMPTY, OpenedTwice(p)) && OddCloses(EMPTY, OpenedTwice(p)) == 0
    ensures Run(EMPTY, OpenedTwice(p)) ==
            State(map[p := Entry(File, 0, false, true, false, false, 2)], map[File := 1, Dir := 0, LeafDir := 0])
  {
    EmptyWf();
    var s1 := Step(EMPTY, Insert(p, File));
    var s2 := Step(s1, Pick(p));
    var s3 := Step(s2, Unbusy(p, true, true, 1));
    var s4 := Step(s3, Pick(p));
    OneMore(s4, Unbusy(p, false, false, 1), []);
    OneMore(s3, Pick(p), [Unbusy(p, false, false, 1)]);
    OneMore(s2, Unbusy(p, true, true, 1), [Pick(p), Unbusy(p, false, false, 1)]);
    OneMore(s1, Pick(p), [Unbusy(p, true, true, 1), Pick(p), Unbusy(p, false, false, 1)]);
    OneMore(EMPTY, Insert(p, File), [Pick(p), Unbusy(p, true, true, 1), Pick(p), Unbusy(p, false, false, 1)]);
  }

  lemma {:induction false} Joined(s: State, first: seq<Op>, rest: seq<Op>)
    requires Legal(s, first) && Legal(Run(s, first), rest)
    ensures Legal(s, first + rest) && Run(s, first + rest) == Run(Run(s, first), rest)
    ensures OddCloses(s, first + rest) == OddCloses(s, first) + OddCloses(Run(s, first), rest)
    decreases |first|
  {
    hide Enabled, Step;
    if first == [] {
      assert first + rest == rest;
    } else {
      Joined(Step(s, first[0]), first[1..], rest);
      assert (first + rest)[1..] == first[1..] + rest;
    }
  }

  /** A run with an odd close: after one of the two closes the counter says two idle files and there is one. */
  lemma OddClose(p: Ptr)
    ensures var ops := OpenedTwice(p) + [CloseGrab(p), Unbusy(p, false, false, -1)];
      && Legal(EMPTY, ops) && OddCloses(EMPTY, ops) == 1
      && File in Run(EMPTY, ops).idle && Run(EMPTY, ops).idle[File] == 2
      && Idle(Run(EMPTY, ops).entries, File) == {p}
  {
    OpenTwice(p);
    var s := Run(EMPTY, OpenedTwice(p));
    EmptyWf();
    assert Wf(s) by {
      forall k: Kind ensures k in s.idle { match k case File => case Dir => case LeafDir => }
    }
    var t := Step(s, CloseGrab(p));
    OneMore(t, Unbusy(p, false, false, -1), []);
    OneMore(s, CloseGrab(p), [Unbusy(p, false, false, -1)]);
    Joined(EMPTY, OpenedTwice(p), [CloseGrab(p), Unbusy(p, false, false, -1)]);
  }

  /** A run of population in which the second directory finds no path memory: two are counted and there is one. */
  lemma DirectoryFails(p: Ptr)
    ensures var ops := [Insert(p, Dir), FailedDir];
      && Legal(EMPTY, ops) && FailedDirs(ops) == 1 && OddCloses(EMPTY, ops) == 0
      && Dir in Run(EMPTY, ops).idle && Run(EMPTY, ops).idle[Dir] == 2
      && Idle(Run(EMPTY, ops).entries, Dir) == {p}
  {
    EmptyWf();
    var s := Step(EMPTY, Insert(p, Dir));
    OneMore(s, FailedDir, []);
    OneMore(EMPTY, Insert(p, Dir), [FailedDir]);
    assert FailedDirs([Insert(p, Dir), FailedDir]) == FailedDirs([FailedDir]) == 1;
  }

  /** Population comes before picks: after a pick the idle count can be an index that is in use. */
  lemma InsertAfterPick(p: Ptr, q: Ptr, r: Ptr)
    requires p != q
    ensures var ops := [Insert(p, File), Insert(q, File), Pick(p)];
      Legal(EMPTY, ops) && !Enabled(Run(EMPTY, ops), Insert(r, File))
  {
    EmptyWf();
    var s1 := Step(EMPTY, Insert(p, File));
    var s2 := Step(s1, Insert(q, File));
    OneMore(s2, Pick(p), []);
    OneMore(s1, Insert(q, File), [Pick(p)]);
    OneMore(EMPTY, Insert(p, File), [Insert(q, File), Pick(p)]);
    var s3 := Step(s2, Pick(p));
    assert q in s3.entries && s3.entries[q].index == s3.idle[File];
  }

  /** The step takes the entry p for its caller. */
  predicate Grabs(op: Op, p: Ptr) {
    (op.Pick? || op.DeleteGrab? || op.CloseGrab?) && op.p == p
  }

  predicate Releases(op: Op, p: Ptr) {
    op.Unbusy? && op.p == p
  }

  /** A busy entry stays busy, and is not taken again, until someone releases it. */
  lemma {:induction false} HeldUntilReleased(s: State, ops: seq<Op>, p: Ptr, i: nat)
    requires Legal(s, ops) && p in s.entries && s.entries[p].busy
    requires i < |ops| && Grabs(ops[i], p)
    ensures exists k :: 0 <= k < i && Releases(ops[k], p)
    decreases |ops|
  {
    if Releases(ops[0], p) {
      assert i != 0;
    } else if i != 0 {
      var s' := Step(s, ops[0]);
      assert p in s'.entries && s'.entries[p].busy;
      HeldUntilReleased(s', ops[1..], p, i - 1);
      var k :| 0 <= k < i - 1 && Releases(ops[1..][k], p);
      assert ops[k + 1] == ops[1..][k];
    }
  }

  /** Between two takings of one entry, by pick, delete or close, there is a release of it. */
  lemma {:induction false} ExclusiveUse(s: State, ops: seq<Op>, p: Ptr, i: nat, j: nat)
    requires Legal(s, ops) && i < j < |ops| && Grabs(ops[i], p) && Grabs(ops[j], p)
    ensures exists k :: i < k < j && Releases(ops[k], p)
    decreases |ops|
  {
    var s' := Step(s, ops[0]);
    if i == 0 {
      HeldUntilReleased(s', ops[1..], p, j - 1);
      var k :| 0 <= k < j - 1 && Releases(ops[1..][k], p);
      assert ops[k + 1] == ops[1..][k];
    } else {
      ExclusiveUse(s', ops[1..], p, i - 1, j - 1);
      var k :| i - 1 < k < j - 1 && Releases(ops[1..][k], p);
      assert ops[k + 1] == ops[1..][k];
    }
  }

  // ------------------------------------------------- the flags by their history

  /** The net number of opens that releases of p recorded. */
  function OpenSum(ops: seq<Op>, p: Ptr): int {
    if ops == [] then 0
    else OpenSum(ops[..|ops| - 1], p) +
         match ops[|ops| - 1] case Unbusy(q, _, _, incr) => (if q == p then incr else 0) case _ => 0
  }

  /** The latest of the steps that take or release p takes it. */
  predicate InUse(ops: seq<Op>, p: Ptr) {
    ops != [] &&
    var op := ops[|ops| - 1];
    Grabs(op, p) || (!Releases(op, p) && InUse(ops[..|ops| - 1], p))
  }

  /** The latest of the steps that wait for p or release it waits for it. */
  predicate Awaited(ops: seq<Op>, p: Ptr) {
    ops != [] &&
    var op := ops[|ops| - 1];
    op == Await(p) || (!Releases(op, p) && Awaited(ops[..|ops| - 1], p))
  }

  datatype Found = Nowhere | Absent | Present

  /** What the latest release of p that says so says about it being on disk. */
  function Existence(ops: seq<Op>, p: Ptr): Found {
    if ops == [] then Nowhere
    else match ops[|ops| - 1]
      case Unbusy(q, update, exist, _) =>
        if q == p && update then (if exist then Present else Absent) else Existence(ops[..|ops| - 1], p)
      case _ => Existence(ops[..|ops| - 1], p)
  }

  /** The flags of an entry tell its history. */
  ghost predicate Tells(ops: seq<Op>, p: Ptr, e: Entry) {
    && e.opens == OpenSum(ops, p) && (e.busy <==> InUse(ops, p))
    && (e.waiting <==> Awaited(ops, p)) && (e.waiting ==> e.busy)
    && match Existence(ops, p)
       case Nowhere => e.free == (e.kind != Dir) && e.onDisk == (e.kind == Dir)
       case Absent => !e.free && !e.onDisk
       case Present => !e.free && e.onDisk
  }

  /** Before it is inserted an entry has no history. */
  lemma {:induction false} NoHistory(s: State, ops: seq<Op>, p: Ptr)
    requires Legal(s, ops) && p !in s.entries && p !in Run(s, ops).entries
    ensures forall op :: op in ops ==> !Grabs(op, p) && !Releases(op, p) && op != Await(p)
    decreases |ops|
  {
    if ops != [] {
      var t := Step(s, ops[0]);
      if p in t.entries {
        Kept(t, ops[1..], p);
      }
      NoHistory(t, ops[1..], p);
      assert forall op :: op in ops ==> op == ops[0] || op in ops[1..];
    }
  }

  lemma {:induction false} Kept(s: State, ops: seq<Op>, p: Ptr)
    requires Legal(s, ops) && p in s.entries
    ensures p in Run(s, ops).entries && Run(s, ops).entries[p].kind == s.entries[p].kind
    ensures Run(s, ops).entries[p].index == s.entries[p].index
    decreases |ops|
  {
    if ops != [] {
      Kept(Step(s, ops[0]), ops[1..], p);
    }
  }

  lemma {:induction false} Nothing(ops: seq<Op>, p: Ptr)
    requires forall op :: op in ops ==> !Grabs(op, p) && !Releases(op, p) && op != Await(p)
    ensures OpenSum(ops, p) == 0 && !InUse(ops, p) && !Awaited(ops, p) && Existence(ops, p) == Nowhere
    decreases |ops|
  {
    if ops != [] {
      assert ops[|ops| - 1] in ops;
      Nothing(ops[..|ops| - 1], p);
    }
  }

  lemma TellsStep(s: State, op: Op, ops: seq<Op>, p: Ptr)
    requires Enabled(s, op) && p in s.entries && Tells(ops, p, s.entries[p])
    ensures p in Step(s, op).entries && Tells(ops + [op], p, Step(s, op).entries[p])
  {
    var more := ops + [op];
    assert more[..|more| - 1] == ops && more[|more| - 1] == op;
  }

  /**
    Over every run an entry's open count is the sum of what its releases added,
    it is busy exactly if it was taken and not released since, marked as waited
    for exactly if someone waits for it since the latest release, and then it is
    busy, so the release that wakes the waiters is still to come.  It is free until
    a release says whether it is on disk, and then it is what the latest said.
  */
  lemma {:induction false} FlagsTellHistory(ops: seq<Op>, p: Ptr)
    requires Legal(EMPTY, ops) && p in Run(EMPTY, ops).entries
    ensures Tells(ops, p, Run(EMPTY, ops).entries[p])
    decreases |ops|
  {
    hide Tells, Enabled, Step;
    if ops == [] {
      assert false;
    } else {
      var n := |ops| - 1;
      var first, op := ops[..n], ops[n];
      Split(EMPTY, ops);
      var s := Run(EMPTY, first);
      assert first + [op] == ops;
      if p in s.entries {
        FlagsTellHistory(first, p);
        TellsStep(s, op, first, p);
      } else {
        NewTells(s, op, first, p);
      }
    }
  }

  lemma NewTells(s: State, op: Op, ops: seq<Op>, p: Ptr)
    requires Legal(EMPTY, ops) && s == Run(EMPTY, ops) && Enabled(s, op) && p !in s.entries && p in Step(s, op).entries
    ensures Tells(ops + [op], p, Step(s, op).entries[p])
  {
    NoHistory(EMPTY, ops, p);
    Nothing(ops, p);
    var more := ops + [op];
    assert more[..|more| - 1] == ops && more[|more| - 1] == op;
  }

  /** The last step of a run, split off. */
  lemma {:induction false} Split(s: State, ops: seq<Op>)
    requires Legal(s, ops) && ops != []
    ensures var n := |ops| - 1;
      && Legal(s, ops[..n]) && Enabled(Run(s, ops[..n]), ops[n])
      && Run(s, ops) == Step(Run(s, ops[..n]), ops[n])
    decreases |ops|
  {
    hide Enabled, Step;
    if |ops| > 1 {
      Split(Step(s, ops[0]), ops[1..]);
      var n := |ops| - 1;
      assert ops[..n][1..] == ops[1..][..n - 1];
    }
  }

  // ------------------------------------------------- allocating one by one

  /** The files that nobody has used yet. */
  ghost function FreeSet(entries: Entries): set<Ptr> {
    set p | p in entries && entries[p].kind == File && entries[p].free
  }

  ghost predicate FilesAtRest(entries: Entries) {
    forall p :: p in entries && entries[p].kind == File ==> !entries[p].busy
  }

  /** In the middle of allocating the free files of e0 one by one: those in `picks` are done. */
  ghost predicate Allocating(e0: Entries, picks: seq<Ptr>, e: Entries) {
    && SameIndexes(e0, e) && FilesAtRest(e) && Distinct(picks)
    && (forall p :: p in picks ==> p in FreeSet(e0) && p !in FreeSet(e))
    && (forall p :: p in e0 && p !in picks ==> e[p] == e0[p])
  }

  /** A file that is picked and released as allocated or not is done. */
  lemma AllocatingStep(s: State, p: Ptr, ok: bool, e0: Entries, picks: seq<Ptr>)
    requires Enabled(s, Pick(p)) && p in FreeSet(s.entries) && Allocating(e0, picks, s.entries)
    ensures var s1 := Step(s, Pick(p));
      && Enabled(s1, Unbusy(p, true, ok, 0))
      && var t := Step(s1, Unbusy(p, true, ok, 0));
         && Allocating(e0, picks + [p], t.entries) && |FreeSet(t.entries)| < |FreeSet(s.entries)|
         && t.entries[p].onDisk == ok && p !in picks
         && forall q :: q in s.entries && q != p ==> q in t.entries && t.entries[q] == s.entries[q]
  {
    var s1 := Step(s, Pick(p));
    var t := Step(s1, Unbusy(p, true, ok, 0));
    assert FreeSet(t.entries) == FreeSet(s.entries) - {p};
    CountWith(FreeSet(s.entries), p);
  }

  /** The files in `picks` are recorded as on disk exactly if the draws made them so. */
  ghost predicate Outcomes(picks: seq<Ptr>, e: Entries, skips: nat -> bool, succeeds: nat -> bool) {
    forall i :: 0 <= i < |picks| ==> picks[i] in e && (e[picks[i]].onDisk <==> !skips(i) && succeeds(i))
  }

  lemma OutcomesMore(picks: seq<Ptr>, e: Entries, r: Ptr, f: Entries, skips: nat -> bool, succeeds: nat -> bool)
    requires Outcomes(picks, e, skips, succeeds) && r !in picks && r in f
    requires f[r].onDisk <==> !skips(|picks|) && succeeds(|picks|)
    requires forall q :: q in e && q != r ==> q in f && f[q] == e[q]
    ensures Outcomes(picks + [r], f, skips, succeeds)
  {
    forall i | 0 <= i < |picks| ensures picks[i] in f && f[picks[i]] == e[picks[i]] {
      assert picks[i] in picks;
    }
  }

  lemma AllocatingStart(e: Entries)
    requires FilesAtRest(e)
    ensures Allocating(e, [], e)
  {
  }

  lemma AllocatingRest(e0: Entries, picks: seq<Ptr>, e: Entries)
    requires Allocating(e0, picks, e)
    ensures FilesAtRest(e)
  {
  }

  /** The free-file tree is named by exactly the free files. */
  lemma HomeOfFree()
    ensures forall e: Entry :: Home(e) == FreeFiles <==> e.kind == File && e.free
  {
  }

  /** Nothing is left to pick: every free file was picked, and none is free. */
  lemma AllocatingEnd(e0: Entries, picks: seq<Ptr>, e: Entries)
    requires Allocating(e0, picks, e) && FreeSet(e) == {}
    ensures forall p :: p in picks <==> p in FreeSet(e0)
  {
    forall p | p in FreeSet(e0) ensures p in picks {
      assert p in picks || p in FreeSet(e);
    }
  }

  // --------------------------------------------------------------- picking

  /** The sequence lists entries by increasing index. */
  ghost predicate ByIndex(s: seq<Ptr>, entries: Entries) {
    && (forall i :: 0 <= i < |s| ==> s[i] in entries)
    && forall i, j :: 0 <= i < j < |s| ==> entries[s[i]].index < entries[s[j]].index
  }

  /** Position j holds the least index that is at least k, or the least of all when every index is below k. */
  ghost predicate StartsAt(s: seq<Ptr>, entries: Entries, k: nat, j: nat)
    requires ByIndex(s, entries)
  {
    && j < |s|
    && if entries[s[j]].index >= k then forall i :: 0 <= i < j ==> entries[s[i]].index < k
       else j == 0 && forall i :: 0 <= i < |s| ==> entries[s[i]].index < k
  }

  /** Everything from position j up to but not including position c is busy, going around the end if c is before j. */
  ghost predicate BusyUpTo(s: seq<Ptr>, entries: Entries, j: nat, c: nat)
    requires ByIndex(s, entries) && j < |s| && c < |s|
  {
    if j <= c then forall i :: j <= i < c ==> entries[s[i]].busy
    else (forall i :: j <= i < |s| ==> entries[s[i]].busy) && forall i :: 0 <= i < c ==> entries[s[i]].busy
  }

  ghost predicate AllBusy(s: seq<Ptr>, entries: Entries)
    requires ByIndex(s, entries)
  {
    forall i :: 0 <= i < |s| ==> entries[s[i]].busy
  }

  /** The first idle entry at or after the start. */
  ghost predicate FirstIdle(s: seq<Ptr>, entries: Entries, j: nat, p: Ptr)
    requires ByIndex(s, entries) && j < |s|
  {
    exists c :: 0 <= c < |s| && s[c] == p && !entries[p].busy && BusyUpTo(s, entries, j, c)
  }

  lemma FirstIdleFacts(s: seq<Ptr>, entries: Entries, j: nat, p: Ptr)
    requires ByIndex(s, entries) && j < |s| && FirstIdle(s, entries, j, p)
    ensures p in s && p in entries && !entries[p].busy
  {
  }

  /** When the entry at the start is idle, the scan stays there: such picks make up a rotation. */
  lemma IdleStart(s: seq<Ptr>, entries: Entries, j: nat, p: Ptr)
    requires ByIndex(s, entries) && j < |s| && FirstIdle(s, entries, j, p)
    ensures !entries[s[j]].busy <==> p == s[j]
  {
    FirstIdleFacts(s, entries, j, p);
  }

  /** One step of the scan past a busy entry: either it is back at the start, or the busy stretch grew. */
  lemma ScanStep(s: seq<Ptr>, entries: Entries, j: nat, c: nat)
    requires ByIndex(s, entries) && j < |s| && c < |s| && entries[s[c]].busy && BusyUpTo(s, entries, j, c)
    ensures var n := if c + 1 < |s| then c + 1 else 0;
      if s[n] == s[j] then n == j && AllBusy(s, entries) else n != j && BusyUpTo(s, entries, j, n)
  {
    var n := if c + 1 < |s| then c + 1 else 0;
    if n < j {
      assert entries[s[n]].index < entries[s[j]].index;
    } else if n > j {
      assert entries[s[j]].index < entries[s[n]].index;
    }
  }

  /** The start is a function of the request. */
  lemma StartIsUnique(s: seq<Ptr>, entries: Entries, k: nat, i: nat, j: nat)
    requires ByIndex(s, entries) && StartsAt(s, entries, k, i) && StartsAt(s, entries, k, j)
    ensures i == j
  {
  }

  /** After an entry was picked, its index plus one starts the next pick at the next entry, cyclically. */
  lemma NextStart(s: seq<Ptr>, entries: Entries, j: nat)
    requires ByIndex(s, entries) && j < |s|
    ensures StartsAt(s, entries, entries[s[j]].index + 1, if j + 1 < |s| then j + 1 else 0)
  {
    if j + 1 < |s| {
      forall i | 0 <= i < j + 1 ensures entries[s[i]].index < entries[s[j]].index + 1 {
        if i < j { assert entries[s[i]].index < entries[s[j]].index; }
      }
      assert entries[s[j]].index < entries[s[j + 1]].index;
    } else {
      forall i | 0 <= i < |s| ensures entries[s[i]].index < entries[s[j]].index + 1 {
        if i < j { assert entries[s[i]].index < entries[s[j]].index; }
      }
    }
  }

  /** A series of picks in rotation from an unchanged tree with nothing busy at pick time. */
  ghost predicate Rotation(s: seq<Ptr>, entries: Entries, rotor: nat, picks: seq<Ptr>)
    requires ByIndex(s, entries)
    decreases |picks|
  {
    picks == [] ||
    exists j: nat :: StartsAt(s, entries, rotor, j) && s[j] == picks[0] &&
                Rotation(s, entries, entries[s[j]].index + 1, picks[1..])
  }

  /** The first n elements of s read from position j on, going round. */
  function FromOn(s: seq<Ptr>, j: nat, n: nat): seq<Ptr>
    requires j <= |s| && n <= |s|
  {
    (s[j..] + s[..j])[..n]
  }

  lemma FromOnEmpty(s: seq<Ptr>, j: nat)
    requires j <= |s|
    ensures FromOn(s, j, 0) == []
  {
  }

  lemma RotationStep(s: seq<Ptr>, entries: Entries, rotor: nat, picks: seq<Ptr>, j: nat)
    requires ByIndex(s, entries) && Rotation(s, entries, rotor, picks) && StartsAt(s, entries, rotor, j) && picks != []
    ensures j < |s| && s[j] == picks[0] && s[j] in entries
    ensures Rotation(s, entries, entries[s[j]].index + 1, picks[1..])
    ensures StartsAt(s, entries, entries[s[j]].index + 1, if j + 1 < |s| then j + 1 else 0)
  {
    var j': nat :| StartsAt(s, entries, rotor, j') && s[j'] == picks[0] &&
              Rotation(s, entries, entries[s[j']].index + 1, picks[1..]);
    StartIsUnique(s, entries, rotor, j, j');
    NextStart(s, entries, j);
  }

  /** Fairness: the picks run through the tree in cyclic index order, so any n in a row are distinct. */
  lemma {:induction false} RotationIsCyclic(s: seq<Ptr>, entries: Entries, rotor: nat, picks: seq<Ptr>, j: nat)
    requires ByIndex(s, entries) && Rotation(s, entries, rotor, picks) && StartsAt(s, entries, rotor, j)
    requires |picks| <= |s|
    ensures j < |s| && picks == FromOn(s, j, |picks|)
    decreases |picks|
  {
    hide FromOn, ByIndex, Rotation;
    if picks == [] {
      FromOnEmpty(s, j);
    } else {
      RotationStep(s, entries, rotor, picks, j);
      RotationIsCyclic(s, entries, entries[s[j]].index + 1, picks[1..], if j + 1 < |s| then j + 1 else 0);
      CyclicShift(s, j, picks);
    }
  }

  lemma CyclicShift(s: seq<Ptr>, j: nat, picks: seq<Ptr>)
    requires j < |s| && 0 < |picks| <= |s| && picks[0] == s[j]
    requires picks[1..] == FromOn(s, if j + 1 < |s| then j + 1 else 0, |picks| - 1)
    ensures picks == FromOn(s, j, |picks|)
  {
    var k := if j + 1 < |s| then j + 1 else 0;
    var a, b := s[j..] + s[..j], s[k..] + s[..k];
    forall i | 1 <= i < |picks| ensures picks[i] == a[i] {
      assert picks[i] == picks[1..][i - 1] == b[i - 1];
    }
  }

  /** The position k places after j, going round. */
  function Turn(s: seq<Ptr>, j: nat, k: nat): nat
    requires j < |s| && k < |s|
  {
    if j + k < |s| then j + k else j + k - |s|
  }

  /** The element next in turn is not among those read so far, and reading it makes them one more. */
  lemma NextInTurn(s: seq<Ptr>, entries: Entries, j: nat, k: nat)
    requires ByIndex(s, entries) && j < |s| && k < |s|
    ensures s[Turn(s, j, k)] !in FromOn(s, j, k)
    ensures FromOn(s, j, k) + [s[Turn(s, j, k)]] == FromOn(s, j, k + 1)
    ensures Turn(s, j, 0) == j
    ensures k + 1 < |s| ==> Turn(s, j, k + 1) == if Turn(s, j, k) + 1 < |s| then Turn(s, j, k) + 1 else 0
  {
    var c := s[j..] + s[..j];
    assert c[k] == s[Turn(s, j, k)];
    forall i | 0 <= i < k ensures c[i] != c[k] {
      var x, y := Turn(s, j, i), Turn(s, j, k);
      assert c[i] == s[x];
      if x < y {
        assert entries[s[x]].index < entries[s[y]].index;
      } else {
        assert entries[s[y]].index < entries[s[x]].index;
      }
    }
  }

  /** The same entries with the same indexes, whoever holds them. */
  ghost predicate SameIndexes(e: Entries, f: Entries) {
    e.Keys == f.Keys && forall p :: p in e ==> f[p].kind == e[p].kind && f[p].index == e[p].index
  }

  lemma IndexesOnly(s: seq<Ptr>, e: Entries, f: Entries)
    requires ByIndex(s, e) && SameIndexes(e, f)
    ensures ByIndex(s, f)
    ensures forall k: nat, j: nat :: StartsAt(s, e, k, j) <==> StartsAt(s, f, k, j)
  {
  }

  /** An idle entry keeps the counter from being zero. */
  lemma SomeIdle(entries: Entries, p: Ptr)
    requires p in entries && !entries[p].busy
    ensures |Idle(entries, entries[p].kind)| > 0
  {
    assert p in Idle(entries, entries[p].kind);
  }

  /** Where the rotor stands after a series of picks. */
  ghost function RotorAfter(entries: Entries, rotor: nat, picks: seq<Ptr>): nat
    requires forall p :: p in picks ==> p in entries
  {
    if picks == [] then rotor else entries[picks[|picks| - 1]].index + 1
  }

  lemma {:induction false} RotationSnoc(s: seq<Ptr>, entries: Entries, rotor: nat, picks: seq<Ptr>, j: nat)
    requires ByIndex(s, entries) && Rotation(s, entries, rotor, picks) && forall p :: p in picks ==> p in entries
    requires StartsAt(s, entries, RotorAfter(entries, rotor, picks), j)
    ensures Rotation(s, entries, rotor, picks + [s[j]])
    decreases |picks|
  {
    var more := picks + [s[j]];
    if picks == [] {
      assert more[1..] == [];
      assert Rotation(s, entries, entries[s[j]].index + 1, more[1..]);
    } else {
      var i: nat :| StartsAt(s, entries, rotor, i) && s[i] == picks[0] &&
                Rotation(s, entries, entries[s[i]].index + 1, picks[1..]);
      assert more[1..] == picks[1..] + [s[j]];
      RotationSnoc(s, entries, entries[s[i]].index + 1, picks[1..], j);
    }
  }

  lemma StartExists(s: seq<Ptr>, entries: Entries, k: nat) returns (j: nat)
    requires ByIndex(s, entries) && s != []
    ensures StartsAt(s, entries, k, j)
  {
    j := 0;
    while j < |s| && entries[s[j]].index < k
      invariant j <= |s| && forall i :: 0 <= i < j ==> entries[s[i]].index < k
    {
      j := j + 1;
    }
    if j == |s| {
      j := 0;
    }
  }

  /**
    In the middle of a series of picks in rotation that started at position j of s:
    e0 are the entries and rotor0 the rotor before it, e and rotor what they are now.
    Only entries picked already can be busy.
  */
  ghost predicate Turning(s: seq<Ptr>, e0: Entries, rotor0: nat, j: nat, picks: seq<Ptr>, e: Entries, rotor: nat) {
    && ByIndex(s, e0) && j < |s| && |picks| <= |s| && SameIndexes(e0, e)
    && picks == FromOn(s, j, |picks|) && Rotation(s, e0, rotor0, picks)
    && (forall p :: p in picks ==> p in e0) && rotor == RotorAfter(e0, rotor0, picks)
    && (|picks| < |s| ==> StartsAt(s, e0, rotor, Turn(s, j, |picks|)))
    && (forall p :: p in s && e[p].busy ==> p in picks)
  }

  lemma TurningStart(s: seq<Ptr>, e: Entries, rotor: nat, j: nat)
    requires ByIndex(s, e) && StartsAt(s, e, rotor, j) && forall p :: p in s ==> p in e && !e[p].busy
    ensures Turning(s, e, rotor, j, [], e, rotor)
  {
    FromOnEmpty(s, j);
  }

  /** The next pick starts at an idle entry. */
  lemma TurningIdle(s: seq<Ptr>, e0: Entries, rotor0: nat, j: nat, picks: seq<Ptr>, e: Entries, rotor: nat)
    requires Turning(s, e0, rotor0, j, picks, e, rotor) && |picks| < |s|
    ensures ByIndex(s, e) && StartsAt(s, e, rotor, Turn(s, j, |picks|)) && !e[s[Turn(s, j, |picks|)]].busy
  {
    hide FromOn, Rotation;
    IndexesOnly(s, e0, e);
    NextInTurn(s, e0, j, |picks|);
    assert s[Turn(s, j, |picks|)] in s;
  }

  /** The pick makes the series one longer. */
  lemma TurningPick(s: seq<Ptr>, e0: Entries, rotor0: nat, j: nat, picks: seq<Ptr>, e: Entries, rotor: nat, r: Ptr)
    requires Turning(s, e0, rotor0, j, picks, e, rotor) && |picks| < |s| && r == s[Turn(s, j, |picks|)] && r in e
    ensures Turning(s, e0, rotor0, j, picks + [r], e[r := e[r].(busy := true)], e[r].index + 1)
  {
    hide FromOn, Rotation, ByIndex, StartsAt;
    InTree(s, e0, Turn(s, j, |picks|));
    NextInTurn(s, e0, j, |picks|);
    RotationSnoc(s, e0, rotor0, picks, Turn(s, j, |picks|));
    NextStart(s, e0, Turn(s, j, |picks|));
  }

  lemma InTree(s: seq<Ptr>, entries: Entries, i: nat)
    requires ByIndex(s, entries) && i < |s|
    ensures s[i] in entries && s[i] in s
  {
  }

  lemma TurningEnd(s: seq<Ptr>, e0: Entries, rotor0: nat, j: nat, picks: seq<Ptr>, e: Entries, rotor: nat)
    requires Turning(s, e0, rotor0, j, picks, e, rotor)
    ensures SameIndexes(e0, e) && ByIndex(s, e0) && Rotation(s, e0, rotor0, picks)
    ensures j < |s| && |picks| <= |s| && picks == FromOn(s, j, |picks|)
  {
  }

  /** Releases do not disturb it. */
  lemma TurningRelease(s: seq<Ptr>, e0: Entries, rotor0: nat, j: nat, picks: seq<Ptr>, e: Entries, rotor: nat,
                       f: Entries)
    requires Turning(s, e0, rotor0, j, picks, e, rotor) && SameIndexes(e, f)
    requires forall p :: p in f && f[p].busy ==> e[p].busy
    ensures Turning(s, e0, rotor0, j, picks, f, rotor)
  {
    hide FromOn, Rotation;
    forall p | p in s ensures p in f {
      var i :| 0 <= i < |s| && s[i] == p;
      InTree(s, e0, i);
    }
  }

  /** n picks in rotation from an n-entry tree return every entry exactly once. */
  lemma RotationIsFair(s: seq<Ptr>, entries: Entries, rotor: nat, picks: seq<Ptr>)
    requires ByIndex(s, entries) && Rotation(s, entries, rotor, picks) && |picks| == |s|
    ensures multiset(picks) == multiset(s)
  {
    if picks != [] {
      var j: nat :| StartsAt(s, entries, rotor, j);
      RotationIsCyclic(s, entries, rotor, picks, j);
      Rotated(s, picks, j);
    }
  }

  lemma Rotated(s: seq<Ptr>, picks: seq<Ptr>, j: nat)
    requires |picks| == |s| && j < |s|
    requires forall i :: 0 <= i < |s| ==> picks[i] == s[if j + i < |s| then j + i else j + i - |s|]
    ensures multiset(picks) == multiset(s)
  {
    assert picks == s[j..] + s[..j];
    assert s == s[..j] + s[j..];
  }
}
