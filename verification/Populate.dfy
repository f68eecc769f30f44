/**
  Population of a fileset: the recursion that builds the directory tree until
  the wanted numbers of files and leaf directories exist.  Memory for entries
  and for path strings is a finite supply; the depths and widths that the
  source draws at random come from two given functions.
*/
module Populate {
  import opened AvlShape
  import opened AvlLinks
  import opened Avl
  import opened FilesetSpec
  import opened Filesets
  import opened PopulateLayout

  ghost function OfKind(entries: Entries, k: Kind): set<Ptr> {
    set p | p in entries && entries[p].kind == k
  }

  /** Nothing is busy or used, and the entries of each kind are counted by the idle counter and numbered below it. */
  ghost predicate Numbered(entries: Entries, idle: map<Kind, int>) {
    && (forall k: Kind :: k in idle && idle[k] == |OfKind(entries, k)|)
    && (forall p :: p in entries ==> !entries[p].busy && entries[p].index < idle[entries[p].kind])
    && (forall p :: p in entries && entries[p].kind != Dir ==> entries[p].free)
  }

  lemma OfKindInsert(entries: Entries, p: Ptr, e: Entry, k: Kind)
    requires p !in entries
    ensures |OfKind(entries[p := e], k)| == |OfKind(entries, k)| + (if k == e.kind then 1 else 0)
  {
    var a, b := OfKind(entries, k), OfKind(entries[p := e], k);
    CountChange(a, b, p);
  }

  lemma NumberedInsert(s: State, p: Ptr, kind: Kind)
    requires Numbered(s.entries, s.idle) && p !in s.entries
    ensures Wf(s) && Enabled(s, Insert(p, kind))
    ensures var t := Step(s, Insert(p, kind)); Numbered(t.entries, t.idle)
  {
    hide OfKind;
    forall k: Kind {
      OfKindInsert(s.entries, p, NewEntry(kind, s.idle[kind]), k);
    }
  }

  /** There is one root; every other entry hangs below a directory that is one level closer to it. */
  ghost predicate Chained(entries: Entries, parent: map<Ptr, Ptr>, depth: map<Ptr, nat>, root: Ptr) {
    && parent.Keys == entries.Keys && depth.Keys == entries.Keys
    && (entries != map[] ==> root in entries && entries[root].kind == Dir)
    && forall p {:trigger Hangs(entries, parent, depth, root, p)} :: p in entries ==>
         Hangs(entries, parent, depth, root, p)
  }

  ghost predicate Hangs(entries: Entries, parent: map<Ptr, Ptr>, depth: map<Ptr, nat>, root: Ptr, p: Ptr)
    requires parent.Keys == entries.Keys && depth.Keys == entries.Keys && p in entries
  {
    if p == root then depth[p] == 0 && parent[p] == NULL
    else && parent[p] != NULL && parent[p] in entries && entries[parent[p]].kind == Dir
         && depth[p] == depth[parent[p]] + 1
  }

  lemma {:induction false} ChainEnds(entries: Entries, parent: map<Ptr, Ptr>, depth: map<Ptr, nat>, root: Ptr, p: Ptr)
    requires Chained(entries, parent, depth, root) && p in entries
    ensures EndsAt(parent, p, depth[p], root)
    decreases depth[p]
  {
    assert Hangs(entries, parent, depth, root, p);
    if p != root { ChainEnds(entries, parent, depth, root, parent[p]); }
  }

  lemma NothingYet()
    ensures Numbered(EMPTY.entries, EMPTY.idle) && Chained(EMPTY.entries, map[], map[], NULL)
    ensures EMPTY.idle[File] == 0 && EMPTY.idle[LeafDir] == 0 && EMPTY.idle[Dir] == 0
  {
    forall k: Kind ensures k in EMPTY.idle && EMPTY.idle[k] == |OfKind(EMPTY.entries, k)| {
      assert OfKind(EMPTY.entries, k) == {};
      match k case File => case Dir => case LeafDir =>
    }
  }

  /** n different numbers below n are exactly 0 to n - 1. */
  lemma {:induction false} Pigeonhole(s: set<nat>, n: nat)
    requires forall i :: i in s ==> i < n
    ensures |s| <= n
    ensures |s| == n ==> forall i :: 0 <= i < n ==> i in s
  {
    if n != 0 {
      var t := s - {n - 1};
      Pigeonhole(t, n - 1);
      assert |s| == |t| + (if n - 1 in s then 1 else 0) by {
        if n - 1 in s { assert s == t + {n - 1}; } else { assert s == t; }
      }
    }
  }

  ghost function IndexSet(ps: set<Ptr>, entries: Entries): set<nat> {
    set p | p in ps && p in entries :: entries[p].index
  }

  lemma {:induction false} ImageSize(ps: set<Ptr>, entries: Entries)
    requires forall p :: p in ps ==> p in entries
    requires forall p, q :: p in ps && q in ps && p != q ==> entries[p].index != entries[q].index
    ensures |IndexSet(ps, entries)| == |ps|
    decreases |ps|
  {
    if ps != {} {
      var p :| p in ps;
      var rest := ps - {p};
      ImageSize(rest, entries);
      var a, b := IndexSet(ps, entries), IndexSet(rest, entries);
      assert a == b + {entries[p].index};
      assert entries[p].index !in b;
    }
  }

  ghost predicate HasIndex(entries: Entries, k: Kind, i: nat) {
    exists p :: p in entries && entries[p].kind == k && entries[p].index == i
  }

  /** The indexes of one kind are exactly 0 to n - 1. */
  lemma IndexesExact(entries: Entries, idle: map<Kind, int>, k: Kind, i: nat)
    requires Numbered(entries, idle) && DistinctIndexes(entries) && i < |OfKind(entries, k)|
    ensures HasIndex(entries, k, i)
  {
    var ps := OfKind(entries, k);
    ImageSize(ps, entries);
    Pigeonhole(IndexSet(ps, entries), |ps|);
    assert i in IndexSet(ps, entries);
  }

  /**
    A finished population: the wanted numbers of files and leaf directories,
    each kind indexed without gaps, and one root, the only entry without a
    parent, at which every chain of parents ends.
  */
  ghost predicate Complete(entries: Entries, parent: map<Ptr, Ptr>, depth: map<Ptr, nat>, root: Ptr,
                           files: nat, leafDirs: nat) {
    && |OfKind(entries, File)| == files && |OfKind(entries, LeafDir)| == leafDirs
    && (forall p :: p in entries && entries[p].kind == File ==> entries[p].index < files)
    && (forall p :: p in entries && entries[p].kind == LeafDir ==> entries[p].index < leafDirs)
    && (forall i: nat :: i < files ==> HasIndex(entries, File, i))
    && (forall i: nat :: i < leafDirs ==> HasIndex(entries, LeafDir, i))
    && root in entries && entries[root].kind == Dir && parent.Keys == entries.Keys
    && (forall p :: p in entries ==> (parent[p] == NULL <==> p == root))
    && (forall p :: p in entries ==> p in depth && EndsAt(parent, p, depth[p], root))
  }

  lemma Completed(entries: Entries, idle: map<Kind, int>, parent: map<Ptr, Ptr>, depth: map<Ptr, nat>, root: Ptr)
    requires Numbered(entries, idle) && DistinctIndexes(entries) && Chained(entries, parent, depth, root)
    requires entries != map[]
    ensures Complete(entries, parent, depth, root, idle[File], idle[LeafDir])
  {
    forall i: nat | i < idle[File] ensures HasIndex(entries, File, i) {
      IndexesExact(entries, idle, File, i);
    }
    forall i: nat | i < idle[LeafDir] ensures HasIndex(entries, LeafDir, i) {
      IndexesExact(entries, idle, LeafDir, i);
    }
    forall p | p in entries ensures EndsAt(parent, p, depth[p], root) {
      ChainEnds(entries, parent, depth, root, p);
    }
    forall p | p in entries ensures parent[p] == NULL <==> p == root {
      assert Hangs(entries, parent, depth, root, p);
    }
  }

  /** Where a new entry may hang: below a directory, or below nothing when it is the first and a directory. */
  ghost predicate Place(entries: Entries, kind: Kind, under: Ptr) {
    if under == NULL then entries == map[] && kind == Dir else under in entries && entries[under].kind == Dir
  }

  lemma ChainedInsert(entries: Entries, parent: map<Ptr, Ptr>, depth: map<Ptr, nat>, root: Ptr,
                      p: Ptr, e: Entry, under: Ptr)
    requires Chained(entries, parent, depth, root) && p !in entries && Place(entries, e.kind, under)
    ensures under != NULL ==> under in depth
    ensures Chained(entries[p := e], parent[p := under], depth[p := if under == NULL then 0 else depth[under] + 1],
                    if under == NULL then p else root)
  {
    var f, up := entries[p := e], parent[p := under];
    var deep := depth[p := if under == NULL then 0 else depth[under] + 1];
    var r := if under == NULL then p else root;
    forall q | q in f ensures Hangs(f, up, deep, r, q) {
      if q != p { assert Hangs(entries, parent, depth, root, q); }
    }
  }

  ghost predicate Grows(a: Entries, b: Entries) {
    forall p :: p in a ==> p in b && b[p] == a[p]
  }

  lemma GrowsOn(a: Entries, b: Entries, c: Entries)
    requires Grows(a, b) && Grows(b, c)
    ensures Grows(a, c)
  {
  }

  lemma GrowsSame(a: Entries)
    ensures Grows(a, a)
  {
  }

  lemma GrowsEntered(a: Entries, p: Ptr, e: Entry)
    requires p !in a
    ensures Grows(a, a[p := e])
  {
  }

  /** Slots that ipc_malloc can still hand out. */
  ghost predicate Unused(pool: seq<Ptr>, entries: Entries) {
    && (forall i :: 0 <= i < |pool| ==> NodeAddr(pool[i]) && pool[i] !in entries)
    && Distinct(pool)
  }

  lemma UnusedTail(pool: seq<Ptr>, entries: Entries, e: Entry)
    requires Unused(pool, entries) && pool != []
    ensures Unused(pool[1..], entries) && Unused(pool[1..], entries[pool[0] := e])
    ensures NodeAddr(pool[0]) && pool[0] !in entries
  {
  }

  lemma PlaceDepth(entries: Entries, parent: map<Ptr, Ptr>, depth: map<Ptr, nat>, root: Ptr, kind: Kind, under: Ptr)
    requires Chained(entries, parent, depth, root) && Place(entries, kind, under)
    ensures under == NULL || under in depth
  {
  }

  /** A directory made last is newer than all others. */
  lemma OlderDirs(m: Plan, idle: map<Kind, int>, n: Plan, under: Ptr, p: Ptr)
    requires Numbered(m.entries, idle) && Grown(m, n, under, p, Dir) && IsDir(n, p) && n.entries[p].index == idle[Dir]
    ensures Recent(n, p)
  {
    hide Grown;
    RecentGrown(m, n, under, p);
  }

  lemma DirMade(m: Plan, dr: Draws, open: set<Ptr>, p: Ptr, index: nat, under: Ptr, files: bool, leafDirs: bool,
                idle: map<Kind, int>)
    requires Going(m, dr, open, files, leafDirs) && May(m, dr, open, Dir, under) && p !in m.entries && p != NULL
    requires Numbered(m.entries, idle) && index == idle[Dir]
    ensures under == NULL || under in m.depth
    ensures var n := Entered(m, p, NewEntry(Dir, index), under);
      && Going(n, dr, open + {p}, files, leafDirs) && Grown(m, n, under, p, Dir) && Tally(n, p, NONE)
      && IsDir(n, p) && Recent(n, p)
  {
    hide Going, May, Numbered, Grown, Tally, Recent;
    GoingEntered(m, dr, open, p, NewEntry(Dir, index), under, files, leafDirs);
    OlderDirs(m, idle, Entered(m, p, NewEntry(Dir, index), under), under, p);
  }

  /** The state of a population at the start of a loop. */
  datatype Was = Was(entries: Entries, open: set<Ptr>, files: nat, leafDirs: nat)

  class Populator {
    const fs: Fileset
    const depths: nat -> int   // the depth drawn for the i-th directory
    const widths: nat -> real  // the width drawn for the i-th directory
    const deepest: nat
    const wantFiles: nat       // fs_constentries
    const wantLeafDirs: nat    // fs_constleafdirs
    var pool: seq<Ptr>
    var paths: nat
    var draws: nat
    var realFiles: nat
    var realLeafDirs: nat
    var parent: map<Ptr, Ptr>
    ghost var depth: map<Ptr, nat>
    ghost var top: Ptr         // the root directory
    ghost var open: set<Ptr>   // the directories being filled

    /** Depths are bounded and widths are not negative. */
    ghost predicate Drawable() {
      forall i: nat :: depths(i) <= deepest && widths(i) >= 0.0
    }

    /** The entries are numbered and hang together, and there is room for more. */
    ghost predicate Base()
      reads this`pool, this`parent, this`depth, this`top, fs, fs.trees.Values
      ensures Base() ==> forall k: Kind :: k in fs.idle
    {
      fs.Valid() && Numbered(fs.entries, fs.idle) && Chained(fs.entries, parent, depth, top) && Unused(pool, fs.entries)
    }

    ghost predicate Inv()
      reads this, fs, fs.trees.Values
    {
      && Base() && Drawable()
      && realFiles == fs.idle[File] && realLeafDirs == fs.idle[LeafDir]
      && realFiles <= wantFiles && realLeafDirs <= wantLeafDirs && draws == fs.idle[Dir]
      && Going(Map(), Drawn(), open, realFiles == wantFiles, realLeafDirs == wantLeafDirs)
    }

    lemma InvParts()
      requires Inv()
      ensures Base() && Drawable() && fs.Valid() && Numbered(fs.entries, fs.idle)
      ensures realFiles == fs.idle[File] && realLeafDirs == fs.idle[LeafDir] && draws == fs.idle[Dir]
      ensures realFiles <= wantFiles && realLeafDirs <= wantLeafDirs
      ensures Going(Map(), Drawn(), open, realFiles == wantFiles, realLeafDirs == wantLeafDirs)
    {
    }

    lemma InvWhole()
      requires Base() && Drawable()
      requires realFiles == fs.idle[File] && realLeafDirs == fs.idle[LeafDir] && draws == fs.idle[Dir]
      requires realFiles <= wantFiles && realLeafDirs <= wantLeafDirs
      requires Going(Map(), Drawn(), open, realFiles == wantFiles, realLeafDirs == wantLeafDirs)
      ensures Inv()
    {
    }

    /** The wanted number of files or of leaf directories exists. */
    predicate Reached(kind: Kind)
      reads this`realFiles, this`realLeafDirs
    {
      Made(kind) >= if kind == File then wantFiles else wantLeafDirs
    }

    function Made(kind: Kind): nat
      reads this`realFiles, this`realLeafDirs
    {
      if kind == File then realFiles else realLeafDirs
    }

    ghost function Map(): Plan
      reads this`parent, this`depth, this`top, fs
    {
      Plan(fs.entries, parent, depth, top)
    }

    ghost function Drawn(): Draws {
      Draws(depths, widths)
    }

    /** The start of fileset_populate: no entries, no idle counts, nothing created. */
    constructor (fs: Fileset, depths: nat -> int, widths: nat -> real, deepest: nat,
                 wantFiles: nat, wantLeafDirs: nat, pool: seq<Ptr>, paths: nat)
      requires fs.Valid() && State(fs.entries, fs.idle) == EMPTY
      requires forall i: nat :: depths(i) <= deepest && widths(i) >= 0.0
      requires Unused(pool, map[])
      ensures Inv() && this.fs == fs && this.wantFiles == wantFiles && this.wantLeafDirs == wantLeafDirs
      ensures this.deepest == deepest && this.depths == depths && this.widths == widths
      ensures this.pool == pool && this.paths == paths && realFiles == 0 && realLeafDirs == 0 && parent == map[]
      ensures open == {}
    {
      this.fs, this.depths, this.widths, this.deepest := fs, depths, widths, deepest;
      this.wantFiles, this.wantLeafDirs, this.pool, this.paths := wantFiles, wantLeafDirs, pool, paths;
      draws, realFiles, realLeafDirs, parent, depth, top, open := 0, 0, 0, map[], map[], NULL, {};
      new;
      hide Fileset.Valid, Numbered, Chained, Going;
      NothingYet();
      GoingStart(Drawn(), realFiles == wantFiles, realLeafDirs == wantLeafDirs);
    }

    /** Takes a slot for a new entry below `under`, draws its index and puts it on its list. */
    method Enter(kind: Kind, under: Ptr) returns (p: Ptr)
      requires Base() && Place(fs.entries, kind, under)
      modifies this`pool, this`parent, this`depth, this`top, fs, fs.trees.Values
      ensures Base() && fs.Valid() && (p == NULL <==> old(pool) == [])
      ensures p == NULL ==> fs.entries == old(fs.entries) && fs.idle == old(fs.idle)
      ensures under == NULL || under in old(depth)
      ensures p != NULL ==>
        && p !in old(fs.entries) && fs.entries == old(fs.entries)[p := NewEntry(kind, old(fs.idle)[kind])]
        && fs.idle == old(fs.idle)[kind := old(fs.idle)[kind] + 1] && parent == old(parent)[p := under]
        && Map() == Entered(old(Map()), p, NewEntry(kind, old(fs.idle)[kind]), under)
    {
      hide Fileset.Valid, Numbered, Chained, Unused;
      NumberedTotal(fs.entries, fs.idle);
      PlaceDepth(fs.entries, parent, depth, top, kind, under);
      if pool == [] { return NULL; }
      p := pool[0];
      UnusedTail(pool, fs.entries, NewEntry(kind, fs.idle[kind]));
      NumberedInsert(State(fs.entries, fs.idle), p, kind);
      ChainedInsert(fs.entries, parent, depth, top, p, NewEntry(kind, fs.idle[kind]), under);
      pool := pool[1..];
      parent := parent[p := under];
      depth := depth[p := if under == NULL then 0 else depth[under] + 1];
      top := if under == NULL then p else top;
      var added := fs.InsertEntry(p, kind);
    }

    /** fileset_populate_file, fileset_populate_leafdir: one more file or leaf directory below `under`. */
    method PopulateLeaf(kind: Kind, under: Ptr) returns (ok: bool, ghost p: Ptr)
      requires Inv() && under != NULL && May(Map(), Drawn(), open, kind, under)
      requires (kind == File && realFiles < wantFiles) || (kind == LeafDir && realLeafDirs < wantLeafDirs)
      modifies this, fs, fs.trees.Values
      ensures fs.Valid() && Grows(old(fs.entries), fs.entries)
      ensures ok ==> Inv() && p !in old(fs.entries) && parent == old(parent)[p := under] && open == old(open)
      ensures ok ==> fs.entries == old(fs.entries)[p := NewEntry(kind, old(fs.idle)[kind])]
      ensures ok ==> realFiles == old(realFiles) + (if kind == File then 1 else 0)
      ensures ok ==> realLeafDirs == old(realLeafDirs) + (if kind == LeafDir then 1 else 0)
      ensures ok ==> Grown(old(Map()), Map(), under, p, kind)
    {
      hide Fileset.Valid, Base, Inv, Numbered, Drawable, Going, Grown, May, Tally, Grows;
      InvParts();
      MayUnder(Map(), Drawn(), open, kind, under);
      GrowsSame(fs.entries);
      ghost var made := NewEntry(kind, fs.idle[kind]);
      var entry := Enter(kind, under);
      p := entry;
      if entry == NULL { return false, p; }
      GrowsEntered(old(fs.entries), p, made);
      if paths == 0 { return false, p; }
      GoingEntered(old(Map()), Drawn(), open, p, made, under, realFiles == wantFiles, realLeafDirs == wantLeafDirs);
      CountLeaf(kind);
      ok := true;
    }

    /** The path is there, and the new file or leaf directory is counted. */
    method CountLeaf(kind: Kind)
      requires Base() && Drawable() && paths > 0 && draws == fs.idle[Dir]
      requires kind != Dir && Made(kind) < (if kind == File then wantFiles else wantLeafDirs)
      requires fs.idle[File] == realFiles + (if kind == File then 1 else 0) && realFiles <= wantFiles
      requires fs.idle[LeafDir] == realLeafDirs + (if kind == LeafDir then 1 else 0) && realLeafDirs <= wantLeafDirs
      requires Going(Map(), Drawn(), open, realFiles == wantFiles, realLeafDirs == wantLeafDirs)
      modifies this`paths, this`realFiles, this`realLeafDirs
      ensures Inv() && paths == old(paths) - 1 && realFiles == fs.idle[File] && realLeafDirs == fs.idle[LeafDir]
    {
      hide Fileset.Valid, Base, Inv, Drawable, Going;
      paths := paths - 1;
      if kind == File {
        realFiles := realFiles + 1;
      } else {
        realLeafDirs := realLeafDirs + 1;
      }
      GoingFlags(Map(), Drawn(), open, old(realFiles) == wantFiles, old(realLeafDirs) == wantLeafDirs,
                 realFiles == wantFiles, realLeafDirs == wantLeafDirs);
      InvWhole();
    }

    /** The directory that fileset_populate_subdir starts with; a failed path allocation leaves the index drawn. */
    method PopulateDir(under: Ptr) returns (p: Ptr)
      requires Inv() && May(Map(), Drawn(), open, Dir, under)
      modifies this, fs, fs.trees.Values
      ensures fs.Valid() && Grows(old(fs.entries), fs.entries)
      ensures p != NULL ==>
        && Inv() && p in fs.entries && fs.entries[p].kind == Dir
        && realFiles == old(realFiles) && realLeafDirs == old(realLeafDirs)
        && open == old(open) + {p} && fs.entries[p].index == old(draws)
        && IsDir(Map(), p) && (under == NULL || under in old(depth))
        && depth[p] == (if under == NULL then 0 else old(depth)[under] + 1)
        && Grown(old(Map()), Map(), under, p, Dir) && Tally(Map(), p, NONE) && Recent(Map(), p)
      ensures p == NULL && old(pool) == [] ==> State(fs.entries, fs.idle) == old(State(fs.entries, fs.idle))
      ensures p == NULL && old(pool) != [] ==>
        && Enabled(old(State(fs.entries, fs.idle)), FailedDir)
        && State(fs.entries, fs.idle) == Step(old(State(fs.entries, fs.idle)), FailedDir)
    {
      hide Fileset.Valid, Base, Inv, Numbered, Drawable, Going, Grown, May, Tally, Recent, Grows, IsDir;
      InvParts();
      GrowsSame(fs.entries);
      if pool == [] { return NULL; }
      if paths == 0 {
        OutOfPaths();
        return NULL;
      }
      p := EnterDir(under);
    }

    /** The directory is entered and open, with the index, and so the depth and width, of its turn. */
    method EnterDir(under: Ptr) returns (p: Ptr)
      requires Inv() && May(Map(), Drawn(), open, Dir, under) && pool != [] && paths > 0
      modifies this, fs, fs.trees.Values
      ensures Inv() && fs.Valid() && Grows(old(fs.entries), fs.entries) && p != NULL && p in fs.entries
      ensures realFiles == old(realFiles) && realLeafDirs == old(realLeafDirs)
      ensures open == old(open) + {p} && fs.entries[p].kind == Dir && fs.entries[p].index == old(draws)
      ensures IsDir(Map(), p) && (under == NULL || under in old(depth))
      ensures depth[p] == if under == NULL then 0 else old(depth)[under] + 1
      ensures Grown(old(Map()), Map(), under, p, Dir) && Tally(Map(), p, NONE) && Recent(Map(), p)
    {
      hide Fileset.Valid, Base, Inv, Numbered, Drawable, Going, Grown, May, Tally, Recent, Grows, IsDir;
      InvParts();
      MayUnder(Map(), Drawn(), open, Dir, under);
      ghost var m, idle := Map(), fs.idle;
      p := Enter(Dir, under);
      GrowsEntered(m.entries, p, NewEntry(Dir, draws));
      DirMade(m, Drawn(), open, p, draws, under, realFiles == wantFiles, realLeafDirs == wantLeafDirs, idle);
      OpenDir(p);
    }

    /** The path is there, the directory is being filled, and its depth and width are drawn. */
    method OpenDir(p: Ptr)
      requires Base() && Drawable() && paths > 0 && fs.idle[Dir] == draws + 1
      requires realFiles == fs.idle[File] && realLeafDirs == fs.idle[LeafDir]
      requires realFiles <= wantFiles && realLeafDirs <= wantLeafDirs
      requires Going(Map(), Drawn(), open + {p}, realFiles == wantFiles, realLeafDirs == wantLeafDirs)
      modifies this`open, this`paths, this`draws
      ensures Inv() && open == old(open) + {p} && paths == old(paths) - 1 && draws == old(draws) + 1
    {
      hide Fileset.Valid, Base, Inv, Drawable, Going;
      open := open + {p};
      paths := paths - 1;
      draws := draws + 1;
      InvWhole();
    }

    /** The slot is taken and the index drawn, and the directory is not entered. */
    method OutOfPaths()
      requires fs.Valid() && pool != []
      modifies this`pool, fs`idle
      ensures fs.Valid() && fs.entries == old(fs.entries)
      ensures Enabled(old(State(fs.entries, fs.idle)), FailedDir)
      ensures State(fs.entries, fs.idle) == Step(old(State(fs.entries, fs.idle)), FailedDir)
    {
      hide Fileset.Located, DistinctIndexes;
      pool := pool[1..];
      var index := fs.DrawIndex(Dir);
    }

    /** One turn of either loop: a file or leaf directory in a leaf directory, a whole subdirectory in another. */
    method Turn(kind: Kind, entry: Ptr, under: Ptr, isleaf: bool, level: nat,
                ghost m0: Plan, ghost e: Entry, ghost c: Counts, ghost turns: nat, ghost was: Was)
      returns (ok: bool)
      requires Along(kind, entry, under, isleaf, level, m0, e, c, turns, was) && !Reached(kind)
      requires under == NULL || !isleaf ==> level <= deepest + 1
      modifies this, fs, fs.trees.Values
      ensures fs.Valid() && Grows(was.entries, fs.entries) && (ok ==> Made(kind) > old(Made(kind)))
      ensures ok ==> Along(kind, entry, under, isleaf, level, m0, e, c, turns + 1, was)
      decreases 0, deepest + 1 - level, 1
    {
      hide Fileset.Valid, Base, Inv, Drawable, Going, Grown, May, Grows, Tally, Plus, Filling;
      InvParts();
      var leaf := under != NULL && isleaf;
      ghost var m, child, k := Map(), NULL, Makes(leaf, kind);
      FillingMay(m, Drawn(), m0, under, entry, e, level, isleaf, open, k);
      if leaf {
        ok, child := PopulateLeaf(kind, entry);
      } else {
        ok, child := PopulateSubdir(entry, level);
      }
      GrowsOn(was.entries, m.entries, fs.entries);
      if ok {
        FillingMore(m, Map(), Drawn(), m0, under, entry, e, level, isleaf, child, k);
        TallyGrown(m, Map(), entry, child, c, k, turns);
      }
    }

    /** Where a loop over `entry` stands after some turns, `was` being the state at its start. */
    ghost predicate Along(kind: Kind, entry: Ptr, under: Ptr, isleaf: bool, level: nat,
                          m0: Plan, e: Entry, c: Counts, turns: nat, was: Was)
      reads this, fs, fs.trees.Values
    {
      && Inv() && kind != Dir && entry in open && open == was.open && Grows(was.entries, fs.entries)
      && Filling(Map(), Drawn(), m0, under, entry, e, level, isleaf)
      && Tally(Map(), entry, Plus(c, Makes(under != NULL && isleaf, kind), turns))
      && realFiles >= was.files && realLeafDirs >= was.leafDirs
      && (turns > 0 ==> Made(kind) > if kind == File then was.files else was.leafDirs)
      && (turns == 0 ==> realFiles == was.files && realLeafDirs == was.leafDirs)
    }

    lemma AlongStart(kind: Kind, entry: Ptr, under: Ptr, isleaf: bool, level: nat, m0: Plan, e: Entry, c: Counts)
      requires Inv() && kind != Dir && entry in open && Tally(Map(), entry, c)
      requires Filling(Map(), Drawn(), m0, under, entry, e, level, isleaf)
      ensures Drawable() && fs.Valid() && Grows(fs.entries, fs.entries)
      ensures Along(kind, entry, under, isleaf, level, m0, e, c, 0, Was(fs.entries, open, realFiles, realLeafDirs))
    {
      hide Fileset.Valid, Base, Filling, Going, Plus;
      InvParts();
      PlusNone(c, Makes(under != NULL && isleaf, kind));
    }

    lemma AlongBound(kind: Kind, entry: Ptr, under: Ptr, isleaf: bool, level: nat, m0: Plan, e: Entry, c: Counts,
                     turns: nat, was: Was)
      requires Along(kind, entry, under, isleaf, level, m0, e, c, turns, was)
      ensures realFiles <= wantFiles && realLeafDirs <= wantLeafDirs
    {
      hide Fileset.Valid, Base, Filling, Going, Plus, Tally, Grows;
    }

    /** Either loop of fileset_populate_subdir over the directory `entry`; `turns` counts its turns. */
    method FillLoop(kind: Kind, entry: Ptr, under: Ptr, isleaf: bool, level: nat, ranwidth: real,
                    ghost m0: Plan, ghost e: Entry, ghost c: Counts)
      returns (ok: bool, ghost turns: nat)
      requires Inv() && entry in open && kind != Dir
      requires Filling(Map(), Drawn(), m0, under, entry, e, level, isleaf) && Tally(Map(), entry, c)
      requires under == NULL || !isleaf ==> level <= deepest + 1
      requires ranwidth == if widths(e.index) == 0.0 then 1.0 else widths(e.index)
      modifies this, fs, fs.trees.Values
      ensures fs.Valid() && Grows(old(fs.entries), fs.entries)
      ensures ok ==> Along(kind, entry, under, isleaf, level, m0, e, c, turns,
                           Was(old(fs.entries), old(open), old(realFiles), old(realLeafDirs)))
      ensures ok && under == NULL ==> Reached(kind)
      ensures ok && under != NULL ==> turns <= Width(Drawn(), e) && (turns < Width(Drawn(), e) ==> Reached(kind))
      ensures ok && old(!Reached(kind)) ==> turns > 0
      decreases 0, deepest + 1 - level, 2
    {
      hide Fileset.Valid, Base, Inv, Tally, Filling, Width, Grows, Along;
      ghost var was := Was(fs.entries, open, realFiles, realLeafDirs);
      AlongStart(kind, entry, under, isleaf, level, m0, e, c);
      var i := 1;
      turns := 0;
      WidthTurn(Drawn(), e, ranwidth, i);
      while (under == NULL || i as real < ranwidth + 1.0) && !Reached(kind)
        invariant Along(kind, entry, under, isleaf, level, m0, e, c, turns, was) && i == turns + 1
        invariant fs.Valid() && Grows(was.entries, fs.entries)
        invariant turns == 0 ==> Made(kind) == old(Made(kind))
        invariant under != NULL ==> turns <= Width(Drawn(), e)
        decreases if kind == File then wantFiles - realFiles else wantLeafDirs - realLeafDirs
      {
        AlongBound(kind, entry, under, isleaf, level, m0, e, c, turns, was);
        ok := Turn(kind, entry, under, isleaf, level, m0, e, c, turns, was);
        if !ok { return false, 0; }
        AlongBound(kind, entry, under, isleaf, level, m0, e, c, turns + 1, was);
        WidthTurn(Drawn(), e, ranwidth, i);
        i, turns := i + 1, turns + 1;
      }
      WidthTurn(Drawn(), e, ranwidth, i);
      ok := true;
    }

    /** The directory is finished. */
    ghost method Close(entry: Ptr, under: Ptr, isleaf: bool, level: nat, m0: Plan, e: Entry, open0: set<Ptr>,
                       first: nat, second: nat)
      requires Inv() && open == open0 + {entry} && Filling(Map(), Drawn(), m0, under, entry, e, level, isleaf)
      requires under != NULL ==>
        && Tally(Map(), entry, Both(isleaf, first, second))
        && Ended(Width(Drawn(), e), first, second, Reached(File), Reached(LeafDir))
      modifies this`open
      ensures Inv() && open == open0 && Grown(m0, Map(), under, entry, Dir) && entry in fs.entries
    {
      hide Fileset.Valid, Base, Inv, Drawable, Going, Grown, Tally, Filling, Width, Ended, Both;
      InvParts();
      FillingClose(Map(), Drawn(), m0, under, entry, e, level, isleaf, open0, first, second,
                   realFiles == wantFiles, realLeafDirs == wantLeafDirs);
      open := open0;
      InvWhole();
    }

    /** Both loops over the directory `entry`, the one for files first; then it is no longer open. */
    method Fill(entry: Ptr, under: Ptr, isleaf: bool, level: nat, ranwidth: real,
                ghost m0: Plan, ghost e: Entry, ghost open0: set<Ptr>)
      returns (ok: bool)
      requires Inv() && open == open0 + {entry}
      requires Filling(Map(), Drawn(), m0, under, entry, e, level, isleaf) && Tally(Map(), entry, NONE)
      requires under == NULL || !isleaf ==> level <= deepest + 1
      requires ranwidth == if widths(e.index) == 0.0 then 1.0 else widths(e.index)
      requires under != NULL ==> !Reached(File) || !Reached(LeafDir)
      modifies this, fs, fs.trees.Values
      ensures fs.Valid() && Grows(old(fs.entries), fs.entries)
      ensures ok ==> Inv() && open == open0 && Grown(m0, Map(), under, entry, Dir) && entry in fs.entries
      ensures ok ==> realFiles >= old(realFiles) && realLeafDirs >= old(realLeafDirs)
      ensures ok && old(!Reached(File)) ==> realFiles > old(realFiles)
      ensures ok && old(!Reached(LeafDir)) ==> realLeafDirs > old(realLeafDirs)
      ensures ok && under == NULL ==> realFiles == wantFiles && realLeafDirs == wantLeafDirs
      decreases 0, deepest + 1 - level, 3
    {
      hide Fileset.Valid, Base, Inv, Going, Grown, May, Tally, Filling, Width, Grows, Plus;
      ghost var leaf := under != NULL && isleaf;
      ghost var first, second;
      ok, first := FillLoop(File, entry, under, isleaf, level, ranwidth, m0, e, NONE);
      if ok {
        ghost var e1 := fs.entries;
        ok, second := FillLoop(LeafDir, entry, under, isleaf, level, ranwidth, m0, e,
                               Plus(NONE, Makes(leaf, File), first));
        GrowsOn(old(fs.entries), e1, fs.entries);
        if ok {
          InvParts();
          Close(entry, under, isleaf, level, m0, e, open0, first, second);
        }
      }
    }

    /** fileset_populate_subdir; the root is the call with no directory above. */
    method PopulateSubdir(under: Ptr, above: nat) returns (ok: bool, ghost made: Ptr)
      requires Inv() && above <= deepest + 1 && May(Map(), Drawn(), open, Dir, under)
      requires if under == NULL then above == 0 else under in depth && above == depth[under] + 1
      requires under != NULL ==> realFiles < wantFiles || realLeafDirs < wantLeafDirs
      modifies this, fs, fs.trees.Values
      ensures fs.Valid() && Grows(old(fs.entries), fs.entries)
      ensures ok ==> Inv() && fs.entries != map[] && open == old(open)
      ensures ok ==> realFiles >= old(realFiles) && realLeafDirs >= old(realLeafDirs)
      ensures ok && old(realFiles) < wantFiles ==> realFiles > old(realFiles)
      ensures ok && old(realLeafDirs) < wantLeafDirs ==> realLeafDirs > old(realLeafDirs)
      ensures ok && under == NULL ==> realFiles == wantFiles && realLeafDirs == wantLeafDirs
      ensures ok ==> Grown(old(Map()), Map(), under, made, Dir)
      decreases if under == NULL then 1 else 0, deepest + 1 - above, 0
    {
      hide Fileset.Valid, Base, Inv, Going, Grown, May, Tally, Recent, IsLeaf, IsDir, Filling, Grows;
      InvParts();
      TopThere();
      var level := above + 1;
      ghost var m0 := Map();
      MayUnder(m0, Drawn(), open, Dir, under);
      var randepth, ranwidth := depths(draws), widths(draws);
      var entry := PopulateDir(under);
      made := entry;
      if entry == NULL { return false, made; }
      ghost var e := fs.entries[entry];
      if randepth == 0 { randepth := 1; }
      if ranwidth == 0.0 { ranwidth := 1.0; }
      var isleaf := level >= randepth;
      FillingStart(Map(), Drawn(), m0, under, entry, old(open), level, randepth);
      ghost var e1 := fs.entries;
      ok := Fill(entry, under, isleaf, level, ranwidth, m0, e, old(open));
      GrowsOn(m0.entries, e1, fs.entries);
    }

    lemma TopThere()
      requires Base()
      ensures fs.entries != map[] ==> top in fs.entries
    {
    }

    /** fileset_populate, from the recursion on: on success exactly the wanted entries exist. */
    method PopulateAll() returns (ok: bool)
      requires Inv() && fs.entries == map[] && open == {}
      modifies this, fs, fs.trees.Values
      ensures fs.Valid()
      ensures ok ==> Laid(Map(), Drawn())
      ensures ok ==> Inv() && Complete(fs.entries, parent, depth, top, wantFiles, wantLeafDirs)
    {
      hide Numbered, Chained, Unused, Fileset.Located, DistinctIndexes, Complete, Going, Laid, Grown;
      ghost var made;
      ok, made := PopulateSubdir(NULL, 0);
      if ok {
        Completed(fs.entries, fs.idle, parent, depth, top);
        GoingLaid(Map(), Drawn(), realFiles == wantFiles, realLeafDirs == wantLeafDirs);
      }
    }

    /**
      Population and then preallocation without threads: on success the wanted number of files was picked,
      each once, and the tree of free files is empty.
    */
    method PopulateAndAllocate(skips: nat -> bool, succeeds: nat -> bool, draws: nat -> nat)
      returns (ok: bool, picks: seq<Ptr>)
      requires Inv() && fs.entries == map[] && open == {}
      modifies this, fs, fs.trees.Values
      ensures fs.Valid()
      ensures ok ==> Distinct(picks) && |picks| == wantFiles && |OfKind(fs.entries, File)| == wantFiles
      ensures ok ==> forall p :: p in picks <==> p in fs.entries && fs.entries[p].kind == File
      ensures ok ==> fs.trees[FreeFiles].Order() == []
      ensures ok ==> forall p :: p in fs.entries && fs.entries[p].kind == File ==> !fs.entries[p].free
      ensures ok ==> forall i :: 0 <= i < |picks| ==> (picks[i] in fs.trees[ExistFiles].Order() <==> !skips(i))
    {
      hide Fileset.Valid, Numbered, Chained, Unused, Allocating, FilesAtRest, Idle, AvlTree.Order, Going, Laid;
      ok := PopulateAll();
      if !ok { return false, []; }
      ReadyToAllocate(fs.entries, fs.idle);
      ghost var e0 := fs.entries;
      ok, picks := fs.AllocateFiles(skips, succeeds, draws);
      if ok {
        AllocatedAll(e0, picks, fs.entries);
        PickCount(picks, OfKind(e0, File));
      }
    }
  }

  /** After population every file is free and idle, and the counter is right. */
  lemma ReadyToAllocate(entries: Entries, idle: map<Kind, int>)
    requires Numbered(entries, idle)
    ensures FilesAtRest(entries) && FreeSet(entries) == OfKind(entries, File)
    ensures File in idle && idle[File] == |Idle(entries, File)|
  {
    assert FreeSet(entries) == OfKind(entries, File) == Idle(entries, File);
  }

  lemma AllocatedAll(e0: Entries, picks: seq<Ptr>, e: Entries)
    requires Allocating(e0, picks, e) && FreeSet(e) == {} && FreeSet(e0) == OfKind(e0, File)
    requires forall p :: p in picks <==> p in FreeSet(e0)
    ensures Distinct(picks) && OfKind(e, File) == OfKind(e0, File)
    ensures forall p :: p in e && e[p].kind == File ==> !e[p].free
  {
    forall p | p in e && e[p].kind == File ensures !e[p].free {
      assert p !in FreeSet(e);
    }
  }

  /** As many picks as there are files, each once. */
  lemma {:induction false} PickCount(picks: seq<Ptr>, s: set<Ptr>)
    requires Distinct(picks) && forall p :: p in picks <==> p in s
    ensures |picks| == |s|
    decreases |picks|
  {
    if picks == [] {
      assert s == {};
    } else {
      var n := |picks| - 1;
      var p := picks[n];
      assert p in s;
      assert forall q :: q in picks[..n] <==> q in s - {p} by {
        assert picks == picks[..n] + [p];
      }
      PickCount(picks[..n], s - {p});
    }
  }

  lemma NumberedTotal(entries: Entries, idle: map<Kind, int>)
    requires Numbered(entries, idle)
    ensures forall k: Kind :: k in idle && idle[k] >= 0
  {
  }
}
