/**
  Where population hangs the entries of a fileset: which directories hold files
  and leaf directories, which hold subdirectories, and how many, as the depth
  and the width drawn for each directory say.
*/
module PopulateLayout {
  import opened AvlShape
  import opened AvlLinks
  import opened FilesetSpec

  /** The entries with their parents and their distances from the root directory `top`. */
  datatype Plan = Plan(entries: Entries, parent: map<Ptr, Ptr>, depth: map<Ptr, nat>, top: Ptr)

  /** The depths and widths drawn for the directories, in the order of their indexes. */
  datatype Draws = Draws(depths: nat -> int, widths: nat -> real)

  ghost predicate Mapped(m: Plan) {
    m.parent.Keys == m.entries.Keys && m.depth.Keys == m.entries.Keys
  }

  ghost predicate IsDir(m: Plan, d: Ptr) {
    d in m.entries && d in m.depth && m.entries[d].kind == Dir
  }

  /** The least number that is not below w. */
  function Ceil(w: real): nat {
    if w <= 0.0 then 0 else -((-w).Floor)
  }

  lemma CeilTurns(w: real, i: nat)
    requires w >= 0.0
    ensures i as real < w + 1.0 <==> i <= Ceil(w)
  {
  }

  /** The drawn width, a zero read as one, as a number of entries. */
  function Width(dr: Draws, e: Entry): nat {
    Ceil(if dr.widths(e.index) == 0.0 then 1.0 else dr.widths(e.index))
  }

  /** The directory is at or below its drawn depth, a zero read as one; the root is at level 1. */
  ghost predicate IsLeaf(m: Plan, dr: Draws, d: Ptr)
    requires IsDir(m, d)
  {
    m.depth[d] + 1 >= if dr.depths(m.entries[d].index) == 0 then 1 else dr.depths(m.entries[d].index)
  }

  /** The entries of one kind directly below d. */
  ghost function Kids(m: Plan, d: Ptr, k: Kind): set<Ptr> {
    set p | p in m.entries && m.entries[p].kind == k && p in m.parent && m.parent[p] == d
  }

  ghost predicate Has(m: Plan, d: Ptr, k: Kind) {
    Kids(m, d, k) != {}
  }

  /** Following the parents from p leads to r after n steps. */
  ghost predicate EndsAt(parent: map<Ptr, Ptr>, p: Ptr, n: nat, r: Ptr)
    decreases n
  {
    if n == 0 then p == r else p in parent && EndsAt(parent, parent[p], n - 1, r)
  }

  ghost predicate Under(m: Plan, x: Ptr, d: Ptr) {
    exists n: nat :: EndsAt(m.parent, x, n, d)
  }

  // ------------------------------------------------------------- the layout

  /** Files and leaf directories hang below leaves other than the root, directories below the root or non-leaves. */
  ghost predicate PlacedAt(m: Plan, dr: Draws, p: Ptr)
    requires p in m.entries && p in m.parent
  {
    var d := m.parent[p];
    && IsDir(m, d)
    && if m.entries[p].kind == Dir then d == m.top || !IsLeaf(m, dr, d) else d != m.top && IsLeaf(m, dr, d)
  }

  ghost predicate Placed(m: Plan, dr: Draws) {
    && Mapped(m)
    && forall p {:trigger PlacedAt(m, dr, p)} :: p in m.entries && p != m.top ==> PlacedAt(m, dr, p)
  }

  /** No other directory that is as new as d has any of the kind. */
  ghost predicate Newest(m: Plan, d: Ptr, k: Kind)
    requires IsDir(m, d)
  {
    forall x :: IsDir(m, x) && x != d && Has(m, x, k) ==> m.entries[x].index < m.entries[d].index
  }

  /** Every directory that has files or leaf directories is older than d or below it. */
  ghost predicate NothingLater(m: Plan, d: Ptr)
    requires IsDir(m, d)
  {
    forall x :: IsDir(m, x) && (Has(m, x, File) || Has(m, x, LeafDir)) ==>
      m.entries[x].index < m.entries[d].index || Under(m, x, d)
  }

  /**
    A directory other than the root is filled as drawn.  A leaf has as many files
    as its width, or fewer if all files were made by then, so that no directory
    made later has any; so for leaf directories; and it is not empty.  Another
    directory has subdirectories, as many as its width for the files and again
    for the leaf directories, or fewer if all of those were made by then.
  */
  ghost predicate Filled(m: Plan, dr: Draws, d: Ptr)
    requires IsDir(m, d)
  {
    var w := Width(dr, m.entries[d]);
    if IsLeaf(m, dr, d) then
      && |Kids(m, d, File)| <= w && |Kids(m, d, LeafDir)| <= w && (Has(m, d, File) || Has(m, d, LeafDir))
      && (|Kids(m, d, File)| < w ==> Newest(m, d, File))
      && (|Kids(m, d, LeafDir)| < w ==> Newest(m, d, LeafDir))
    else
      && Has(m, d, Dir) && |Kids(m, d, Dir)| <= 2 * w
      && (|Kids(m, d, Dir)| < w ==> NothingLater(m, d))
  }

  /** A finished population. */
  ghost predicate Laid(m: Plan, dr: Draws) {
    Placed(m, dr) && forall d :: IsDir(m, d) && d != m.top ==> Filled(m, dr, d)
  }

  // ------------------------------------------------------ on the way to it

  /** The directory is filled, and where it is short the wanted number has been reached. */
  ghost predicate Finished(m: Plan, dr: Draws, d: Ptr, files: bool, leafDirs: bool)
    requires IsDir(m, d)
  {
    var w := Width(dr, m.entries[d]);
    && Filled(m, dr, d)
    && if IsLeaf(m, dr, d) then
         (|Kids(m, d, File)| < w ==> files) && (|Kids(m, d, LeafDir)| < w ==> leafDirs)
       else
         |Kids(m, d, Dir)| < w ==> files && leafDirs
  }

  /** All directories but the root and those in `open` are finished; the flags tell which numbers are reached. */
  ghost predicate Shape(m: Plan, dr: Draws, open: set<Ptr>, files: bool, leafDirs: bool) {
    forall d :: IsDir(m, d) && d != m.top && d !in open ==> Finished(m, dr, d, files, leafDirs)
  }

  lemma ShapeFlags(m: Plan, dr: Draws, open: set<Ptr>, files: bool, leafDirs: bool, files': bool, leafDirs': bool)
    requires Shape(m, dr, open, files, leafDirs) && (files ==> files') && (leafDirs ==> leafDirs')
    ensures Shape(m, dr, open, files', leafDirs')
  {
    hide Filled;
  }

  lemma ShapeLaid(m: Plan, dr: Draws, files: bool, leafDirs: bool)
    requires Shape(m, dr, {}, files, leafDirs) && Placed(m, dr)
    ensures Laid(m, dr)
  {
    hide Filled, Placed;
  }

  lemma ShapeClose(m: Plan, dr: Draws, open: set<Ptr>, d: Ptr, files: bool, leafDirs: bool)
    requires Shape(m, dr, open + {d}, files, leafDirs)
    requires d == m.top || (IsDir(m, d) && Finished(m, dr, d, files, leafDirs))
    ensures Shape(m, dr, open, files, leafDirs)
  {
    hide Finished;
  }

  /** A new entry p below `under`. */
  function Entered(m: Plan, p: Ptr, e: Entry, under: Ptr): Plan
    requires under == NULL || under in m.depth
  {
    Plan(m.entries[p := e], m.parent[p := under],
         m.depth[p := if under == NULL then 0 else m.depth[under] + 1], if under == NULL then p else m.top)
  }

  /** Parents are entries, or NULL for the root. */
  ghost predicate Rooted(m: Plan) {
    && Mapped(m)
    && forall p :: p in m.parent ==> m.parent[p] == NULL || m.parent[p] in m.entries
  }

  lemma EnteredKids(m: Plan, p: Ptr, e: Entry, under: Ptr, d: Ptr, k: Kind)
    requires Rooted(m) && p !in m.entries && (under == NULL || under in m.depth)
    ensures Kids(Entered(m, p, e, under), d, k) == Kids(m, d, k) + if d == under && k == e.kind then {p} else {}
    ensures p != NULL && p != under ==> Kids(Entered(m, p, e, under), p, k) == {}
  {
  }

  lemma {:induction false} EndsAtGrows(a: map<Ptr, Ptr>, b: map<Ptr, Ptr>, p: Ptr, n: nat, r: Ptr)
    requires EndsAt(a, p, n, r) && forall q :: q in a ==> q in b && b[q] == a[q]
    ensures EndsAt(b, p, n, r)
    decreases n
  {
    if n > 0 {
      EndsAtGrows(a, b, a[p], n - 1, r);
    }
  }

  lemma UnderGrows(m: Plan, n: Plan, x: Ptr, d: Ptr)
    requires Under(m, x, d) && forall q :: q in m.parent ==> q in n.parent && n.parent[q] == m.parent[q]
    ensures Under(n, x, d)
  {
    var k: nat :| EndsAt(m.parent, x, k, d);
    EndsAtGrows(m.parent, n.parent, x, k, d);
  }

  lemma {:induction false} EndsAtOneMore(parent: map<Ptr, Ptr>, p: Ptr, n: nat, r: Ptr)
    requires EndsAt(parent, p, n, r) && r in parent
    ensures EndsAt(parent, p, n + 1, parent[r])
    decreases n
  {
    if n > 0 {
      EndsAtOneMore(parent, parent[p], n - 1, r);
    } else {
      assert EndsAt(parent, parent[r], 0, parent[r]);
    }
  }

  lemma UnderParent(m: Plan, x: Ptr, d: Ptr)
    requires Under(m, x, d) && d in m.parent
    ensures Under(m, x, m.parent[d])
  {
    var k: nat :| EndsAt(m.parent, x, k, d);
    EndsAtOneMore(m.parent, x, k, d);
  }

  /** A new entry keeps everything placed if it is placed itself. */
  lemma PlacedEntered(m: Plan, dr: Draws, p: Ptr, e: Entry, under: Ptr)
    requires Placed(m, dr) && p !in m.entries && p != NULL
    requires if under == NULL then m.entries == map[]
             else IsDir(m, under) && if e.kind == Dir then under == m.top || !IsLeaf(m, dr, under)
                                     else under != m.top && IsLeaf(m, dr, under)
    ensures Placed(Entered(m, p, e, under), dr)
  {
    var n := Entered(m, p, e, under);
    forall q | q in n.entries && q != n.top ensures PlacedAt(n, dr, q) {
      if q != p { assert PlacedAt(m, dr, q); }
    }
  }

  lemma SameDir(m: Plan, dr: Draws, p: Ptr, e: Entry, under: Ptr, d: Ptr)
    requires Rooted(m) && p !in m.entries && p != NULL && (under == NULL || under in m.depth)
    requires IsDir(m, d) && d != under
    ensures var n := Entered(m, p, e, under);
      && IsDir(n, d) && n.entries[d] == m.entries[d] && (IsLeaf(n, dr, d) <==> IsLeaf(m, dr, d))
      && forall k: Kind :: Kids(n, d, k) == Kids(m, d, k)
  {
    forall k: Kind ensures Kids(Entered(m, p, e, under), d, k) == Kids(m, d, k) {
      EnteredKids(m, p, e, under, d, k);
    }
  }

  /** An entry with none of a kind below it gives no directory one of the kind. */
  lemma HasOld(m: Plan, p: Ptr, e: Entry, under: Ptr, x: Ptr, k: Kind)
    requires Rooted(m) && p !in m.entries && p != NULL && (under == NULL || under in m.depth)
    requires e.kind != k && under != p && IsDir(Entered(m, p, e, under), x) && Has(Entered(m, p, e, under), x, k)
    ensures IsDir(m, x) && Has(m, x, k) && Entered(m, p, e, under).entries[x] == m.entries[x]
  {
    EnteredKids(m, p, e, under, x, k);
  }

  lemma FinishedEntered(m: Plan, dr: Draws, p: Ptr, e: Entry, under: Ptr, d: Ptr, files: bool, leafDirs: bool)
    requires Rooted(m) && p !in m.entries && p != NULL && under != p && (under == NULL || under in m.depth)
    requires IsDir(m, d) && d != under && Finished(m, dr, d, files, leafDirs)
    requires (e.kind == File ==> !files) && (e.kind == LeafDir ==> !leafDirs)
    ensures var n := Entered(m, p, e, under); IsDir(n, d) && Finished(n, dr, d, files, leafDirs)
  {
    hide IsLeaf, Kids, Width;
    var n := Entered(m, p, e, under);
    SameDir(m, dr, p, e, under, d);
    if e.kind != File && Newest(m, d, File) {
      forall x | IsDir(n, x) && x != d && Has(n, x, File) ensures n.entries[x].index < n.entries[d].index {
        HasOld(m, p, e, under, x, File);
      }
    }
    if e.kind != LeafDir && Newest(m, d, LeafDir) {
      forall x | IsDir(n, x) && x != d && Has(n, x, LeafDir) ensures n.entries[x].index < n.entries[d].index {
        HasOld(m, p, e, under, x, LeafDir);
      }
    }
    if e.kind == Dir && NothingLater(m, d) {
      LaterEntered(m, p, e, under, d);
    }
  }

  lemma LaterEntered(m: Plan, p: Ptr, e: Entry, under: Ptr, d: Ptr)
    requires Rooted(m) && p !in m.entries && p != NULL && under != p && (under == NULL || under in m.depth)
    requires IsDir(m, d) && NothingLater(m, d) && e.kind == Dir
    ensures IsDir(Entered(m, p, e, under), d) && NothingLater(Entered(m, p, e, under), d)
  {
    hide Under;
    var n := Entered(m, p, e, under);
    forall x | IsDir(n, x) && (Has(n, x, File) || Has(n, x, LeafDir))
      ensures n.entries[x].index < n.entries[d].index || Under(n, x, d)
    {
      if Has(n, x, File) { HasOld(m, p, e, under, x, File); } else { HasOld(m, p, e, under, x, LeafDir); }
      if Under(m, x, d) { UnderGrows(m, n, x, d); }
    }
  }

  /** A new entry below an open directory, of a kind whose number has not been reached, keeps the rest finished. */
  lemma ShapeEntered(m: Plan, dr: Draws, open: set<Ptr>, p: Ptr, e: Entry, under: Ptr, files: bool, leafDirs: bool)
    requires Rooted(m) && p !in m.entries && p != NULL && under != p
    requires if under == NULL then m.entries == map[] else under in m.depth && under in open
    requires Shape(m, dr, open, files, leafDirs) && (e.kind == File ==> !files) && (e.kind == LeafDir ==> !leafDirs)
    ensures Shape(Entered(m, p, e, under), dr, if e.kind == Dir then open + {p} else open, files, leafDirs)
  {
    hide Finished, Kids;
    var n := Entered(m, p, e, under);
    var open' := if e.kind == Dir then open + {p} else open;
    forall d | IsDir(n, d) && d != n.top && d !in open' ensures Finished(n, dr, d, files, leafDirs) {
      FinishedEntered(m, dr, p, e, under, d, files, leafDirs);
    }
  }

  // ---------------------------------------------------------- growing below

  /** From m to n the entry `child` of kind k came below `under`, and everything else that is new is below it. */
  ghost predicate Grown(m: Plan, n: Plan, under: Ptr, child: Ptr, k: Kind) {
    && Mapped(m) && Mapped(n) && n.top == (if under == NULL then child else m.top)
    && (forall p :: p in m.entries ==> p in n.entries && n.entries[p] == m.entries[p]
                                       && n.parent[p] == m.parent[p] && n.depth[p] == m.depth[p])
    && child !in m.entries && child in n.entries && n.entries[child].kind == k && n.parent[child] == under
    && (forall p :: p in n.entries && p !in m.entries && p != child ==>
          n.parent[p] !in m.entries && n.parent[p] != NULL)
    && (forall p :: p in n.entries && p !in m.entries ==> Under(n, p, child))
  }

  lemma GrownKids(m: Plan, n: Plan, under: Ptr, child: Ptr, k: Kind, d: Ptr, kind: Kind)
    requires Grown(m, n, under, child, k) && d in m.entries
    ensures Kids(n, d, kind) == Kids(m, d, kind) + if d == under && kind == k then {child} else {}
    ensures |Kids(n, d, kind)| == |Kids(m, d, kind)| + if d == under && kind == k then 1 else 0
  {
    hide Under;
    var a, b := Kids(m, d, kind), Kids(n, d, kind);
    forall p ensures p in b <==> p in a || (p == child && d == under && kind == k) {
      if p in n.entries && p !in m.entries && p != child {
        assert n.parent[p] != d;
      }
    }
    CountChange(a, b, child);
  }

  lemma GrownEntered(m: Plan, p: Ptr, e: Entry, under: Ptr)
    requires Mapped(m) && p !in m.entries && (under == NULL || under in m.depth)
    ensures Grown(m, Entered(m, p, e, under), under, p, e.kind)
  {
    var n := Entered(m, p, e, under);
    assert EndsAt(n.parent, p, 0, p);
  }

  /** What grows below the child grows below the parent. */
  lemma GrownMore(a: Plan, b: Plan, c: Plan, under: Ptr, entry: Ptr, child: Ptr, k: Kind)
    requires Grown(a, b, under, entry, Dir) && Grown(b, c, entry, child, k) && entry != NULL
    ensures Grown(a, c, under, entry, Dir)
  {
    hide Under;
    forall p | p in c.entries && p !in a.entries ensures Under(c, p, entry) {
      if p in b.entries {
        UnderGrows(b, c, p, entry);
      } else {
        UnderParent(c, p, child);
      }
    }
  }

  datatype Counts = Counts(files: nat, leafDirs: nat, dirs: nat)

  ghost const NONE := Counts(0, 0, 0)

  /** How many entries of each kind a directory has. */
  ghost predicate Tally(m: Plan, d: Ptr, c: Counts) {
    |Kids(m, d, File)| == c.files && |Kids(m, d, LeafDir)| == c.leafDirs && |Kids(m, d, Dir)| == c.dirs
  }

  /** n more of the kind. */
  ghost function Plus(c: Counts, k: Kind, n: nat): Counts {
    match k
    case File => c.(files := c.files + n)
    case LeafDir => c.(leafDirs := c.leafDirs + n)
    case Dir => c.(dirs := c.dirs + n)
  }

  lemma PlusNone(c: Counts, k: Kind)
    ensures Plus(c, k, 0) == c
  {
  }

  /** What a turn of the loop for `kind` makes in a leaf directory, or in another. */
  ghost function Makes(leaf: bool, kind: Kind): Kind {
    if leaf then kind else Dir
  }

  /** What the two loops over a directory leave below it. */
  ghost function Both(leaf: bool, first: nat, second: nat): Counts {
    Plus(Plus(NONE, Makes(leaf, File), first), Makes(leaf, LeafDir), second)
  }

  lemma TallyGrown(m: Plan, n: Plan, d: Ptr, child: Ptr, c: Counts, k: Kind, turns: nat)
    requires Grown(m, n, d, child, k) && d in m.entries && Tally(m, d, Plus(c, k, turns))
    ensures Tally(n, d, Plus(c, k, turns + 1))
  {
    hide Grown, Kids;
    GrownKids(m, n, d, child, k, d, File);
    GrownKids(m, n, d, child, k, d, LeafDir);
    GrownKids(m, n, d, child, k, d, Dir);
  }

  lemma TallyNew(m: Plan, p: Ptr, e: Entry, under: Ptr)
    requires Rooted(m) && p !in m.entries && p != NULL && p != under && (under == NULL || under in m.depth)
    ensures Tally(Entered(m, p, e, under), p, NONE)
  {
    EnteredKids(m, p, e, under, p, File);
    EnteredKids(m, p, e, under, p, LeafDir);
    EnteredKids(m, p, e, under, p, Dir);
  }

  /** What a directory of a plan stays as the plan grows. */
  lemma GrownDir(m: Plan, n: Plan, under: Ptr, child: Ptr, k: Kind, d: Ptr)
    requires Grown(m, n, under, child, k) && IsDir(m, d)
    ensures IsDir(n, d) && n.entries[d] == m.entries[d] && n.depth[d] == m.depth[d]
    ensures n.top == if under == NULL then child else m.top
    ensures forall dr: Draws :: IsLeaf(n, dr, d) <==> IsLeaf(m, dr, d)
  {
    hide Under;
  }

  lemma WidthPositive(dr: Draws, e: Entry)
    requires dr.widths(e.index) >= 0.0
    ensures Width(dr, e) >= 1
  {
  }

  // ------------------------------------------------------ finishing a directory

  /** Every directory is older than d or below it. */
  ghost predicate Recent(m: Plan, d: Ptr)
    requires IsDir(m, d)
  {
    forall x :: IsDir(m, x) ==> m.entries[x].index < m.entries[d].index || Under(m, x, d)
  }

  lemma RecentGrown(m: Plan, n: Plan, under: Ptr, d: Ptr)
    requires Grown(m, n, under, d, Dir)
    requires forall x :: IsDir(m, x) ==> IsDir(n, d) && m.entries[x].index < n.entries[d].index
    ensures IsDir(n, d) && Recent(n, d)
  {
    hide Under;
  }

  lemma LaterIsNone(m: Plan, d: Ptr)
    requires IsDir(m, d) && Recent(m, d)
    ensures NothingLater(m, d)
  {
    hide Under;
  }

  /** A directory that has no subdirectories has no directory below it but itself. */
  lemma {:induction false} NoneUnder(m: Plan, dr: Draws, x: Ptr, n: nat, d: Ptr)
    requires Placed(m, dr) && IsDir(m, x) && IsDir(m, d) && EndsAt(m.parent, x, n, d) && Kids(m, d, Dir) == {}
    requires m.top in m.parent && m.parent[m.top] == NULL && NULL !in m.entries
    ensures x == d
    decreases n
  {
    if n > 0 && x != m.top {
      assert PlacedAt(m, dr, x);
      assert x in Kids(m, m.parent[x], Dir);
      NoneUnder(m, dr, m.parent[x], n - 1, d);
    }
  }

  lemma RecentIsNewest(m: Plan, dr: Draws, d: Ptr, k: Kind)
    requires Placed(m, dr) && IsDir(m, d) && Recent(m, d) && Kids(m, d, Dir) == {}
    requires m.top in m.parent && m.parent[m.top] == NULL && NULL !in m.entries
    ensures Newest(m, d, k)
  {
    forall x | IsDir(m, x) && x != d ensures m.entries[x].index < m.entries[d].index {
      if Under(m, x, d) {
        var n: nat :| EndsAt(m.parent, x, n, d);
        NoneUnder(m, dr, x, n, d);
      }
    }
  }

  /** A leaf whose loops ended at its width or at the wanted numbers is finished. */
  lemma LeafFinished(m: Plan, dr: Draws, d: Ptr, files: bool, leafDirs: bool)
    requires Placed(m, dr) && IsDir(m, d) && Recent(m, d) && IsLeaf(m, dr, d) && Kids(m, d, Dir) == {}
    requires m.top in m.parent && m.parent[m.top] == NULL && NULL !in m.entries
    requires var w := Width(dr, m.entries[d]);
      && |Kids(m, d, File)| <= w && |Kids(m, d, LeafDir)| <= w && |Kids(m, d, File)| + |Kids(m, d, LeafDir)| > 0
      && (|Kids(m, d, File)| < w ==> files) && (|Kids(m, d, LeafDir)| < w ==> leafDirs)
    ensures Finished(m, dr, d, files, leafDirs)
  {
    hide Placed, Recent, IsLeaf, Newest;
    RecentIsNewest(m, dr, d, File);
    RecentIsNewest(m, dr, d, LeafDir);
  }

  /** Each loop ended at the width, or because the wanted number was reached; one of them made something. */
  ghost predicate Ended(w: nat, first: nat, second: nat, files: bool, leafDirs: bool) {
    first <= w && second <= w && first + second > 0 && (first < w ==> files) && (second < w ==> leafDirs)
  }

  /** The end of the two loops over a directory other than the root, `first` and `second` being their turns. */
  lemma LoopsEnd(m: Plan, dr: Draws, d: Ptr, leaf: bool, first: nat, second: nat, files: bool, leafDirs: bool)
    requires Placed(m, dr) && IsDir(m, d) && Recent(m, d) && (leaf <==> IsLeaf(m, dr, d))
    requires m.top in m.parent && m.parent[m.top] == NULL && NULL !in m.entries
    requires Tally(m, d, Both(leaf, first, second))
    requires Ended(Width(dr, m.entries[d]), first, second, files, leafDirs)
    ensures Finished(m, dr, d, files, leafDirs)
  {
    hide Placed, Recent, IsLeaf, Finished, Kids;
    if leaf {
      NoKids(m, d);
      LeafFinished(m, dr, d, files, leafDirs);
    } else {
      InnerFinished(m, dr, d, first, files, leafDirs);
    }
  }

  lemma NoKids(m: Plan, d: Ptr)
    requires |Kids(m, d, Dir)| == 0
    ensures Kids(m, d, Dir) == {}
  {
  }

  /** So is another directory; each loop made subdirectories up to the width. */
  lemma InnerFinished(m: Plan, dr: Draws, d: Ptr, first: nat, files: bool, leafDirs: bool)
    requires IsDir(m, d) && Recent(m, d) && !IsLeaf(m, dr, d)
    requires var w, n := Width(dr, m.entries[d]), |Kids(m, d, Dir)|;
      && first <= n && first <= w && n - first <= w && n > 0
      && (first < w ==> files) && (n - first < w ==> leafDirs)
    ensures Finished(m, dr, d, files, leafDirs)
  {
    hide Recent, IsLeaf, NothingLater;
    LaterIsNone(m, d);
  }

  // --------------------------------------------------- a population going on

  /** The plan so far: everything is placed, and all is finished but what is open. */
  ghost predicate Going(m: Plan, dr: Draws, open: set<Ptr>, files: bool, leafDirs: bool) {
    && Placed(m, dr) && Shape(m, dr, open, files, leafDirs) && Rooted(m) && NULL !in m.entries
    && (m.entries != map[] ==> m.top in m.parent && m.parent[m.top] == NULL)
  }

  /** Where an entry of the kind may be made: the root first, then below open directories as drawn. */
  ghost predicate May(m: Plan, dr: Draws, open: set<Ptr>, kind: Kind, under: Ptr) {
    if under == NULL then m.entries == map[] && kind == Dir
    else && under in open && IsDir(m, under)
         && if kind == Dir then under == m.top || !IsLeaf(m, dr, under) else under != m.top && IsLeaf(m, dr, under)
  }

  lemma GoingStart(dr: Draws, files: bool, leafDirs: bool)
    ensures Going(Plan(map[], map[], map[], NULL), dr, {}, files, leafDirs)
  {
  }

  lemma MayUnder(m: Plan, dr: Draws, open: set<Ptr>, kind: Kind, under: Ptr)
    requires May(m, dr, open, kind, under)
    ensures under == NULL || (under in m.depth && under in m.entries && m.entries[under].kind == Dir)
    ensures under == NULL ==> m.entries == map[] && kind == Dir
  {
  }

  lemma GoingEntered(m: Plan, dr: Draws, open: set<Ptr>, p: Ptr, e: Entry, under: Ptr, files: bool, leafDirs: bool)
    requires Going(m, dr, open, files, leafDirs) && May(m, dr, open, e.kind, under)
    requires p !in m.entries && p != NULL && (e.kind == File ==> !files) && (e.kind == LeafDir ==> !leafDirs)
    ensures under == NULL || under in m.depth
    ensures var n := Entered(m, p, e, under);
      && Going(n, dr, if e.kind == Dir then open + {p} else open, files, leafDirs)
      && Grown(m, n, under, p, e.kind) && Tally(n, p, NONE)
  {
    hide Placed, Shape, Grown, Kids, IsLeaf;
    MayUnder(m, dr, open, e.kind, under);
    PlacedMay(m, dr, open, p, e, under);
    ShapeEntered(m, dr, open, p, e, under, files, leafDirs);
    GrownEntered(m, p, e, under);
    TallyNew(m, p, e, under);
  }

  lemma PlacedMay(m: Plan, dr: Draws, open: set<Ptr>, p: Ptr, e: Entry, under: Ptr)
    requires Placed(m, dr) && May(m, dr, open, e.kind, under) && p !in m.entries && p != NULL
    ensures under == NULL || under in m.depth
    ensures Placed(Entered(m, p, e, under), dr)
  {
    hide Placed, IsLeaf;
    PlacedEntered(m, dr, p, e, under);
  }

  lemma GoingFlags(m: Plan, dr: Draws, open: set<Ptr>, files: bool, leafDirs: bool, files': bool, leafDirs': bool)
    requires Going(m, dr, open, files, leafDirs) && (files ==> files') && (leafDirs ==> leafDirs')
    ensures Going(m, dr, open, files', leafDirs')
  {
    hide Placed, Shape;
    ShapeFlags(m, dr, open, files, leafDirs, files', leafDirs');
  }

  /** A directory is closed when its loops are over. */
  lemma GoingClose(m: Plan, dr: Draws, open: set<Ptr>, d: Ptr, leaf: bool, first: nat, second: nat,
                   files: bool, leafDirs: bool)
    requires Going(m, dr, open + {d}, files, leafDirs) && IsDir(m, d) && Recent(m, d)
    requires d != m.top ==>
      && (leaf <==> IsLeaf(m, dr, d))
      && Tally(m, d, Both(leaf, first, second))
      && Ended(Width(dr, m.entries[d]), first, second, files, leafDirs)
    ensures Going(m, dr, open, files, leafDirs)
  {
    hide Placed, Shape, Recent, IsLeaf, Tally, Finished;
    if d != m.top {
      LoopsEnd(m, dr, d, leaf, first, second, files, leafDirs);
    }
    ShapeClose(m, dr, open, d, files, leafDirs);
  }

  lemma GoingLaid(m: Plan, dr: Draws, files: bool, leafDirs: bool)
    requires Going(m, dr, {}, files, leafDirs)
    ensures Laid(m, dr)
  {
    hide Placed, Shape, Laid;
    ShapeLaid(m, dr, files, leafDirs);
  }

  /** The plan while directory `entry`, made below `under` when the plan was m0, is being filled. */
  ghost predicate Filling(m: Plan, dr: Draws, m0: Plan, under: Ptr, entry: Ptr, e: Entry, level: nat, leaf: bool) {
    && Grown(m0, m, under, entry, Dir) && entry != NULL && IsDir(m, entry) && m.entries[entry] == e
    && m.depth[entry] + 1 == level && (leaf <==> IsLeaf(m, dr, entry)) && Recent(m, entry)
    && (m.top == entry <==> under == NULL)
  }

  lemma FillingStart(m: Plan, dr: Draws, m0: Plan, under: Ptr, entry: Ptr, open: set<Ptr>, level: nat, randepth: int)
    requires Grown(m0, m, under, entry, Dir) && entry != NULL && IsDir(m, entry) && Recent(m, entry)
    requires May(m0, dr, open, Dir, under) && (under != NULL ==> m0.top in m0.entries)
    requires m.depth[entry] + 1 == level
    requires randepth == if dr.depths(m.entries[entry].index) == 0 then 1 else dr.depths(m.entries[entry].index)
    ensures Filling(m, dr, m0, under, entry, m.entries[entry], level, level >= randepth)
  {
    hide Under, Recent;
  }

  lemma FillingMay(m: Plan, dr: Draws, m0: Plan, under: Ptr, entry: Ptr, e: Entry, level: nat, leaf: bool,
                   open: set<Ptr>, kind: Kind)
    requires Filling(m, dr, m0, under, entry, e, level, leaf) && entry in open
    requires kind == Dir <==> under == NULL || !leaf
    ensures May(m, dr, open, kind, entry) && entry in m.depth && level == m.depth[entry] + 1 && entry in m.entries
  {
    hide Grown, Recent;
  }

  lemma FillingMore(m: Plan, n: Plan, dr: Draws, m0: Plan, under: Ptr, entry: Ptr, e: Entry, level: nat, leaf: bool,
                    child: Ptr, k: Kind)
    requires Filling(m, dr, m0, under, entry, e, level, leaf) && Grown(m, n, entry, child, k)
    ensures Filling(n, dr, m0, under, entry, e, level, leaf)
  {
    hide Grown, Recent, IsLeaf;
    GrownMore(m0, m, n, under, entry, child, k);
    GrownDir(m, n, entry, child, k, entry);
    RecentMore(m, n, entry, child, k);
  }

  lemma RecentMore(m: Plan, n: Plan, entry: Ptr, child: Ptr, k: Kind)
    requires Grown(m, n, entry, child, k) && IsDir(m, entry) && Recent(m, entry)
    ensures IsDir(n, entry) && Recent(n, entry)
  {
    hide Under;
    forall x | IsDir(n, x) ensures n.entries[x].index < n.entries[entry].index || Under(n, x, entry) {
      if x in m.entries {
        if Under(m, x, entry) { UnderGrows(m, n, x, entry); }
      } else {
        UnderParent(n, x, child);
      }
    }
  }

  lemma FillingEnd(m: Plan, dr: Draws, m0: Plan, under: Ptr, entry: Ptr, e: Entry, level: nat, leaf: bool)
    requires Filling(m, dr, m0, under, entry, e, level, leaf)
    ensures Grown(m0, m, under, entry, Dir) && IsDir(m, entry) && m.entries[entry] == e && Recent(m, entry)
    ensures (leaf <==> IsLeaf(m, dr, entry)) && (m.top == entry <==> under == NULL)
  {
    hide Grown, Recent, IsLeaf;
  }

  lemma FillingClose(m: Plan, dr: Draws, m0: Plan, under: Ptr, entry: Ptr, e: Entry, level: nat, leaf: bool,
                     open: set<Ptr>, first: nat, second: nat, files: bool, leafDirs: bool)
    requires Filling(m, dr, m0, under, entry, e, level, leaf) && Going(m, dr, open + {entry}, files, leafDirs)
    requires under != NULL ==>
      Tally(m, entry, Both(leaf, first, second)) && Ended(Width(dr, e), first, second, files, leafDirs)
    ensures Going(m, dr, open, files, leafDirs) && Grown(m0, m, under, entry, Dir) && entry in m.entries
  {
    hide Going, Tally, Both, Ended, Width, Grown, Recent, IsLeaf;
    FillingEnd(m, dr, m0, under, entry, e, level, leaf);
    GoingClose(m, dr, open, entry, leaf, first, second, files, leafDirs);
  }

  lemma WidthTurn(dr: Draws, e: Entry, ranwidth: real, i: nat)
    requires dr.widths(e.index) >= 0.0
    requires ranwidth == if dr.widths(e.index) == 0.0 then 1.0 else dr.widths(e.index)
    ensures i as real < ranwidth + 1.0 <==> i <= Width(dr, e)
    ensures Width(dr, e) >= 1
  {
    CeilTurns(ranwidth, i);
    WidthPositive(dr, e);
  }
}
