/**
  The linked cells of an AVL tree in memory, and what it means for a memory to
  hold a given shape.  A cell is one avl_node_t in its three-field form; module
  AvlPacked relates that form to the packed 64-bit word.
*/
module AvlLinks {
  import opened AvlShape

  datatype Cell = Cell(left: Ptr, right: Ptr, parent: Ptr, which: Side, bal: int)

  type Mem = map<Ptr, Cell>

  /** The address of the stack copy that avl_remove makes of a node. */
  const SPARE: Ptr := 8

  /** Node addresses are neither null nor on the stack. */
  predicate NodeAddr(p: Ptr) {
    p != NULL && p != SPARE
  }

  function Child(c: Cell, d: Side): Ptr {
    if d == 0 then c.left else c.right
  }

  /** The cell whose child on side d is `near` and whose other child is `far`. */
  function CellOn(d: Side, near: Ptr, far: Ptr, parent: Ptr, which: Side, bal: int): Cell {
    if d == 0 then Cell(near, far, parent, which, bal) else Cell(far, near, parent, which, bal)
  }

  function SetChild(m: Mem, p: Ptr, d: Side, q: Ptr): Mem
    requires p in m
  {
    if d == 0 then m[p := m[p].(left := q)] else m[p := m[p].(right := q)]
  }

  function SetBal(m: Mem, p: Ptr, b: int): Mem
    requires p in m
  {
    m[p := m[p].(bal := b)]
  }

  function SetParent(m: Mem, p: Ptr, q: Ptr): Mem
    requires p in m
  {
    m[p := m[p].(parent := q)]
  }

  /** AVL_SETPARENT and AVL_SETCHILD on one node. */
  function Hang(m: Mem, p: Ptr, parent: Ptr, which: Side): Mem
    requires p in m
  {
    m[p := m[p].(parent := parent, which := which)]
  }

  /** AVL_SETPARENT, AVL_SETCHILD and AVL_SETBALANCE on one node. */
  function HangBal(m: Mem, p: Ptr, parent: Ptr, which: Side, b: int): Mem
    requires p in m
  {
    m[p := m[p].(parent := parent, which := which, bal := b)]
  }

  /** avl_index_t: a node address with a child index; the null index is Index(NULL, 0). */
  datatype Index = Index(node: Ptr, child: Side)

  // -------------------------------------------------------- representation

  /** The memory holds the shape t, hanging as child `which` of `parent`. */
  ghost predicate Rep(m: Mem, t: Tree, parent: Ptr, which: Side) {
    t.Node? ==>
      && t.ptr != NULL && t.ptr in m
      && m[t.ptr] == Cell(Root(t.left), Root(t.right), parent, which, t.bal)
      && Rep(m, t.left, t.ptr, 0) && Rep(m, t.right, t.ptr, 1)
  }

  /** The memory holds the context c, with `child` linked in at its hole. */
  ghost predicate CRep(m: Mem, c: Ctx, child: Ptr) {
    c.Frame? ==>
      && c.ptr != NULL && c.ptr in m
      && m[c.ptr] == CellOn(c.side, child, Root(c.sib), CPtr(c.up), CSide(c.up), c.bal)
      && Rep(m, c.sib, c.ptr, 1 - c.side)
      && CRep(m, c.up, c.ptr)
  }

  /** The memory holds Plug(c, t), seen from the position of t. */
  ghost predicate Focus(m: Mem, root: Ptr, c: Ctx, t: Tree) {
    && root == RootOf(c, Root(t))
    && CRep(m, c, Root(t)) && Rep(m, t, CPtr(c), CSide(c))
    && CUnique(c) && Unique(t) && CPtrs(c) !! Ptrs(t)
  }

  /** The memory holds the whole shape t. */
  ghost predicate Holds(m: Mem, root: Ptr, t: Tree) {
    root == Root(t) && Rep(m, t, NULL, 0) && Unique(t)
  }

  /** The child link of a node is null exactly when there is no subtree there. */
  lemma {:induction false} ChildLink(m: Mem, t: Tree, parent: Ptr, which: Side, d: Side)
    requires Rep(m, t, parent, which) && t.Node?
    ensures Child(m[t.ptr], d) == Root(Kid(t, d))
    ensures Child(m[t.ptr], d) == NULL <==> Kid(t, d).Nil?
  {
  }

  lemma {:induction false} RepJoin(m: Mem, p: Ptr, bal: int, d: Side, near: Tree, far: Tree, parent: Ptr, which: Side)
    ensures Rep(m, Join(p, bal, d, near, far), parent, which) <==>
      && p != NULL && p in m
      && m[p] == CellOn(d, Root(near), Root(far), parent, which, bal)
      && Rep(m, near, p, d) && Rep(m, far, p, 1 - d)
  {
  }

  lemma {:induction false} RepPlug(m: Mem, c: Ctx, t: Tree)
    ensures Rep(m, Plug(c, t), NULL, 0) <==> CRep(m, c, Root(t)) && Rep(m, t, CPtr(c), CSide(c))
    decreases c
  {
    if c.Frame? {
      RepPlug(m, c.up, Join(c.ptr, c.bal, c.side, t, c.sib));
      RepJoin(m, c.ptr, c.bal, c.side, t, c.sib, CPtr(c.up), CSide(c.up));
    }
  }

  /** Looking at one position and looking at the whole are the same thing. */
  lemma {:induction false} FocusIsHolds(m: Mem, root: Ptr, c: Ctx, t: Tree)
    ensures Focus(m, root, c, t) <==> Holds(m, root, Plug(c, t))
  {
    RepPlug(m, c, t);
    PlugUnique(c, t);
    PlugPtrs(c, t);
  }

  /** Stepping between a node and its child on side d. */
  lemma {:induction false} FocusDown(m: Mem, root: Ptr, c: Ctx, t: Tree, d: Side)
    requires t.Node?
    ensures Focus(m, root, c, t) <==>
            Focus(m, root, Frame(t.ptr, t.bal, d, Kid(t, 1 - d), c), Kid(t, d))
  {
    PlugDown(c, t, d);
    FocusIsHolds(m, root, c, t);
    FocusIsHolds(m, root, Frame(t.ptr, t.bal, d, Kid(t, 1 - d), c), Kid(t, d));
  }

  lemma {:induction false} FocusUp(m: Mem, root: Ptr, c: Ctx, t: Tree)
    requires c.Frame?
    ensures Focus(m, root, c, t) <==> Focus(m, root, c.up, Join(c.ptr, c.bal, c.side, t, c.sib))
  {
    FocusIsHolds(m, root, c, t);
    FocusIsHolds(m, root, c.up, Join(c.ptr, c.bal, c.side, t, c.sib));
  }

  /** The cell at a position. */
  lemma {:induction false} NodeCell(m: Mem, root: Ptr, c: Ctx, t: Tree)
    requires Focus(m, root, c, t) && t.Node?
    ensures t.ptr in m && t.ptr != NULL
    ensures m[t.ptr] == Cell(Root(t.left), Root(t.right), CPtr(c), CSide(c), t.bal)
    ensures t.left.Nil? <==> Root(t.left) == NULL
    ensures t.right.Nil? <==> Root(t.right) == NULL
  {
    ChildLink(m, t, CPtr(c), CSide(c), 0);
    ChildLink(m, t, CPtr(c), CSide(c), 1);
  }

  /** The cell above a position. */
  lemma {:induction false} ParentCell(m: Mem, root: Ptr, c: Ctx, t: Tree)
    requires Focus(m, root, c, t)
    ensures CPtr(c) == NULL <==> c.Top?
    ensures c.Frame? ==> c.ptr in m && m[c.ptr] == CellOn(c.side, Root(t), Root(c.sib), CPtr(c.up), CSide(c.up), c.bal)
  {
  }

  // ----------------------------------------------------------------- frames

  ghost predicate Agree(m: Mem, n: Mem, s: set<Ptr>) {
    forall p :: p in s && p in m ==> p in n && n[p] == m[p]
  }

  /** Everything outside `s` is as before. */
  ghost predicate Same(m: Mem, n: Mem, s: set<Ptr>) {
    forall x :: x in m && x !in s ==> x in n && n[x] == m[x]
  }

  lemma {:induction false} SameAgree(m: Mem, n: Mem, s: set<Ptr>, t: set<Ptr>)
    requires Same(m, n, s) && s !! t
    ensures Agree(m, n, t)
  {
  }

  lemma {:induction false} RepFrame(m: Mem, n: Mem, t: Tree, parent: Ptr, which: Side)
    requires Rep(m, t, parent, which) && Agree(m, n, Ptrs(t))
    ensures Rep(n, t, parent, which)
  {
    if t.Node? {
      RepFrame(m, n, t.left, t.ptr, 0);
      RepFrame(m, n, t.right, t.ptr, 1);
    }
  }

  /** Rehanging a subtree changes only its root's parent link and child index. */
  lemma {:induction false} RepMove(m: Mem, n: Mem, t: Tree, parent: Ptr, which: Side, parent': Ptr, which': Side)
    requires Rep(m, t, parent, which) && Unique(t)
    requires t.Node? ==> Agree(m, n, Ptrs(t.left) + Ptrs(t.right))
    requires t.Node? ==> t.ptr in n && n[t.ptr] == m[t.ptr].(parent := parent', which := which')
    ensures Rep(n, t, parent', which')
  {
    if t.Node? {
      RepFrame(m, n, t.left, t.ptr, 0);
      RepFrame(m, n, t.right, t.ptr, 1);
    }
  }

  lemma {:induction false} CRepFrame(m: Mem, n: Mem, c: Ctx, child: Ptr)
    requires CRep(m, c, child) && Agree(m, n, CPtrs(c))
    ensures CRep(n, c, child)
  {
    if c.Frame? {
      RepFrame(m, n, c.sib, c.ptr, 1 - c.side);
      CRepFrame(m, n, c.up, c.ptr);
    }
  }

  /** Linking another child in at the hole changes one child link of the innermost frame. */
  lemma {:induction false} CRepSwap(m: Mem, n: Mem, c: Ctx, child: Ptr, child': Ptr)
    requires CRep(m, c, child) && CUnique(c)
    requires c.Frame? ==> Agree(m, n, CPtrs(c) - {c.ptr})
    requires c.Frame? ==> c.ptr in n && n[c.ptr] == SetChild(m, c.ptr, c.side, child')[c.ptr]
    ensures CRep(n, c, child')
  {
    if c.Frame? {
      RepFrame(m, n, c.sib, c.ptr, 1 - c.side);
      CRepFrame(m, n, c.up, c.ptr);
    }
  }

  /** Storing a balance changes the balance of that node of the shape and nothing else. */
  lemma {:induction false} BalWritten(m: Mem, root: Ptr, c: Ctx, p: Ptr, bal: int, d: Side,
                                      near: Tree, far: Tree, b: int)
    requires Focus(m, root, c, Join(p, bal, d, near, far))
    ensures p in m && Focus(SetBal(m, p, b), root, c, Join(p, b, d, near, far))
  {
    var n := m[p := m[p].(bal := b)];
    RepJoin(m, p, bal, d, near, far, CPtr(c), CSide(c));
    JoinPtrs(p, bal, d, near, far);
    JoinPtrs(p, b, d, near, far);
    RepFrame(m, n, near, p, d);
    RepFrame(m, n, far, p, 1 - d);
    RepJoin(n, p, b, d, near, far, CPtr(c), CSide(c));
    CRepFrame(m, n, c, p);
  }

  /** Filling an empty hole with a fresh leaf. */
  lemma {:induction false} LeafWritten(m: Mem, n: Mem, root: Ptr, c: Ctx, p: Ptr)
    requires Focus(m, root, c, Nil) && p != NULL && p !in CPtrs(c)
    requires var m1 := m[p := Cell(NULL, NULL, CPtr(c), CSide(c), 0)];
             n == if c.Top? then m1 else if c.ptr in m1 then SetChild(m1, c.ptr, c.side, p) else m1
    ensures Focus(n, if c.Top? then p else root, c, Node(p, 0, Nil, Nil))
  {
    CRepSwap(m, n, c, NULL, p);
  }

  /** Connecting the parent directly to the only child of a node takes the node out. */
  lemma {:induction false} SpliceWritten(m: Mem, n: Mem, root: Ptr, root': Ptr, c: Ctx, t: Tree)
    requires Focus(m, root, c, t) && t.Node? && (t.left.Nil? || t.right.Nil?)
    requires var x := if t.left.Node? then t.left else t.right;
      && (x.Node? ==> x.ptr in m)
      && var m1 := if x.Node? then Hang(m, x.ptr, CPtr(c), CSide(c)) else m;
      n == if c.Frame? && c.ptr in m1 then SetChild(m1, c.ptr, c.side, Root(x)) else m1
    requires root' == if c.Top? then Root(if t.left.Node? then t.left else t.right) else root
    ensures var x := if t.left.Node? then t.left else t.right; Focus(n, root', c, x)
  {
    var x := if t.left.Node? then t.left else t.right;
    var w: Side := if t.left.Node? then 0 else 1;
    assert Rep(m, x, t.ptr, w) && Unique(x) && CPtrs(c) !! Ptrs(x);
    if x.Node? { assert Agree(m, n, Ptrs(x.left) + Ptrs(x.right)); }
    RepMove(m, n, x, t.ptr, w, CPtr(c), CSide(c));
    CRepSwap(m, n, c, t.ptr, Root(x));
  }

  // ------------------------------------------------------- links that agree

  lemma {:induction false} RepPtrs(m: Mem, t: Tree, parent: Ptr, which: Side)
    requires Rep(m, t, parent, which)
    ensures forall p :: p in Ptrs(t) ==> p in m && p != NULL
  {
    if t.Node? {
      RepPtrs(m, t.left, t.ptr, 0);
      RepPtrs(m, t.right, t.ptr, 1);
    }
  }

  lemma {:induction false} CRepPtrs(m: Mem, c: Ctx, child: Ptr)
    requires CRep(m, c, child)
    ensures forall p :: p in CPtrs(c) ==> p in m && p != NULL
  {
    if c.Frame? {
      RepPtrs(m, c.sib, c.ptr, 1 - c.side);
      CRepPtrs(m, c.up, c.ptr);
    }
  }

  /** Every child link is answered by the child's parent link and child index. */
  lemma {:induction false} ChildLinksAgree(m: Mem, t: Tree, parent: Ptr, which: Side, p: Ptr, d: Side)
    requires Rep(m, t, parent, which) && p in Ptrs(t)
    ensures p in m
    ensures Child(m[p], d) != NULL ==>
      var q := Child(m[p], d); q in Ptrs(t) && q in m && m[q].parent == p && m[q].which == d
  {
    if t.ptr != p {
      if p in Ptrs(t.left) {
        ChildLinksAgree(m, t.left, t.ptr, 0, p, d);
      } else {
        ChildLinksAgree(m, t.right, t.ptr, 1, p, d);
      }
    }
  }

  /** Every parent link is answered by the parent's child link at the child index. */
  lemma {:induction false} ParentLinksAgree(m: Mem, t: Tree, parent: Ptr, which: Side, p: Ptr)
    requires Rep(m, t, parent, which) && p in Ptrs(t)
    ensures p in m
    ensures if p == Root(t) then m[p].parent == parent && m[p].which == which
            else m[p].parent in Ptrs(t) && m[p].parent in m && Child(m[m[p].parent], m[p].which) == p
  {
    if t.ptr != p {
      if p in Ptrs(t.left) {
        ParentLinksAgree(m, t.left, t.ptr, 0, p);
      } else {
        ParentLinksAgree(m, t.right, t.ptr, 1, p);
      }
    }
  }

  // ------------------------------------------------------------- renaming

  function RenameCell(c: Cell, gone: Ptr, moved: Ptr, spare: Ptr): Cell {
    Cell(Renamed(c.left, gone, moved, spare), Renamed(c.right, gone, moved, spare),
         Renamed(c.parent, gone, moved, spare), c.which, c.bal)
  }

  /** A memory whose cells are the old ones with renamed addresses and links holds the renamed shape. */
  lemma {:induction false} RepRename(m: Mem, n: Mem, t: Tree, parent: Ptr, which: Side,
                                     gone: Ptr, moved: Ptr, spare: Ptr)
    requires Rep(m, t, parent, which) && gone != NULL && moved != NULL && spare != NULL
    requires forall p :: p in Ptrs(t) && p in m ==>
               var q := Renamed(p, gone, moved, spare); q in n && n[q] == RenameCell(m[p], gone, moved, spare)
    ensures Rep(n, RenameTree(t, gone, moved, spare), Renamed(parent, gone, moved, spare), which)
  {
    if t.Node? {
      RepRename(m, n, t.left, t.ptr, 0, gone, moved, spare);
      RepRename(m, n, t.right, t.ptr, 1, gone, moved, spare);
    }
  }
}
