/**
  The mathematical side of the AVL tree: shapes of linked nodes, the context
  that surrounds a position in a shape, in-order sequences, heights and the
  balance invariant.  Nothing here mentions memory; module AvlLinks ties these
  values to the linked cells.
*/
module AvlShape {

  /** Address of an avl_node_t; the null pointer is 0. */
  type Ptr = nat

  const NULL: Ptr := 0

  /** Child index: 0 is "less than" (left), 1 is "greater than" (right). */
  type Side = d: int | d == 0 || d == 1

  /** avl_child2balance: the balance contribution of a child index. */
  function Weight(d: Side): int {
    if d == 0 then -1 else 1
  }

  /** The balance of a node whose child on side d exceeds the other child by x levels. */
  function Lean(d: Side, x: int): int {
    if d == 0 then -x else x
  }

  /** avl_balance2child: the child index of the taller side (left when level). */
  function HeavySide(bal: int): Side {
    if bal <= 0 then 0 else 1
  }

  datatype Tree = Nil | Node(ptr: Ptr, bal: int, left: Tree, right: Tree)

  function Root(t: Tree): Ptr {
    if t.Nil? then NULL else t.ptr
  }

  function Kid(t: Tree, d: Side): Tree
    requires t.Node?
  {
    if d == 0 then t.left else t.right
  }

  /** The node whose child on side d is `near` and whose other child is `far`. */
  function Join(p: Ptr, bal: int, d: Side, near: Tree, far: Tree): Tree {
    if d == 0 then Node(p, bal, near, far) else Node(p, bal, far, near)
  }

  function InOrder(t: Tree): seq<Ptr> {
    if t.Nil? then [] else InOrder(t.left) + [t.ptr] + InOrder(t.right)
  }

  function PostOrder(t: Tree): seq<Ptr> {
    if t.Nil? then [] else PostOrder(t.left) + PostOrder(t.right) + [t.ptr]
  }

  function Ptrs(t: Tree): set<Ptr> {
    if t.Nil? then {} else {t.ptr} + Ptrs(t.left) + Ptrs(t.right)
  }

  function Size(t: Tree): nat {
    if t.Nil? then 0 else Size(t.left) + Size(t.right) + 1
  }

  function Max(a: int, b: int): int {
    if a < b then b else a
  }

  function Height(t: Tree): nat {
    if t.Nil? then 0 else 1 + Max(Height(t.left), Height(t.right))
  }

  /** No node occurs twice. */
  ghost predicate Unique(t: Tree) {
    t.Node? ==>
      && Unique(t.left) && Unique(t.right)
      && t.ptr !in Ptrs(t.left) && t.ptr !in Ptrs(t.right)
      && Ptrs(t.left) !! Ptrs(t.right)
  }

  /** The AVL invariant: every stored balance is the height difference, and it is -1, 0 or 1. */
  ghost predicate Balanced(t: Tree) {
    t.Node? ==>
      && Balanced(t.left) && Balanced(t.right)
      && t.bal == Height(t.right) - Height(t.left)
      && -1 <= t.bal <= 1
  }

  /** The node furthest to side d of a shape. */
  function Extreme(t: Tree, d: Side): Ptr {
    if t.Nil? then NULL
    else if Kid(t, d).Nil? then t.ptr
    else Extreme(Kid(t, d), d)
  }

  // ---------------------------------------------------------------- contexts

  /** What surrounds a position: the hole is the child of `ptr` on side `side`. */
  datatype Ctx = Top | Frame(ptr: Ptr, bal: int, side: Side, sib: Tree, up: Ctx)

  function Plug(c: Ctx, t: Tree): Tree {
    if c.Top? then t else Plug(c.up, Join(c.ptr, c.bal, c.side, t, c.sib))
  }

  /** The parent link and child index that a node at the hole carries. */
  function CPtr(c: Ctx): Ptr {
    if c.Top? then NULL else c.ptr
  }

  function CSide(c: Ctx): Side {
    if c.Top? then 0 else c.side
  }

  function CPtrs(c: Ctx): set<Ptr> {
    if c.Top? then {} else {c.ptr} + Ptrs(c.sib) + CPtrs(c.up)
  }

  function CSize(c: Ctx): nat {
    if c.Top? then 0 else 1 + Size(c.sib) + CSize(c.up)
  }

  function RootOf(c: Ctx, p: Ptr): Ptr {
    if c.Top? then p else RootOf(c.up, c.ptr)
  }

  ghost predicate CUnique(c: Ctx) {
    c.Frame? ==>
      && Unique(c.sib) && CUnique(c.up)
      && c.ptr !in Ptrs(c.sib) && c.ptr !in CPtrs(c.up)
      && Ptrs(c.sib) !! CPtrs(c.up)
  }

  /** The context is balanced once its hole holds a tree of height h. */
  ghost predicate CBalanced(c: Ctx, h: nat) {
    c.Frame? ==>
      && Balanced(c.sib)
      && c.bal == Lean(c.side, h - Height(c.sib))
      && -1 <= c.bal <= 1
      && CBalanced(c.up, 1 + Max(h, Height(c.sib)))
  }

  /** In-order elements to the left and to the right of the hole. */
  function Before(c: Ctx): seq<Ptr> {
    if c.Top? then []
    else if c.side == 0 then Before(c.up)
    else Before(c.up) + InOrder(c.sib) + [c.ptr]
  }

  function After(c: Ctx): seq<Ptr> {
    if c.Top? then []
    else if c.side == 0 then [c.ptr] + InOrder(c.sib) + After(c.up)
    else After(c.up)
  }

  /** The element next to the hole on side d, NULL when there is none. */
  function Beside(c: Ctx, d: Side): Ptr {
    if c.Top? then NULL
    else if c.side != d then c.ptr
    else Beside(c.up, d)
  }

  // -------------------------------------------------- plugging and its parts

  lemma {:induction false} JoinPtrs(p: Ptr, bal: int, d: Side, near: Tree, far: Tree)
    ensures Kid(Join(p, bal, d, near, far), d) == near
    ensures Kid(Join(p, bal, d, near, far), 1 - d) == far
    ensures Ptrs(Join(p, bal, d, near, far)) == {p} + Ptrs(near) + Ptrs(far)
    ensures Size(Join(p, bal, d, near, far)) == 1 + Size(near) + Size(far)
    ensures Unique(Join(p, bal, d, near, far)) <==>
            Unique(near) && Unique(far) && p !in Ptrs(near) && p !in Ptrs(far) && Ptrs(near) !! Ptrs(far)
  {
  }

  lemma {:induction false} JoinBalance(p: Ptr, bal: int, d: Side, near: Tree, far: Tree)
    ensures Height(Join(p, bal, d, near, far)) == 1 + Max(Height(near), Height(far))
    ensures Balanced(Join(p, bal, d, near, far)) <==>
            Balanced(near) && Balanced(far) && bal == Lean(d, Height(near) - Height(far)) && -1 <= bal <= 1
  {
  }

  lemma {:induction false} JoinOrder(p: Ptr, bal: int, d: Side, near: Tree, far: Tree)
    ensures InOrder(Join(p, bal, d, near, far)) ==
            if d == 0 then InOrder(near) + [p] + InOrder(far) else InOrder(far) + [p] + InOrder(near)
  {
  }

  lemma {:induction false} JoinKids(t: Tree, d: Side)
    requires t.Node?
    ensures t == Join(t.ptr, t.bal, d, Kid(t, d), Kid(t, 1 - d))
  {
  }

  lemma {:induction false} LeafFacts(p: Ptr)
    ensures var t := Node(p, 0, Nil, Nil); Height(t) == 1 && Balanced(t) && InOrder(t) == [p]
  {
  }

  lemma {:induction false} PlugPtrs(c: Ctx, t: Tree)
    ensures Ptrs(Plug(c, t)) == CPtrs(c) + Ptrs(t)
    ensures Size(Plug(c, t)) == CSize(c) + Size(t)
    ensures Root(Plug(c, t)) == RootOf(c, Root(t))
    decreases c
  {
    if c.Frame? {
      PlugPtrs(c.up, Join(c.ptr, c.bal, c.side, t, c.sib));
    }
  }

  lemma {:induction false} PlugUnique(c: Ctx, t: Tree)
    ensures Unique(Plug(c, t)) <==> CUnique(c) && Unique(t) && CPtrs(c) !! Ptrs(t)
    decreases c
  {
    if c.Frame? {
      var u := Join(c.ptr, c.bal, c.side, t, c.sib);
      PlugUnique(c.up, u);
      JoinPtrs(c.ptr, c.bal, c.side, t, c.sib);
    }
  }

  lemma {:induction false} PlugBalanced(c: Ctx, t: Tree)
    ensures Balanced(Plug(c, t)) <==> CBalanced(c, Height(t)) && Balanced(t)
    decreases c
  {
    if c.Frame? {
      PlugBalanced(c.up, Join(c.ptr, c.bal, c.side, t, c.sib));
      JoinBalance(c.ptr, c.bal, c.side, t, c.sib);
    }
  }

  lemma {:induction false} PlugInOrder(c: Ctx, t: Tree)
    ensures InOrder(Plug(c, t)) == Before(c) + InOrder(t) + After(c)
    decreases c
  {
    if c.Frame? {
      PlugInOrder(c.up, Join(c.ptr, c.bal, c.side, t, c.sib));
    }
  }

  /** Moving the position up one level keeps the in-order sequence, whatever balance is stored. */
  lemma {:induction false} OrderUp(c: Ctx, t: Tree, bal: int)
    requires c.Frame?
    ensures Before(c.up) + InOrder(Join(c.ptr, bal, c.side, t, c.sib)) + After(c.up) ==
            Before(c) + InOrder(t) + After(c)
  {
  }

  /** Opening the child on side d of the plugged node gives the same whole. */
  lemma {:induction false} PlugDown(c: Ctx, t: Tree, d: Side)
    requires t.Node?
    ensures Plug(Frame(t.ptr, t.bal, d, Kid(t, 1 - d), c), Kid(t, d)) == Plug(c, t)
  {
  }

  // ------------------------------------------- heights one level off balance

  /** The subtree at the hole grew by one level and the node above leaned the other way. */
  lemma {:induction false} GrownLevel(c: Ctx, t: Tree)
    requires c.Frame? && Balanced(t) && Height(t) > 0 && CBalanced(c, Height(t) - 1)
    requires c.bal + Weight(c.side) == 0
    ensures var u := Join(c.ptr, 0, c.side, t, c.sib); Balanced(u) && CBalanced(c.up, Height(u))
  {
    JoinBalance(c.ptr, 0, c.side, t, c.sib);
  }

  /** The subtree at the hole grew by one level and the node above was level. */
  lemma {:induction false} GrownTall(c: Ctx, t: Tree)
    requires c.Frame? && Balanced(t) && Height(t) > 0 && CBalanced(c, Height(t) - 1)
    requires c.bal == 0
    ensures var u := Join(c.ptr, Weight(c.side), c.side, t, c.sib);
            Balanced(u) && Height(u) == Height(t) + 1 && CBalanced(c.up, Height(u) - 1)
  {
    JoinBalance(c.ptr, Weight(c.side), c.side, t, c.sib);
  }

  /** The subtree at the hole grew by one level and the node above already leaned its way. */
  lemma {:induction false} GrownOver(c: Ctx, t: Tree)
    requires c.Frame? && Balanced(t) && Height(t) > 0 && CBalanced(c, Height(t) - 1)
    requires c.bal != 0 && c.bal + Weight(c.side) != 0
    ensures c.bal == Weight(c.side)
    ensures Height(t) == Height(c.sib) + 2 && Balanced(c.sib) && CBalanced(c.up, Height(t))
  {
  }

  /** The subtree at the hole shrank by one level and the node above was level. */
  lemma {:induction false} ShrunkLean(c: Ctx, t: Tree)
    requires c.Frame? && Balanced(t) && CBalanced(c, Height(t) + 1)
    requires c.bal == 0
    ensures var u := Join(c.ptr, -Weight(c.side), c.side, t, c.sib);
      && Balanced(u) && CBalanced(c.up, Height(u))
      && Height(u) == 1 + Max(Height(t) + 1, Height(c.sib))
  {
    JoinBalance(c.ptr, -Weight(c.side), c.side, t, c.sib);
  }

  /** The subtree at the hole shrank by one level and the node above leaned its way. */
  lemma {:induction false} ShrunkLevel(c: Ctx, t: Tree)
    requires c.Frame? && Balanced(t) && CBalanced(c, Height(t) + 1)
    requires c.bal - Weight(c.side) == 0
    ensures var u := Join(c.ptr, 0, c.side, t, c.sib);
      && Balanced(u) && CBalanced(c.up, Height(u) + 1)
      && Height(u) + 1 == 1 + Max(Height(t) + 1, Height(c.sib))
  {
    JoinBalance(c.ptr, 0, c.side, t, c.sib);
  }

  /** The subtree at the hole shrank by one level and the node above already leaned away. */
  lemma {:induction false} ShrunkOver(c: Ctx, t: Tree)
    requires c.Frame? && Balanced(t) && CBalanced(c, Height(t) + 1)
    requires c.bal != 0 && c.bal - Weight(c.side) != 0
    ensures c.bal == -Weight(c.side)
    ensures Height(c.sib) == Height(t) + 2 && Balanced(c.sib) && CBalanced(c.up, Height(c.sib) + 1)
  {
  }

  // ------------------------------------------------------- locating a node

  ghost function LocateFrom(c: Ctx, t: Tree, p: Ptr): (r: (Ctx, Tree))
    requires p in Ptrs(t)
    ensures r.1.Node? && r.1.ptr == p
    ensures Plug(r.0, r.1) == Plug(c, t)
    decreases t
  {
    if t.ptr == p then (c, t)
    else if p in Ptrs(t.left) then LocateFrom(Frame(t.ptr, t.bal, 0, t.right, c), t.left, p)
    else LocateFrom(Frame(t.ptr, t.bal, 1, t.left, c), t.right, p)
  }

  /** The context and the subtree of the node p in t. */
  ghost function Locate(t: Tree, p: Ptr): (r: (Ctx, Tree))
    requires p in Ptrs(t)
    ensures r.1.Node? && r.1.ptr == p && Plug(r.0, r.1) == t
  {
    LocateFrom(Top, t, p)
  }

  // ------------------------------------------------- in-order positions

  ghost predicate Distinct(s: seq<Ptr>) {
    forall i, j :: 0 <= i < j < |s| ==> s[i] != s[j]
  }

  lemma {:induction false} InOrderElements(t: Tree)
    ensures |InOrder(t)| == Size(t)
    ensures forall p :: p in InOrder(t) <==> p in Ptrs(t)
  {
    if t.Node? {
      InOrderElements(t.left);
      InOrderElements(t.right);
    }
  }

  /** Distinctness of a sequence in terms of three consecutive parts. */
  lemma {:induction false} DistinctParts(l: seq<Ptr>, p: Ptr, r: seq<Ptr>)
    ensures Distinct(l + [p] + r) <==>
            Distinct(l) && Distinct(r) && p !in l && p !in r && forall q :: q in l ==> q !in r
  {
    var s := l + [p] + r;
    assert s[|l|] == p && forall j :: 0 <= j < |r| ==> s[|l| + 1 + j] == r[j];
    if Distinct(s) {
      forall i, j | 0 <= i < |l| && 0 <= j < |r| ensures l[i] != r[j] {
        assert s[i] == l[i] && s[|l| + 1 + j] == r[j];
      }
      forall i | 0 <= i < |l| ensures l[i] != p {
        assert s[i] == l[i];
      }
      forall i, j | 0 <= i < j < |r| ensures r[i] != r[j] {
        assert s[|l| + 1 + i] == r[i] && s[|l| + 1 + j] == r[j];
      }
      forall i | 0 <= i < |r| ensures r[i] != p {
        assert s[|l| + 1 + i] == r[i];
      }
      forall i, j | 0 <= i < j < |l| ensures l[i] != l[j] {
        assert s[i] == l[i] && s[j] == l[j];
      }
    } else {
      var i, j :| 0 <= i < j < |s| && s[i] == s[j];
      assert i < |l| ==> s[i] in l;
      assert j > |l| ==> s[j] == r[j - |l| - 1];
      assert i > |l| ==> s[i] == r[i - |l| - 1];
    }
  }

  lemma {:induction false} UniqueIsDistinct(t: Tree)
    ensures Unique(t) <==> Distinct(InOrder(t))
  {
    if t.Node? {
      UniqueIsDistinct(t.left);
      UniqueIsDistinct(t.right);
      InOrderElements(t.left);
      InOrderElements(t.right);
      DistinctParts(InOrder(t.left), t.ptr, InOrder(t.right));
    }
  }

  /** The in-order sequence determines the nodes, their number and their uniqueness. */
  lemma {:induction false} SameOrder(t: Tree, u: Tree)
    requires InOrder(t) == InOrder(u)
    ensures Ptrs(t) == Ptrs(u) && Size(t) == Size(u)
    ensures Unique(t) <==> Unique(u)
  {
    InOrderElements(t);
    InOrderElements(u);
    UniqueIsDistinct(t);
    UniqueIsDistinct(u);
    assert forall p :: p in Ptrs(t) <==> p in Ptrs(u);
  }

  /** Index of the first occurrence of p. */
  ghost function IndexOf(s: seq<Ptr>, p: Ptr): (i: nat)
    requires p in s
    ensures i < |s| && s[i] == p
  {
    if s[0] == p then 0 else 1 + IndexOf(s[1..], p)
  }

  lemma {:induction false} IndexUnique(s: seq<Ptr>, p: Ptr, i: nat)
    requires Distinct(s) && i < |s| && s[i] == p
    ensures IndexOf(s, p) == i
  {
  }

  lemma {:induction false} ExtremeIsEnd(t: Tree, d: Side)
    ensures t.Nil? <==> InOrder(t) == []
    ensures t.Node? ==> Extreme(t, d) == (if d == 0 then InOrder(t)[0] else InOrder(t)[|InOrder(t)| - 1])
    decreases t
  {
    if t.Node? {
      ExtremeIsEnd(t.left, d);
      ExtremeIsEnd(t.right, d);
    }
  }

  lemma {:induction false} BesideIsAdjacent(c: Ctx)
    ensures Beside(c, 0) == if Before(c) == [] then NULL else Before(c)[|Before(c)| - 1]
    ensures Beside(c, 1) == if After(c) == [] then NULL else After(c)[0]
  {
    if c.Frame? { BesideIsAdjacent(c.up); }
  }

  /** The neighbour on side d of the i-th element, NULL past either end. */
  function Neighbour(s: seq<Ptr>, i: nat, d: Side): Ptr
    requires i < |s|
  {
    if d == 0 then (if i == 0 then NULL else s[i - 1])
    else if i == |s| - 1 then NULL else s[i + 1]
  }

  /** Where an infix walk from the node t in context c goes: into the child on side d, else outwards. */
  function StepFrom(c: Ctx, t: Tree, d: Side): Ptr
    requires t.Node?
  {
    if Kid(t, d).Node? then Extreme(Kid(t, d), 1 - d) else Beside(c, d)
  }

  /** The in-order index of the node that fills the hole. */
  lemma {:induction false} PositionOf(c: Ctx, t: Tree)
    requires t.Node? && Unique(Plug(c, t))
    ensures t.ptr in InOrder(Plug(c, t))
    ensures IndexOf(InOrder(Plug(c, t)), t.ptr) == |Before(c)| + |InOrder(t.left)|
  {
    PlugInOrder(c, t);
    UniqueIsDistinct(Plug(c, t));
    IndexUnique(InOrder(Plug(c, t)), t.ptr, |Before(c)| + |InOrder(t.left)|);
  }

  /** The in-order index at which a node hung on side d of p appears. */
  ghost function SlotPos(s: seq<Ptr>, p: Ptr, d: Side): nat
    requires p == NULL || p in s
  {
    if p == NULL then 0 else IndexOf(s, p) + d
  }

  /** How many elements lie before the hole after going down to side d. */
  lemma {:induction false} BeforeDown(c: Ctx, t: Tree, d: Side)
    requires t.Node?
    ensures |Before(Frame(t.ptr, t.bal, d, Kid(t, 1 - d), c))| ==
            if d == 0 then |Before(c)| else |Before(c)| + |InOrder(t.left)| + 1
    ensures |InOrder(t)| == |InOrder(t.left)| + 1 + |InOrder(t.right)|
  {
  }

  /** An empty hole sits between the elements before it and the elements after it. */
  lemma {:induction false} HolePosition(c: Ctx)
    requires Unique(Plug(c, Nil))
    ensures InOrder(Plug(c, Nil)) == Before(c) + After(c)
    ensures CPtr(c) == NULL || CPtr(c) in InOrder(Plug(c, Nil))
    ensures CPtr(c) != NULL || c.Top? ==> SlotPos(InOrder(Plug(c, Nil)), CPtr(c), CSide(c)) == |Before(c)|
  {
    hide IndexOf, Unique;
    PlugInOrder(c, Nil);
    if c.Frame? {
      PositionOf(c.up, Join(c.ptr, c.bal, c.side, Nil, c.sib));
    }
  }

  /** What lies on either side of one element of a concatenation. */
  lemma {:induction false} NeighbourInParts(a: seq<Ptr>, l: seq<Ptr>, p: Ptr, r: seq<Ptr>, b: seq<Ptr>)
    ensures var s := a + (l + [p] + r) + b;
      && Neighbour(s, |a| + |l|, 0) == (if l != [] then l[|l| - 1] else if a == [] then NULL else a[|a| - 1])
      && Neighbour(s, |a| + |l|, 1) == (if r != [] then r[0] else if b == [] then NULL else b[0])
  {
  }

  /** One infix step is the in-order neighbour. */
  lemma {:induction false} StepIsNeighbour(c: Ctx, t: Tree, d: Side)
    requires t.Node? && Unique(Plug(c, t))
    ensures t.ptr in InOrder(Plug(c, t))
    ensures StepFrom(c, t, d) == Neighbour(InOrder(Plug(c, t)), IndexOf(InOrder(Plug(c, t)), t.ptr), d)
  {
    hide IndexOf, Unique, Plug, Before, After;
    PositionOf(c, t);
    PlugInOrder(c, t);
    NeighbourInParts(Before(c), InOrder(t.left), t.ptr, InOrder(t.right), After(c));
    BesideIsAdjacent(c);
    if d == 0 {
      ExtremeIsEnd(t.left, 1);
    } else {
      ExtremeIsEnd(t.right, 0);
    }
  }

  // ------------------------------------------------------------ renaming

  /** `moved` takes over the place of `gone`, and `spare` the old place of `moved`. */
  function Renamed(p: Ptr, gone: Ptr, moved: Ptr, spare: Ptr): Ptr {
    if p == gone then moved else if p == moved then spare else p
  }

  function RenameTree(t: Tree, gone: Ptr, moved: Ptr, spare: Ptr): Tree {
    if t.Nil? then Nil
    else Node(Renamed(t.ptr, gone, moved, spare), t.bal,
              RenameTree(t.left, gone, moved, spare), RenameTree(t.right, gone, moved, spare))
  }

  function RenameSeq(s: seq<Ptr>, gone: Ptr, moved: Ptr, spare: Ptr): seq<Ptr> {
    seq(|s|, i requires 0 <= i < |s| => Renamed(s[i], gone, moved, spare))
  }

  /** Renaming keeps the shape, the balances and the in-order positions. */
  lemma {:induction false} RenameShape(t: Tree, gone: Ptr, moved: Ptr, spare: Ptr)
    ensures var u := RenameTree(t, gone, moved, spare);
      && Height(u) == Height(t) && Size(u) == Size(t)
      && (Balanced(t) <==> Balanced(u))
      && InOrder(u) == RenameSeq(InOrder(t), gone, moved, spare)
  {
    if t.Node? {
      RenameShape(t.left, gone, moved, spare);
      RenameShape(t.right, gone, moved, spare);
    }
  }

  /** A renaming to an unused address keeps the nodes distinct. */
  lemma {:induction false} RenameUnique(t: Tree, gone: Ptr, moved: Ptr, spare: Ptr)
    requires Unique(t) && gone != moved && spare !in Ptrs(t)
    ensures Unique(RenameTree(t, gone, moved, spare))
  {
    var s, u := InOrder(t), RenameTree(t, gone, moved, spare);
    RenameShape(t, gone, moved, spare);
    InOrderElements(t);
    UniqueIsDistinct(t);
    UniqueIsDistinct(u);
    forall i | 0 <= i < |s| ensures s[i] != spare { assert s[i] in s; }
  }

  function Without(s: seq<Ptr>, i: nat): seq<Ptr>
    requires i < |s|
  {
    s[..i] + s[i + 1..]
  }

  /** Swapping an element with its neighbour and dropping the swapped one drops the element itself. */
  lemma {:induction false} RenameWithout(s: seq<Ptr>, gone: Ptr, left: Side, spare: Ptr)
    requires Distinct(s) && gone in s && spare !in s
    requires Neighbour(s, IndexOf(s, gone), left) != NULL
    ensures var moved := Neighbour(s, IndexOf(s, gone), left);
      var u := RenameSeq(s, gone, moved, spare);
      spare in u && Without(u, IndexOf(u, spare)) == Without(s, IndexOf(s, gone))
  {
    var i := IndexOf(s, gone);
    var j := if left == 0 then i - 1 else i + 1;
    var moved := s[j];
    var u := RenameSeq(s, gone, moved, spare);
    assert u[j] == spare && u[i] == moved;
    forall k | 0 <= k < |s| && k != j ensures u[k] != spare { assert s[k] in s; }
    assert IndexOf(u, spare) == j by {
      assert u[IndexOf(u, spare)] == spare;
    }
    SwapDrop(s, u, i, j);
  }

  lemma {:induction false} SwapDrop(s: seq<Ptr>, u: seq<Ptr>, i: nat, j: nat)
    requires i < |s| && j < |s| && (j == i + 1 || i == j + 1) && |u| == |s| && u[i] == s[j]
    requires forall k :: 0 <= k < |s| && k != i && k != j ==> u[k] == s[k]
    ensures Without(u, j) == Without(s, i)
  {
  }

  lemma {:induction false} WithoutMembers(s: seq<Ptr>, i: nat)
    requires Distinct(s) && i < |s|
    ensures forall q :: q in Without(s, i) <==> q in s && q != s[i]
  {
    forall q ensures q in Without(s, i) <==> q in s && q != s[i] {
      if q in s && q != s[i] {
        var j :| 0 <= j < |s| && s[j] == q;
        assert q == Without(s, i)[if j < i then j else j - 1];
      }
    }
  }

  lemma {:induction false} WithoutMiddle(a: seq<Ptr>, l: seq<Ptr>, p: Ptr, r: seq<Ptr>, b: seq<Ptr>)
    ensures Without(a + (l + [p] + r) + b, |a| + |l|) == a + (l + r) + b
  {
  }

  /** Taking out a node with at most one child takes its element out of the in-order sequence. */
  lemma {:induction false} SpliceOrder(c: Ctx, t: Tree)
    requires t.Node? && (t.left.Nil? || t.right.Nil?) && Unique(Plug(c, t))
    ensures var x := if t.left.Node? then t.left else t.right;
      && t.ptr in InOrder(Plug(c, t))
      && Before(c) + InOrder(x) + After(c) == Without(InOrder(Plug(c, t)), IndexOf(InOrder(Plug(c, t)), t.ptr))
  {
    hide IndexOf, Unique, Plug, Before, After, Without;
    var l, r := InOrder(t.left), InOrder(t.right);
    PositionOf(c, t);
    PlugInOrder(c, t);
    WithoutMiddle(Before(c), l, t.ptr, r, After(c));
    assert l + r == InOrder(if t.left.Node? then t.left else t.right);
  }
}
