/**
  Putting one node in the place of another.  avl_remove swaps an interior node
  with an in-order neighbour in two such steps: a stack copy takes the place of
  the neighbour, and the neighbour takes the place of the interior node.
*/
module AvlSwapLinks {
  import opened AvlShape
  import opened AvlLinks

  /** Child and parent links of the nodes in s answer each other. */
  ghost predicate Linked(m: Mem, root: Ptr, s: set<Ptr>) {
    && (forall p :: p in s ==> p in m && p != NULL)
    && (forall p, d :: p in s && Child(m[p], d) != NULL ==>
          Child(m[p], d) in s && m[Child(m[p], d)].parent == p && m[Child(m[p], d)].which == d)
    && (forall p :: p in s && m[p].parent == NULL ==> p == root)
    && (forall p :: p in s && m[p].parent != NULL ==>
          p != root && m[p].parent in s && Child(m[m[p].parent], m[p].which) == p)
  }

  /** In a tree every child link is answered by a parent link and child index, and the reverse. */
  lemma {:induction false} HoldsLinked(m: Mem, root: Ptr, t: Tree)
    requires Holds(m, root, t)
    ensures Linked(m, root, Ptrs(t))
  {
    RepPtrs(m, t, NULL, 0);
    forall p, d | p in Ptrs(t) && Child(m[p], d) != NULL
      ensures Child(m[p], d) in Ptrs(t) && m[Child(m[p], d)].parent == p && m[Child(m[p], d)].which == d
    {
      ChildLinksAgree(m, t, NULL, 0, p, d);
    }
    forall p | p in Ptrs(t)
      ensures m[p].parent == NULL ==> p == root
      ensures m[p].parent != NULL ==> p != root && m[p].parent in Ptrs(t) && Child(m[m[p].parent], m[p].which) == p
    {
      ParentLinksAgree(m, t, NULL, 0, p);
    }
  }

  /**
    The cells around the swap: `gone` has two children, `node` lies below the
    child on side `left` and has no child on the other side.  The node is either
    that child itself or further down.
  */
  predicate Swappable(m: Mem, gone: Ptr, node: Ptr, left: Side) {
    && gone in m && node in m && gone != node && gone != NULL && node != NULL
    && var g, l, r := m[gone].parent, Child(m[gone], left), Child(m[gone], 1 - left);
       var o, x := m[node].parent, Child(m[node], left);
    && l != NULL && l in m && r != NULL && r in m && o != NULL && o in m
    && (g != NULL ==> g in m) && (x != NULL ==> x in m)
    && Child(m[node], 1 - left) == NULL
    && (o == gone <==> l == node) && (o == gone ==> m[node].which == left)
    && g !in {gone, node, l, r, o} && r !in {gone, node, l, o} && l != gone
    && x !in {gone, node, l, r, o} && o != node
    && (g != NULL ==> g != x)
    && SPARE !in {gone, node, g, l, r, o, x}
  }

  /** The cells after the swap. */
  ghost predicate Swapped(m: Mem, n: Mem, gone: Ptr, node: Ptr, left: Side)
    requires Swappable(m, gone, node, left)
  {
    var g, l, r := m[gone].parent, Child(m[gone], left), Child(m[gone], 1 - left);
    var o, x := m[node].parent, Child(m[node], left);
    && node in n && n[node] == CellOn(left, if l == node then SPARE else l, r, g, m[gone].which, m[gone].bal)
    && SPARE in n && n[SPARE] == CellOn(left, x, NULL, if o == gone then node else o, m[node].which, m[node].bal)
    && (g != NULL ==> g in n && n[g] == SetChild(m, g, m[gone].which, node)[g])
    && r in n && n[r] == SetParent(m, r, node)[r]
    && (x != NULL ==> x in n && n[x] == SetParent(m, x, SPARE)[x])
    && (l != node && l != o ==> l in n && n[l] == SetParent(m, l, node)[l])
    && (o != gone && l != o ==> o in n && n[o] == SetChild(m, o, m[node].which, SPARE)[o])
    && (l == o ==> o in n && n[o] == SetParent(SetChild(m, o, m[node].which, SPARE), o, node)[o])
    && Same(m, n, {gone, node, SPARE, g, l, r, o, x})
  }

  /** First stage: the stack cell copies `node`, and `node` copies `gone`. */
  ghost predicate CellsCopied(m: Mem, n: Mem, gone: Ptr, node: Ptr, left: Side)
    requires gone in m && node in m
  {
    && SPARE in n && n[SPARE] == m[node]
    && node in n && n[node] == (if Child(m[gone], left) == node then SetChild(m, gone, left, SPARE)[gone] else m[gone])
    && Same(m, n, {SPARE, node})
  }

  /** Second stage: the cells around the new place of `node` link to it. */
  ghost predicate NodeLinked(m: Mem, n: Mem, node: Ptr, g: Ptr, which: Side, l: Ptr, r: Ptr)
    requires (g != NULL ==> g in m) && l in m && r in m
  {
    && (g != NULL ==> g in n && n[g] == SetChild(m, g, which, node)[g])
    && l in n && n[l] == SetParent(m, l, node)[l]
    && r in n && n[r] == SetParent(m, r, node)[r]
    && Same(m, n, {g, l, r})
  }

  /** Third stage: the cells around the stack copy link to it. */
  ghost predicate SpareLinked(m: Mem, n: Mem, o: Ptr, which: Side, x: Ptr)
    requires o in m && (x != NULL ==> x in m)
  {
    && o in n && n[o] == SetChild(m, o, which, SPARE)[o]
    && (x != NULL ==> x in n && n[x] == SetParent(m, x, SPARE)[x])
    && Same(m, n, {o, x})
  }

  lemma {:induction false} StagesSwap(m: Mem, m1: Mem, m2: Mem, n: Mem, gone: Ptr, node: Ptr, left: Side)
    requires Swappable(m, gone, node, left) && CellsCopied(m, m1, gone, node, left)
    requires var g, l, r := m[gone].parent, Child(m1[node], left), Child(m[gone], 1 - left);
      (g != NULL ==> g in m1) && l in m1 && r in m1 && NodeLinked(m1, m2, node, g, m[gone].which, l, r)
    requires SPARE in m2 &&
      var o, x := m2[SPARE].parent, Child(m[node], left);
      o in m2 && (x != NULL ==> x in m2) && SpareLinked(m2, n, o, m[node].which, x)
    ensures Swapped(m, n, gone, node, left)
  {
  }

  /** How the links of p mention q. */
  ghost predicate LinkFact(m: Mem, p: Ptr, q: Ptr)
    requires p in m && q in m
  {
    && (m[p].left == q ==> m[q].parent == p && m[q].which == 0)
    && (m[p].right == q ==> m[q].parent == p && m[q].which == 1)
    && (m[p].parent == q ==> Child(m[q], m[p].which) == p)
  }

  lemma {:induction false} LinkedFact(m: Mem, root: Ptr, s: set<Ptr>, p: Ptr, q: Ptr)
    requires Linked(m, root, s) && p in s && q in s
    ensures LinkFact(m, p, q)
  {
    assert m[p].left == Child(m[p], 0) && m[p].right == Child(m[p], 1);
  }

  lemma {:induction false} SwappedGone(m: Mem, n: Mem, gone: Ptr, node: Ptr, left: Side)
    requires Swappable(m, gone, node, left) && Swapped(m, n, gone, node, left)
    ensures node in n && n[node] == RenameCell(m[gone], gone, node, SPARE)
    ensures SPARE in n && n[SPARE] == RenameCell(m[node], gone, node, SPARE)
  {
  }

  lemma {:induction false} SwappedOther(m: Mem, n: Mem, gone: Ptr, node: Ptr, left: Side, p: Ptr)
    requires Swappable(m, gone, node, left) && Swapped(m, n, gone, node, left)
    requires p in m && p !in {gone, node, SPARE, NULL}
    requires LinkFact(m, p, gone) && LinkFact(m, p, node) && LinkFact(m, gone, p) && LinkFact(m, node, p)
    ensures p in n && n[p] == RenameCell(m[p], gone, node, SPARE)
  {
  }

  /** The swap in memory is the renaming of the shape. */
  lemma {:induction false} SwapHolds(m: Mem, n: Mem, root: Ptr, t: Tree, gone: Ptr, node: Ptr, left: Side)
    requires Holds(m, root, t) && gone in Ptrs(t) && node in Ptrs(t) && SPARE !in Ptrs(t)
    requires Swappable(m, gone, node, left) && Swapped(m, n, gone, node, left)
    ensures Holds(n, Renamed(root, gone, node, SPARE), RenameTree(t, gone, node, SPARE))
  {
    HoldsLinked(m, root, t);
    SwappedGone(m, n, gone, node, left);
    forall p | p in Ptrs(t)
      ensures var q := Renamed(p, gone, node, SPARE); q in n && n[q] == RenameCell(m[p], gone, node, SPARE)
    {
      if p != gone && p != node {
        LinkedFact(m, root, Ptrs(t), p, gone);
        LinkedFact(m, root, Ptrs(t), p, node);
        LinkedFact(m, root, Ptrs(t), gone, p);
        LinkedFact(m, root, Ptrs(t), node, p);
        SwappedOther(m, n, gone, node, left, p);
      }
    }
    RepRename(m, n, t, NULL, 0, gone, node, SPARE);
    RenameUnique(t, gone, node, SPARE);
  }

  /** The position of the neighbour while avl_remove goes down: at the child itself, or below it. */
  ghost predicate Inside(c: Ctx, t: Tree, base: Ctx, top: Tree) {
    && t.Node? && Ptrs(t) <= Ptrs(top)
    && ((c == base && t == top) || (c.Frame? && c.ptr in Ptrs(top) && Root(top) !in Ptrs(t)))
  }

  /** Going down keeps the position inside. */
  lemma {:induction false} InsideDown(m: Mem, root: Ptr, c: Ctx, t: Tree, base: Ctx, top: Tree, d: Side)
    requires Inside(c, t, base, top) && Focus(m, root, c, t) && Kid(t, d).Node?
    ensures Inside(Frame(t.ptr, t.bal, d, Kid(t, 1 - d), c), Kid(t, d), base, top)
  {
  }

  /** The end of the way down is swappable with the node it started from. */
  lemma {:induction false} InsideSwappable(m: Mem, root: Ptr, u: Ctx, v: Tree, left: Side, c: Ctx, t: Tree)
    requires Focus(m, root, u, v) && v.Node? && Kid(v, left).Node? && Kid(v, 1 - left).Node?
    requires Inside(c, t, Frame(v.ptr, v.bal, left, Kid(v, 1 - left), u), Kid(v, left))
    requires Focus(m, root, c, t) && Kid(t, 1 - left).Nil?
    requires SPARE !in CPtrs(u) + Ptrs(v)
    ensures Swappable(m, v.ptr, t.ptr, left)
  {
    JoinKids(v, left);
    JoinKids(t, left);
    RepJoin(m, v.ptr, v.bal, left, Kid(v, left), Kid(v, 1 - left), CPtr(u), CSide(u));
    RepJoin(m, t.ptr, t.bal, left, Kid(t, left), Kid(t, 1 - left), CPtr(c), CSide(c));
    JoinPtrs(v.ptr, v.bal, left, Kid(v, left), Kid(v, 1 - left));
    JoinPtrs(t.ptr, t.bal, left, Kid(t, left), Kid(t, 1 - left));
    CRepPtrs(m, u, v.ptr);
    CRepPtrs(m, c, t.ptr);
    RepPtrs(m, v, CPtr(u), CSide(u));
    RepPtrs(m, t, CPtr(c), CSide(c));
  }
}
