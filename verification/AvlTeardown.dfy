/**
  The order in which avl_destroy_nodes hands out the nodes, and what is left to
  hand out after each call.
*/
module AvlTeardown {
  import opened AvlShape
  import opened AvlLinks

  /** The nodes still to come once the subtree at the hole of c has been handed out. */
  function Rest(c: Ctx): seq<Ptr> {
    if c.Top? then []
    else (if c.side == 0 then PostOrder(c.sib) else []) + [c.ptr] + Rest(c.up)
  }

  /** Left siblings are gone; right siblings that are still to come are intact AVL trees. */
  ghost predicate Pending(c: Ctx) {
    c.Frame? ==> Pending(c.up) && (if c.side == 0 then Balanced(c.sib) else c.sib.Nil?)
  }

  /** One level down to the left nothing is skipped. */
  lemma {:induction false} DownLeft(c: Ctx, t: Tree)
    requires t.Node? && Balanced(t) && Pending(c)
    ensures var cc := Frame(t.ptr, t.bal, 0, t.right, c);
      && Balanced(t.left) && Pending(cc)
      && PostOrder(t.left) + Rest(cc) == PostOrder(t) + Rest(c)
      && CSize(cc) + Size(t.left) == CSize(c) + Size(t)
  {
  }

  /** A balanced tree without a left child has at most one more node. */
  lemma {:induction false} NoLeftChild(t: Tree)
    requires t.Node? && Balanced(t) && t.left.Nil?
    ensures t.right.Node? ==> t.bal == 1 && t.right.left.Nil? && t.right.right.Nil?
    ensures t.right.Nil? ==> t.bal == 0
  {
  }

  /** The leftmost position below t. */
  ghost function Leftmost(c: Ctx, t: Tree): (r: (Ctx, Tree))
    requires t.Node?
    ensures r.1.Node? && r.1.left.Nil? && Plug(r.0, r.1) == Plug(c, t)
    decreases t
  {
    if t.left.Nil? then (c, t) else Leftmost(Frame(t.ptr, t.bal, 0, t.right, c), t.left)
  }

  lemma {:induction false} LeftmostFacts(c: Ctx, t: Tree)
    requires t.Node? && Balanced(t) && Pending(c)
    ensures var (cc, u) := Leftmost(c, t);
      && u.ptr == Extreme(t, 0) && Balanced(u) && Pending(cc)
      && PostOrder(u) + Rest(cc) == PostOrder(t) + Rest(c)
    decreases t
  {
    if t.left.Node? {
      DownLeft(c, t);
      LeftmostFacts(Frame(t.ptr, t.bal, 0, t.right, c), t.left);
    }
  }

  // ---------------------------------------------------------- the order

  lemma {:induction false} PostOrderElements(t: Tree)
    ensures multiset(PostOrder(t)) == multiset(InOrder(t))
    ensures |PostOrder(t)| == Size(t)
  {
    if t.Node? {
      PostOrderElements(t.left);
      PostOrderElements(t.right);
      assert multiset(PostOrder(t)) == multiset(PostOrder(t.left)) + multiset(PostOrder(t.right)) + multiset{t.ptr};
      assert multiset(InOrder(t)) == multiset(InOrder(t.left)) + multiset{t.ptr} + multiset(InOrder(t.right));
    }
  }

  lemma {:induction false} SameElements(s: seq<Ptr>, u: seq<Ptr>)
    requires multiset(s) == multiset(u)
    ensures forall p :: p in s <==> p in u
  {
    forall p ensures p in s <==> p in u {
      assert p in s <==> p in multiset(s);
      assert p in u <==> p in multiset(u);
    }
  }

  lemma {:induction false} DistinctCount(s: seq<Ptr>)
    ensures Distinct(s) <==> forall p :: multiset(s)[p] <= 1
  {
    if s != [] {
      var n := |s| - 1;
      DistinctCount(s[..n]);
      assert s == s[..n] + [s[n]];
      assert Distinct(s) <==> Distinct(s[..n]) && s[n] !in s[..n];
      assert multiset(s) == multiset(s[..n]) + multiset{s[n]};
      if Distinct(s) {
        assert forall p :: multiset(s)[p] == multiset(s[..n])[p] + (if p == s[n] then 1 else 0);
        assert multiset(s[..n])[s[n]] == 0;
      }
      if forall p :: multiset(s)[p] <= 1 {
        assert multiset(s)[s[n]] == multiset(s[..n])[s[n]] + 1;
        assert forall p :: multiset(s[..n])[p] <= multiset(s)[p];
      }
    }
  }

  /** Every node is handed out exactly once. */
  lemma {:induction false} PostOrderOnce(t: Tree)
    requires Unique(t)
    ensures Distinct(PostOrder(t)) && forall p :: p in PostOrder(t) <==> p in Ptrs(t)
  {
    PostOrderElements(t);
    UniqueIsDistinct(t);
    DistinctCount(InOrder(t));
    DistinctCount(PostOrder(t));
    SameElements(PostOrder(t), InOrder(t));
    InOrderElements(t);
  }

  function Visited(c: Ctx): seq<Ptr> {
    if c.Top? then [] else Visited(c.up) + (if c.side == 1 then PostOrder(c.sib) else [])
  }

  lemma {:induction false} PlugPostOrder(c: Ctx, t: Tree)
    ensures PostOrder(Plug(c, t)) == Visited(c) + PostOrder(t) + Rest(c)
    decreases c
  {
    if c.Frame? { PlugPostOrder(c.up, Join(c.ptr, c.bal, c.side, t, c.sib)); }
  }

  /** Every node is handed out after both of its children. */
  lemma {:induction false} ChildrenFirst(c: Ctx, t: Tree, d: Side)
    requires t.Node? && Kid(t, d).Node? && Unique(Plug(c, t))
    ensures var s := PostOrder(Plug(c, t));
      && t.ptr in s && Kid(t, d).ptr in s
      && IndexOf(s, Kid(t, d).ptr) < IndexOf(s, t.ptr)
  {
    hide Plug, IndexOf, Unique, Rest;
    var s, u := PostOrder(Plug(c, t)), Kid(t, d);
    var cc := Frame(t.ptr, t.bal, d, Kid(t, 1 - d), c);
    PlugDown(c, t, d);
    PlugPostOrder(c, t);
    PlugPostOrder(cc, u);
    PostOrderOnce(Plug(c, t));
    var i, j := |Visited(cc)| + |PostOrder(u)| - 1, |Visited(c)| + |PostOrder(t)| - 1;
    assert s[i] == u.ptr && s[j] == t.ptr && i < j;
    IndexUnique(s, u.ptr, i);
    IndexUnique(s, t.ptr, j);
  }

  // ---------------------------------------------------------------- cost

  /** The nodes that the teardown has not come to yet. */
  function Unseen(c: Ctx): nat {
    if c.Top? then 0 else (if c.side == 0 then Size(c.sib) else 0) + Unseen(c.up)
  }

  lemma {:induction false} UnseenUp(c: Ctx)
    requires c.Frame?
    ensures Unseen(c) == Unseen(c.up) + if c.side == 0 then Size(c.sib) else 0
    ensures Unseen(Frame(c.ptr, c.bal, 1, Nil, c.up)) == Unseen(c.up)
  {
  }

  lemma {:induction false} UnseenDown(c: Ctx, t: Tree)
    requires t.Node?
    ensures 1 + Unseen(Frame(t.ptr, t.bal, 0, t.right, c)) + Size(t.left) == Unseen(c) + Size(t)
  {
  }

  lemma {:induction false} UnseenBelow(c: Ctx, t: Tree)
    requires t.Node?
    ensures Size(t) >= if t.right.Node? then 2 else 1
    ensures Unseen(Frame(t.ptr, t.bal, 1, Nil, c)) == Unseen(c)
  {
  }

  lemma {:induction false} LeftmostUnseen(c: Ctx, t: Tree)
    requires t.Node?
    ensures var (cc, u) := Leftmost(c, t); Unseen(cc) + Size(u) <= Unseen(c) + Size(t)
    decreases t
  {
    if t.left.Node? {
      UnseenDown(c, t);
      LeftmostUnseen(Frame(t.ptr, t.bal, 0, t.right, c), t.left);
    }
  }

  lemma {:induction false} HeightSize(t: Tree)
    ensures Height(t) <= Size(t)
  {
    if t.Node? {
      HeightSize(t.left);
      HeightSize(t.right);
    }
  }

  // ------------------------------------------------------------- in memory

  /** Unlinking the child at the hole and turning to the right sibling, which is intact. */
  lemma {:induction false} TurnRight(m: Mem, root: Ptr, c: Ctx, last: Ptr)
    requires c.Frame? && c.side == 0 && c.sib.Node? && CRep(m, c, last) && CUnique(c) && Pending(c)
    requires root == RootOf(c, last)
    ensures c.ptr in m
    ensures var n, cc := SetChild(m, c.ptr, 0, NULL), Frame(c.ptr, c.bal, 1, Nil, c.up);
      && Focus(n, root, cc, c.sib) && Balanced(c.sib) && Pending(cc)
      && PostOrder(c.sib) + Rest(cc) == Rest(c)
      && CSize(cc) + Size(c.sib) == CSize(c)
  {
    hide Balanced;
    var n := SetChild(m, c.ptr, 0, NULL);
    RepFrame(m, n, c.sib, c.ptr, 1);
    CRepFrame(m, n, c.up, c.ptr);
    var cc := Frame(c.ptr, c.bal, 1, Nil, c.up);
    assert CPtrs(cc) == {c.ptr} + CPtrs(c.up);
    assert Rest(c) == PostOrder(c.sib) + Rest(cc);
  }

  /** Unlinking the child at the hole leaves nothing below the parent: it is next. */
  lemma {:induction false} TurnUp(m: Mem, root: Ptr, c: Ctx, last: Ptr)
    requires c.Frame? && CRep(m, c, last) && CUnique(c) && Pending(c) && (c.side == 1 || c.sib.Nil?)
    requires root == RootOf(c, last)
    ensures c.ptr in m
    ensures var n := SetChild(m, c.ptr, c.side, NULL);
      && CRep(n, c.up, c.ptr) && CUnique(c.up) && c.ptr !in CPtrs(c.up) && Pending(c.up)
      && root == RootOf(c.up, c.ptr) && c.ptr != NULL
    ensures Rest(c) == [c.ptr] + Rest(c.up) && CSize(c) == CSize(c.up) + 1
    ensures c.up.Top? ==> CSize(c) == 1
    ensures c.up.Frame? ==> c.up.ptr != NULL
  {
    hide Balanced, Ptrs;
    CRepFrame(m, SetChild(m, c.ptr, c.side, NULL), c.up, c.ptr);
  }

  /** A position without a left child: its cell, and that it is next itself when it has no right child either. */
  lemma {:induction false} HandOutNode(m: Mem, root: Ptr, c: Ctx, t: Tree)
    requires Focus(m, root, c, t) && t.Node? && t.left.Nil?
    ensures t.ptr in m && m[t.ptr].left == NULL && m[t.ptr].right == Root(t.right)
    ensures m[t.ptr].parent == CPtr(c) && m[t.ptr].which == CSide(c) && t.ptr != NULL
    ensures t.right.Node? <==> Root(t.right) != NULL
    ensures t.right.Nil? ==>
      && CRep(m, c, t.ptr) && CUnique(c) && t.ptr !in CPtrs(c) && root == RootOf(c, t.ptr)
      && PostOrder(t) == [t.ptr] && Size(t) == 1
  {
    hide CRep, CUnique, RootOf, CPtrs;
    assert Rep(m, t.right, t.ptr, 1);
  }

  /** A position without a left child but with a right one: that child is a leaf, and it is next. */
  lemma {:induction false} HandOutChild(m: Mem, root: Ptr, c: Ctx, t: Tree)
    requires Focus(m, root, c, t) && t.Node? && t.left.Nil? && t.right.Node? && Balanced(t) && Pending(c)
    ensures var q, cc := t.right.ptr, Frame(t.ptr, t.bal, 1, Nil, c);
      && q in m && m[q].which == 1 && q != NULL
      && CRep(m, cc, q) && CUnique(cc) && q !in CPtrs(cc) && root == RootOf(cc, q) && Pending(cc)
      && PostOrder(t) + Rest(c) == [q] + Rest(cc) && CSize(cc) + 1 == CSize(c) + Size(t)
  {
    NoLeftChild(t);
    FocusDown(m, root, c, t, 1);
    LeafAt(m, root, Frame(t.ptr, t.bal, 1, Nil, c), t.right);
    LeafOnly(c, t);
  }

  lemma {:induction false} LeafAt(m: Mem, root: Ptr, c: Ctx, t: Tree)
    requires Focus(m, root, c, t) && t.Node?
    ensures t.ptr in m && m[t.ptr].which == CSide(c) && t.ptr != NULL
    ensures CRep(m, c, t.ptr) && CUnique(c) && t.ptr !in CPtrs(c) && root == RootOf(c, t.ptr)
  {
    hide CRep, CUnique, RootOf, CPtrs;
  }

  lemma {:induction false} LeafOnly(c: Ctx, t: Tree)
    requires t.Node? && t.left.Nil? && t.right.Node? && t.right.left.Nil? && t.right.right.Nil? && Pending(c)
    ensures var cc := Frame(t.ptr, t.bal, 1, Nil, c);
      && Pending(cc) && PostOrder(t) + Rest(c) == [t.right.ptr] + Rest(cc) && CSize(cc) + 1 == CSize(c) + Size(t)
  {
    assert PostOrder(t) == [t.right.ptr] + [t.ptr];
  }

  /** The node handed out last is not looked at again. */
  lemma {:induction false} FreedLast(m: Mem, c: Ctx, last: Ptr)
    requires CRep(m, c, last) && last !in CPtrs(c)
    ensures CRep(m - {last}, c, last)
  {
    CRepFrame(m, m - {last}, c, last);
  }
}
