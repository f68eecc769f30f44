/**
  The AVL tree object: the operations of fb_avl.c on linked nodes.  The field
  `tree` is the shape that the links spell out; the code never reads it.
*/
module Avl {
  import opened AvlShape
  import opened AvlLinks
  import opened AvlRotation
  import opened AvlRotationLinks
  import opened AvlSwapLinks
  import opened AvlTeardown
  import opened AvlClimb
  import opened AvlCost
  import Arith

  /** The keys along the sequence strictly increase. */
  ghost predicate Sorted(key: map<Ptr, int>, s: seq<Ptr>) {
    && (forall i :: 0 <= i < |s| ==> s[i] in key)
    && (forall i, j :: 0 <= i < j < |s| ==> key[s[i]] < key[s[j]])
  }

  ghost predicate AllBelow(key: map<Ptr, int>, s: seq<Ptr>, k: int) {
    forall p :: p in s && p in key ==> key[p] < k
  }

  ghost predicate AllAbove(key: map<Ptr, int>, s: seq<Ptr>, k: int) {
    forall p :: p in s && p in key ==> k < key[p]
  }

  /** fileset_entry_compare, the comparison the trees are created with. */
  function Compare(a: int, b: int): int {
    if a < b then -1 else if a == b then 0 else 1
  }

  lemma {:induction false} SortedAround(key: map<Ptr, int>, a: seq<Ptr>, p: Ptr, b: seq<Ptr>)
    requires Sorted(key, a + [p] + b)
    ensures p in key && AllBelow(key, a, key[p]) && AllAbove(key, b, key[p])
  {
    var s := a + [p] + b;
    assert s[|a|] == p;
    forall i | 0 <= i < |a| ensures a[i] in key && key[a[i]] < key[p] {
      assert s[i] == a[i];
    }
    forall i | 0 <= i < |b| ensures b[i] in key && key[p] < key[b[i]] {
      assert s[|a| + 1 + i] == b[i];
    }
  }

  /** Around a node of a sorted tree, smaller keys are on its left and larger keys on its right. */
  lemma {:induction false} SortedFocus(key: map<Ptr, int>, c: Ctx, t: Tree)
    requires Sorted(key, InOrder(Plug(c, t))) && t.Node?
    ensures t.ptr in key && t.ptr in InOrder(Plug(c, t))
    ensures AllBelow(key, Before(c) + InOrder(t.left), key[t.ptr])
    ensures AllAbove(key, InOrder(t.right) + After(c), key[t.ptr])
  {
    hide Plug, Before, After, Sorted, AllBelow, AllAbove;
    PlugInOrder(c, t);
    assert InOrder(Plug(c, t)) == (Before(c) + InOrder(t.left)) + [t.ptr] + (InOrder(t.right) + After(c));
    SortedAround(key, Before(c) + InOrder(t.left), t.ptr, InOrder(t.right) + After(c));
  }

  /** A comparison that sends the search to side d keeps the key between the two sides. */
  lemma {:induction false} SearchStep(key: map<Ptr, int>, c: Ctx, t: Tree, k: int, d: Side)
    requires Sorted(key, InOrder(Plug(c, t))) && t.Node? && t.ptr in key
    requires AllBelow(key, Before(c), k) && AllAbove(key, After(c), k)
    requires if d == 0 then k < key[t.ptr] else key[t.ptr] < k
    ensures var cc := Frame(t.ptr, t.bal, d, Kid(t, 1 - d), c);
            AllBelow(key, Before(cc), k) && AllAbove(key, After(cc), k)
  {
    SortedFocus(key, c, t);
    var cc := Frame(t.ptr, t.bal, d, Kid(t, 1 - d), c);
    if d == 0 {
      assert After(cc) == [t.ptr] + (InOrder(t.right) + After(c));
    } else {
      assert Before(cc) == (Before(c) + InOrder(t.left)) + [t.ptr];
    }
  }

  /** Putting a new node between the smaller and the larger keys keeps the sequence sorted. */
  lemma {:induction false} SortedInsert(key: map<Ptr, int>, s: seq<Ptr>, i: nat, n: Ptr, k: int)
    requires Sorted(key, s) && i <= |s| && n !in s
    requires AllBelow(key, s[..i], k) && AllAbove(key, s[i..], k)
    ensures Sorted(key[n := k], s[..i] + [n] + s[i..])
  {
    var a, b, u := s[..i], s[i..], s[..i] + [n] + s[i..];
    assert forall j :: 0 <= j < |u| ==> u[j] == if j < i then s[j] else if j == i then n else s[j - 1];
    forall j | 0 <= j < i ensures key[s[j]] < k { assert s[j] in a; }
    forall j | i <= j < |s| ensures k < key[s[j]] { assert s[j] == b[j - i]; assert s[j] in b; }
  }

  /** The nodes of a tree whose in-order sequence is another one with n put in. */
  lemma {:induction false} Inserted(t: Tree, u: Tree, a: seq<Ptr>, n: Ptr, b: seq<Ptr>)
    requires InOrder(t) == a + b && InOrder(u) == a + [n] + b
    ensures Ptrs(u) == Ptrs(t) + {n} && Size(u) == Size(t) + 1
    ensures InOrder(u) == InOrder(t)[..|a|] + [n] + InOrder(t)[|a|..]
  {
    InOrderElements(t);
    InOrderElements(u);
    assert forall p :: p in Ptrs(u) <==> p in InOrder(u);
    assert (a + b)[..|a|] == a && (a + b)[|a|..] == b;
  }

  /** Taking one element out keeps a sequence sorted. */
  lemma {:induction false} SortedWithout(key: map<Ptr, int>, s: seq<Ptr>, i: nat)
    requires Sorted(key, s) && i < |s|
    ensures Sorted(key, Without(s, i))
  {
    var u := Without(s, i);
    assert forall j :: 0 <= j < |u| ==> u[j] == if j < i then s[j] else s[j + 1];
  }

  /** The nodes of a tree whose in-order sequence is another one with one element taken out. */
  lemma {:induction false} Shrunk(t: Tree, u: Tree, i: nat)
    requires i < |InOrder(t)| && InOrder(u) == Without(InOrder(t), i)
    ensures Ptrs(u) <= Ptrs(t) && Size(u) + 1 == Size(t)
  {
    InOrderElements(t);
    InOrderElements(u);
    forall p | p in Ptrs(u) ensures p in Ptrs(t) {
      assert p in InOrder(u);
    }
  }

  /** The heights and the order around a node that is about to leave. */
  lemma {:induction false} LeavingShape(c: Ctx, t: Tree)
    requires Balanced(Plug(c, t)) && Unique(Plug(c, t)) && t.Node? && (t.left.Nil? || t.right.Nil?)
    ensures var x := if t.left.Node? then t.left else t.right;
      && Balanced(x) && CBalanced(c, Height(x) + 1)
      && t.ptr in InOrder(Plug(c, t))
      && Before(c) + InOrder(x) + After(c) == Without(InOrder(Plug(c, t)), IndexOf(InOrder(Plug(c, t)), t.ptr))
  {
    PlugBalanced(c, t);
    SpliceOrder(c, t);
    assert Height(t) == 1 + Height(if t.left.Node? then t.left else t.right);
  }

  /** The position of a node that is about to leave with at most one child. */
  lemma {:induction false} LeavingNode(m: Mem, root: Ptr, t0: Tree, gone: Ptr) returns (c: Ctx, t: Tree)
    requires Holds(m, root, t0) && gone in InOrder(t0) && gone in m
    requires Child(m[gone], 0) == NULL || Child(m[gone], 1) == NULL
    ensures Focus(m, root, c, t) && t.Node? && t.ptr == gone && t0 == Plug(c, t) && Unique(t0)
    ensures t.left.Nil? || t.right.Nil?
    ensures Child(m[gone], 0) == Root(t.left) && Child(m[gone], 1) == Root(t.right)
    ensures t.left.Nil? <==> Root(t.left) == NULL
    ensures m[gone].parent == CPtr(c) && m[gone].which == CSide(c)
    ensures var x := if t.left.Node? then t.left else t.right; x.Node? ==> x.ptr in m && x.ptr != NULL
  {
    InOrderElements(t0);
    c, t := Locate(t0, gone).0, Locate(t0, gone).1;
    FocusIsHolds(m, root, c, t);
    ChildLink(m, t, CPtr(c), CSide(c), 0);
    ChildLink(m, t, CPtr(c), CSide(c), 1);
    assert Rep(m, t.left, t.ptr, 0) && Rep(m, t.right, t.ptr, 1);
  }

  /** The cookies of avl_destroy_nodes for the first call and for a finished tree. */
  const START: Index := Index(NULL, 0)
  const DONE: Index := Index(NULL, 1)

  class AvlTree {
    var mem: Mem
    var root: Ptr
    var numnodes: nat
    var key: map<Ptr, int>
    ghost var tree: Tree
    ghost var ctx: Ctx    // while the tree is being dismantled: what surrounds
    ghost var last: Ptr   // the node that was handed out last

    ghost predicate Valid()
      reads this
    {
      && Holds(mem, root, tree) && Balanced(tree) && numnodes == Size(tree)
      && forall p :: p in Ptrs(tree) ==> NodeAddr(p) && p in key
    }

    ghost function Order(): seq<Ptr>
      reads this
    {
      InOrder(tree)
    }

    ghost predicate Ordered()
      reads this
    {
      Sorted(key, Order())
    }

    lemma {:induction false} OrderDistinct()
      requires Valid()
      ensures Distinct(Order())
      ensures forall p :: p in Order() ==> NodeAddr(p) && p in key
    {
      UniqueIsDistinct(tree);
      InOrderElements(tree);
    }

    lemma {:induction false} OrderMembers()
      ensures forall p :: p in Order() <==> p in Ptrs(tree)
    {
      InOrderElements(tree);
    }

    constructor ()
      ensures Valid() && Ordered() && Order() == []
    {
      mem, root, numnodes, key := map[], NULL, 0, map[];
      tree, ctx, last := Nil, Top, NULL;
    }

    /** avl_walk: one infix step from n towards `left`; `steps` counts the links followed. */
    method Walk(n: Ptr, left: Side) returns (r: Ptr, steps: nat)
      requires Valid() && (n == NULL || n in Ptrs(tree))
      ensures n == NULL ==> r == NULL
      ensures n != NULL ==> n in Order() && r == Neighbour(Order(), IndexOf(Order(), n), left)
      ensures Fib(steps + 2) <= numnodes + 1 && Arith.Pow2(steps / 2) <= numnodes + 1
    {
      SearchCost(tree, 0);
      if n == NULL { return NULL, 0; }
      var node, right := n, 1 - left;
      ghost var c, s := Locate(tree, n).0, Locate(tree, n).1;
      FocusIsHolds(mem, root, c, s);
      StepIsNeighbour(c, s, left);
      ChildLink(mem, s, CPtr(c), CSide(c), left);
      DepthHeight(c, s);
      if Child(mem[node], left) != NULL {
        r, steps := WalkDown(node, left, c, s);
      } else {
        r, steps := WalkUp(node, left, c, s);
      }
      SearchCost(tree, steps);
    }

    /** The walk into the child on side `left`: one link down, then as far as possible the other way. */
    method WalkDown(n: Ptr, left: Side, ghost c: Ctx, ghost s: Tree) returns (node: Ptr, steps: nat)
      requires Focus(mem, root, c, s) && s.Node? && n == s.ptr && Kid(s, left).Node?
      requires n in mem && Child(mem[n], left) == Kid(s, left).ptr
      ensures node == Extreme(Kid(s, left), 1 - left) && steps < Height(s)
    {
      var right := 1 - left;
      FocusDown(mem, root, c, s, left);
      ghost var cc, t := Frame(s.ptr, s.bal, left, Kid(s, right), c), Kid(s, left);
      node, steps := Child(mem[n], left), 1;
      while Child(mem[node], right) != NULL
        invariant Focus(mem, root, cc, t) && t.Node? && node == t.ptr
        invariant Extreme(t, right) == Extreme(Kid(s, left), right) && steps + Height(t) <= Height(s)
        decreases t
      {
        FocusDown(mem, root, cc, t, right);
        cc, t := Frame(t.ptr, t.bal, right, Kid(t, left), cc), Kid(t, right);
        node, steps := Child(mem[node], right), steps + 1;
      }
      ChildLink(mem, t, CPtr(cc), CSide(cc), right);
    }

    /** The walk outwards: up to the first ancestor on side `left`, or past the root. */
    method WalkUp(n: Ptr, left: Side, ghost c: Ctx, ghost s: Tree) returns (node: Ptr, steps: nat)
      requires Focus(mem, root, c, s) && s.Node? && n == s.ptr
      ensures node == Beside(c, left) && steps <= Depth(c) + 1
    {
      var right := 1 - left;
      node, steps := n, 0;
      ghost var cc, t := c, s;
      while true
        invariant Focus(mem, root, cc, t) && t.Node? && node == t.ptr
        invariant Beside(cc, left) == Beside(c, left) && steps + Depth(cc) <= Depth(c)
        decreases cc
      {
        var wasChild := mem[node].which;
        node, steps := mem[node].parent, steps + 1;
        if node == NULL || wasChild == right { return; }
        FocusUp(mem, root, cc, t);
        cc, t := cc.up, Join(cc.ptr, cc.bal, cc.side, t, cc.sib);
      }
    }

    /** avl_first */
    method First() returns (r: Ptr, steps: nat)
      requires Valid()
      ensures r == if Order() == [] then NULL else Order()[0]
      ensures steps <= Height(tree)
    {
      r, steps := End(0);
    }

    /** avl_last */
    method Last() returns (r: Ptr, steps: nat)
      requires Valid()
      ensures r == if Order() == [] then NULL else Order()[|Order()| - 1]
      ensures steps <= Height(tree)
    {
      r, steps := End(1);
    }

    /** The loop that avl_first and avl_last share up to the child index; `steps` counts its turns. */
    method End(d: Side) returns (prev: Ptr, steps: nat)
      requires Valid()
      ensures Order() == [] ==> prev == NULL
      ensures Order() != [] ==> prev == if d == 0 then Order()[0] else Order()[|Order()| - 1]
      ensures steps <= Height(tree)
    {
      var node := root;
      prev, steps := NULL, 0;
      ghost var c, t := Top, tree;
      while node != NULL
        invariant Focus(mem, root, c, t) && node == Root(t)
        invariant Extreme(tree, d) == if t.Node? then Extreme(t, d) else prev
        invariant steps + Height(t) <= Height(tree)
        decreases t
      {
        prev, steps := node, steps + 1;
        FocusDown(mem, root, c, t, d);
        c, t := Frame(t.ptr, t.bal, d, Kid(t, 1 - d), c), Kid(t, d);
        node := Child(mem[node], d);
      }
      ExtremeIsEnd(tree, d);
    }

    /** A place for avl_insert: a null child link, or the empty tree. */
    ghost predicate EmptySlot(where: Index)
      reads this
    {
      var p, d := where.node, where.child;
      if p == NULL then tree.Nil? && d == 0
      else p in InOrder(tree) && p in mem && Child(mem[p], d) == NULL
    }

    /** The in-order position of a slot. */
    ghost function SlotIndex(where: Index): nat
      requires EmptySlot(where)
      reads this
    {
      SlotPos(Order(), where.node, where.child)
    }

    /** The slot keeps the keys sorted when a node with key k goes there. */
    ghost predicate SlotFor(where: Index, k: int)
      requires EmptySlot(where)
      reads this
    {
      && SlotIndex(where) <= |Order()|
      && AllBelow(key, Order()[..SlotIndex(where)], k)
      && AllAbove(key, Order()[SlotIndex(where)..], k)
    }

    /** avl_find; `compares` counts the key comparisons. */
    method Find(k: int) returns (found: Ptr, where: Index, compares: nat)
      requires Valid() && Ordered()
      ensures found != NULL ==> found in Order() && key[found] == k && where == Index(NULL, 0)
      ensures found == NULL ==> forall p :: p in Order() ==> key[p] != k
      ensures found == NULL ==> EmptySlot(where) && SlotFor(where, k)
      ensures Fib(compares + 2) <= numnodes + 1 && Arith.Pow2(compares / 2) <= numnodes + 1
    {
      var node, child := root, 0;
      var prev := NULL;
      compares := 0;
      ghost var c, t := Top, tree;
      while node != NULL
        invariant Focus(mem, root, c, t) && Plug(c, t) == tree && node == Root(t)
        invariant prev == CPtr(c) && child == CSide(c)
        invariant AllBelow(key, Before(c), k) && AllAbove(key, After(c), k)
        invariant compares + Height(t) <= Height(tree)
        decreases t
      {
        prev := node;
        SortedFocus(key, c, t);
        var diff := Compare(k, key[node]);
        compares := compares + 1;
        SearchCost(tree, compares);
        if diff == 0 {
          return node, Index(NULL, 0), compares;
        }
        child := HeavySide(diff);
        SearchStep(key, c, t, k, child);
        PlugDown(c, t, child);
        FocusDown(mem, root, c, t, child);
        c, t := Frame(t.ptr, t.bal, child, Kid(t, 1 - child), c), Kid(t, child);
        node := Child(mem[node], child);
      }
      where := Index(prev, child);
      found := NULL;
      FoundHole(c, k);
      SearchCost(tree, compares);
    }

    /** The hole that a failed search ends in is the slot for the key. */
    lemma {:induction false} FoundHole(c: Ctx, k: int)
      requires Valid() && Ordered() && tree == Plug(c, Nil)
      requires AllBelow(key, Before(c), k) && AllAbove(key, After(c), k)
      ensures var where := Index(CPtr(c), CSide(c)); EmptySlot(where) && SlotFor(where, k)
      ensures forall p :: p in Order() ==> key[p] != k
    {
      FocusIsHolds(mem, root, c, Nil);
      HolePosition(c);
      assert Order()[..|Before(c)|] == Before(c) && Order()[|Before(c)|..] == After(c);
    }

    /** avl_nearest: the node next to a slot. */
    method Nearest(where: Index, direction: Side) returns (r: Ptr)
      requires Valid() && EmptySlot(where)
      ensures SlotIndex(where) <= |Order()|
      ensures r == if direction == 0
                   then (if SlotIndex(where) == 0 then NULL else Order()[SlotIndex(where) - 1])
                   else (if SlotIndex(where) == |Order()| then NULL else Order()[SlotIndex(where)])
    {
      var child, node := where.child, where.node;
      if node == NULL { return NULL; }
      InOrderElements(tree);
      if child != direction { return node; }
      var steps;
      r, steps := Walk(node, direction);
    }

    /** The first case of avl_rotation: the child is level or leans the same way as `node`. */
    method LiftChild(node: Ptr, left: Side) returns (shorter: bool)
      requires PairLinked(mem, node, left)
      modifies this`mem, this`root
      ensures ChildLifted(old(mem), mem, node, left)
      ensures root == if old(mem)[node].parent == NULL then Child(old(mem)[node], left) else old(root)
      ensures shorter <==> old(mem)[Child(old(mem)[node], left)].bal == Weight(left)
    {
      var right := 1 - left;
      var rightHeavy := -Weight(left);
      var parent, which := mem[node].parent, mem[node].which;
      var child := Child(mem[node], left);
      var childBal := mem[child].bal;
      childBal := childBal + rightHeavy;
      var cright := Child(mem[child], right);
      var m := SetChild(mem, node, left, cright);
      if cright != NULL {
        m := Hang(m, cright, node, left);
      }
      m := SetChild(m, child, right, node);
      m := HangBal(m, node, child, right, -childBal);
      m := HangBal(m, child, parent, which, childBal);
      if parent != NULL {
        m := SetChild(m, parent, which, child);
      } else {
        root := child;
      }
      mem := m;
      shorter := childBal == 0;
    }

    /** The second case of avl_rotation, first half: the inner grandchild's children change parents. */
    method SplitGrandchild(node: Ptr, child: Ptr, left: Side, gleft: Ptr, gright: Ptr)
      requires node in mem && child in mem && node != child
      requires gleft !in {node, child} && gright !in {node, child}
      requires gleft != NULL ==> gleft in mem && gleft != gright
      requires gright != NULL ==> gright in mem
      modifies this`mem
      ensures GrandchildSplit(old(mem), mem, node, child, left, gleft, gright)
    {
      var right := 1 - left;
      var m := SetChild(mem, node, left, gright);
      if gright != NULL {
        m := Hang(m, gright, node, left);
      }
      m := SetChild(m, child, right, gleft);
      if gleft != NULL {
        m := Hang(m, gleft, child, right);
      }
      mem := m;
    }

    /** The second case of avl_rotation, second half: the grandchild takes node and child as its children. */
    method CrownGrandchild(node: Ptr, child: Ptr, gchild: Ptr, left: Side, parent: Ptr, which: Side)
      requires node in mem && child in mem && gchild in mem && node != child && node != gchild && child != gchild
      requires parent !in {node, child, gchild} && (parent != NULL ==> parent in mem)
      modifies this`mem, this`root
      ensures GrandchildCrowned(old(mem), mem, node, child, gchild, left, parent, which)
      ensures root == if parent == NULL then gchild else old(root)
    {
      var right := 1 - left;
      var leftHeavy, rightHeavy := Weight(left), -Weight(left);
      var balance := mem[gchild].bal;
      var m := HangBal(mem, child, gchild, left, if balance == rightHeavy then leftHeavy else 0);
      m := HangBal(m, node, gchild, right, if balance == leftHeavy then rightHeavy else 0);
      m := m[gchild := CellOn(left, child, node, parent, which, 0)];
      if parent != NULL {
        m := SetChild(m, parent, which, gchild);
      } else {
        root := gchild;
      }
      mem := m;
    }

    /** The second case of avl_rotation: the child leans inwards, its inner child is lifted. */
    method LiftGrandchild(node: Ptr, left: Side)
      requires TripleLinked(mem, node, left)
      modifies this`mem, this`root
      ensures GrandchildLifted(old(mem), mem, node, left)
      ensures root == if old(mem)[node].parent != NULL then old(root)
                      else Child(old(mem)[Child(old(mem)[node], left)], 1 - left)
    {
      var parent, which := mem[node].parent, mem[node].which;
      var child := Child(mem[node], left);
      var gchild := Child(mem[child], 1 - left);
      SplitGrandchild(node, child, left, Child(mem[gchild], left), Child(mem[gchild], 1 - left));
      ghost var split := mem;
      CrownGrandchild(node, child, gchild, left, parent, which);
      SplitAndCrowned(old(mem), split, mem, node, left);
    }

    /** avl_rotation: `balance` is the new balance of `node`, whose stored balance is still the old one. */
    method Rotation(node: Ptr, balance: int, ghost c: Ctx, ghost t: Tree) returns (shorter: bool, ghost u: Tree)
      requires t.Node? && t.ptr == node && (balance == -2 || balance == 2)
      requires Focus(mem, root, c, t)
      requires Balanced(t.left) && Balanced(t.right) && Height(t.right) - Height(t.left) == balance
      modifies this`mem, this`root
      ensures Focus(mem, root, c, u) && Balanced(u) && InOrder(u) == InOrder(t)
      ensures Height(u) == Height(t) - (if shorter then 1 else 0)
      ensures shorter <==> Kid(t, HeavySide(balance)).Node? && Kid(t, HeavySide(balance)).bal != 0
      ensures var light := 1 - HeavySide(balance);
        && u.Node? && Kid(u, light).Node? && Kid(u, light).ptr == node && Kid(Kid(u, light), light) == Kid(t, light)
    {
      var left: Side := if balance < 0 then 0 else 1;
      var leftHeavy := balance / 2;
      var rightHeavy := -leftHeavy;
      ghost var child, far := Kid(t, left), Kid(t, 1 - left);
      ghost var q, cb, a, b := child.ptr, child.bal, Kid(child, left), Kid(child, 1 - left);
      JoinKids(t, left);
      JoinKids(child, left);
      LinkedPair(mem, root, c, node, t.bal, left, q, cb, a, b, far);
      if mem[Child(mem[node], left)].bal != rightHeavy {
        SingleBalance(node, left, q, cb, a, b, far);
        SingleOrder(node, t.bal, left, q, cb, a, b, far);
        shorter := LiftChild(node, left);
        SingleDone(old(mem), mem, old(root), root, c, node, t.bal, left, q, cb, a, b, far);
        u := Single(node, left, q, cb, a, b, far);
      } else {
        ghost var g, gb, gl, gr := b.ptr, b.bal, Kid(b, left), Kid(b, 1 - left);
        JoinKids(b, left);
        DoubleBalance(node, left, q, cb, a, g, gb, gl, gr, far);
        DoubleOrder(node, t.bal, left, q, cb, a, g, gb, gl, gr, far);
        LinkedTriple(mem, root, c, node, t.bal, left, q, cb, a, g, gb, gl, gr, far);
        LiftGrandchild(node, left);
        shorter := true;
        DoubleDone(old(mem), mem, old(root), root, c, node, t.bal, left, q, cb, a, g, gb, gl, gr, far);
        u := Double(node, left, q, a, g, gb, gl, gr, far);
      }
    }

    /** The shape is settled at a position whose surroundings are balanced for it. */
    lemma {:induction false} Settled(c: Ctx, t: Tree)
      requires Focus(mem, root, c, t) && Balanced(t) && (c.Top? || CBalanced(c, Height(t)))
      ensures Holds(mem, root, Plug(c, t)) && Balanced(Plug(c, t))
      ensures InOrder(Plug(c, t)) == Before(c) + InOrder(t) + After(c)
    {
      FocusIsHolds(mem, root, c, t);
      PlugBalanced(c, t);
      PlugInOrder(c, t);
    }

    /** AVL_SETBALANCE on the parent of the current position. */
    method StoreBalance(node: Ptr, balance: int, ghost c: Ctx, ghost t: Tree)
      requires Focus(mem, root, c, t) && c.Frame? && node == c.ptr
      modifies this`mem
      ensures Focus(mem, root, c.up, Join(node, balance, c.side, t, c.sib))
      ensures node in mem && mem[node].parent == CPtr(c.up) && mem[node].which == CSide(c.up)
    {
      FocusUp(mem, root, c, t);
      BalWritten(mem, root, c.up, node, c.bal, c.side, t, c.sib, balance);
      mem := SetBal(mem, node, balance);
      RepJoin(mem, node, balance, c.side, t, c.sib, CPtr(c.up), CSide(c.up));
    }

    /** The rotation at the parent of the current position, on the side that is too tall. */
    method RotateAbove(node: Ptr, balance: int, ghost c: Ctx, ghost t: Tree) returns (shorter: bool, ghost u: Tree)
      requires Focus(mem, root, c, t) && c.Frame? && node == c.ptr && Balanced(t) && Balanced(c.sib)
      requires (balance == -2 || balance == 2) && balance == Lean(c.side, Height(t) - Height(c.sib))
      modifies this`mem, this`root
      ensures Focus(mem, root, c.up, u) && Balanced(u)
      ensures Before(c.up) + InOrder(u) + After(c.up) == Before(c) + InOrder(t) + After(c)
      ensures Height(u) == 1 + Max(Height(t), Height(c.sib)) - (if shorter then 1 else 0)
      ensures Height(t) > Height(c.sib) ==> (shorter <==> t.Node? && t.bal != 0)
      ensures Height(t) < Height(c.sib) ==> Above(c, t, u)
    {
      ghost var whole := Join(node, c.bal, c.side, t, c.sib);
      FocusUp(mem, root, c, t);
      JoinBalance(node, c.bal, c.side, t, c.sib);
      OrderUp(c, t, c.bal);
      shorter, u := Rotation(node, balance, c.up, whole);
    }

    /** The loop of avl_insert: the subtree t0 at the hole of c0 is one level taller than before. */
    method ClimbAfterInsert(parent0: Ptr, which0: Side, ghost c0: Ctx, ghost t0: Tree) returns (rotations: nat)
      requires Focus(mem, root, c0, t0) && t0.Node? && Height(t0) > 0 && Balanced(t0)
      requires CBalanced(c0, Height(t0) - 1)
      requires t0.bal != 0 || Height(t0) == 1
      requires parent0 == CPtr(c0) && which0 == CSide(c0)
      modifies this`mem, this`root, this`tree
      ensures Holds(mem, root, tree) && Balanced(tree)
      ensures Order() == Before(c0) + InOrder(t0) + After(c0)
      ensures rotations <= 1
    {
      hide Focus, Holds, Balanced, CBalanced, Before, After, InOrder, Height;
      var parent, which := parent0, which0;
      ghost var c, t := c0, t0;
      rotations := 0;
      while parent != NULL
        invariant Focus(mem, root, c, t) && t.Node? && Height(t) > 0 && Balanced(t) && CBalanced(c, Height(t) - 1)
        invariant t.bal != 0 || Height(t) == 1
        invariant parent == CPtr(c) && which == CSide(c) && rotations == 0
        invariant Before(c) + InOrder(t) + After(c) == Before(c0) + InOrder(t0) + After(c0)
        decreases c
      {
        var node := parent;
        ParentCell(mem, root, c, t);
        var oldBalance := mem[node].bal;
        var newBalance := oldBalance + Weight(which);
        OrderUp(c, t, newBalance);
        if newBalance == 0 {
          GrownLevel(c, t);
          StoreBalance(node, 0, c, t);
          c, t := c.up, Join(node, 0, c.side, t, c.sib);
          break;
        }
        if oldBalance != 0 {
          GrownOver(c, t);
          var shorter;
          ghost var u;
          shorter, u := RotateAbove(node, newBalance, c, t);
          rotations := rotations + 1;
          c, t := c.up, u;
          break;
        }
        GrownTall(c, t);
        StoreBalance(node, newBalance, c, t);
        c, t := c.up, Join(node, newBalance, c.side, t, c.sib);
        parent, which := mem[node].parent, mem[node].which;
      }
      ParentCell(mem, root, c, t);
      Settled(c, t);
      tree := Plug(c, t);
    }

    /** The context whose hole is a given slot. */
    lemma {:induction false} SlotContext(where: Index) returns (c: Ctx)
      requires Valid() && EmptySlot(where)
      ensures tree == Plug(c, Nil) && Focus(mem, root, c, Nil) && CBalanced(c, 0)
      ensures CPtr(c) == where.node && CSide(c) == where.child
      ensures Order() == Before(c) + After(c) && SlotIndex(where) == |Before(c)|
    {
      if where.node == NULL {
        c := Top;
      } else {
        InOrderElements(tree);
        var (u, t) := Locate(tree, where.node);
        FocusIsHolds(mem, root, u, t);
        ChildLink(mem, t, CPtr(u), CSide(u), where.child);
        c := Frame(t.ptr, t.bal, where.child, Kid(t, 1 - where.child), u);
        PlugDown(u, t, where.child);
      }
      FocusIsHolds(mem, root, c, Nil);
      PlugBalanced(c, Nil);
      HolePosition(c);
    }

    /** avl_insert: the new node n with key k goes into an empty slot. */
    method Insert(n: Ptr, k: int, where: Index) returns (rotations: nat)
      requires Valid() && EmptySlot(where) && NodeAddr(n) && n !in Ptrs(tree)
      modifies this
      ensures Valid() && key == old(key)[n := k]
      ensures old(SlotIndex(where)) <= |old(Order())|
      ensures Order() == old(Order())[..old(SlotIndex(where))] + [n] + old(Order())[old(SlotIndex(where))..]
      ensures rotations <= 1
    {
      hide Focus, Holds, Balanced, CBalanced, Before, After, InOrder, Height, Plug, CPtrs;
      ghost var c := SlotContext(where);
      PlugPtrs(c, Nil);
      ParentCell(mem, root, c, Nil);
      LeafFacts(n);
      var parent, which := where.node, where.child;
      key := key[n := k];
      numnodes := numnodes + 1;
      mem := mem[n := Cell(NULL, NULL, parent, which, 0)];
      if parent != NULL {
        mem := SetChild(mem, parent, which, n);
      } else {
        root := n;
      }
      LeafWritten(old(mem), mem, old(root), c, n);
      rotations := ClimbAfterInsert(parent, which, c, Node(n, 0, Nil, Nil));
      assert Order() == Before(c) + [n] + After(c);
      Inserted(old(tree), tree, Before(c), n, After(c));
    }

    /** avl_add: refused exactly when the key is taken; otherwise n appears at its sorted place. */
    method Add(n: Ptr, k: int) returns (added: bool, ghost pos: nat)
      requires Valid() && Ordered() && NodeAddr(n) && (n in Order() ==> key[n] == k)
      modifies this
      ensures Valid() && Ordered()
      ensures added <==> forall p :: p in old(Order()) ==> old(key)[p] != k
      ensures added ==> n !in old(Order()) && key == old(key)[n := k] && pos <= |old(Order())|
      ensures added ==> Order() == old(Order())[..pos] + [n] + old(Order())[pos..]
      ensures !added ==> unchanged(this)
    {
      hide Focus, Holds, Balanced, InOrder, Height, Ptrs;
      InOrderElements(tree);
      var found, where, compares := Find(k);
      if found != NULL { return false, 0; }
      pos := SlotIndex(where);
      SortedInsert(key, Order(), pos, n, k);
      var rotations := Insert(n, k, where);
      added := true;
    }

    /** The empty slot directly before or after `here`: the descent of avl_insert_here. */
    method SlotBeside(here: Ptr, direction: Side) returns (where: Index)
      requires Valid() && here in Order()
      ensures EmptySlot(where) && SlotIndex(where) == IndexOf(Order(), here) + direction
    {
      hide Holds, Focus, Before, InOrder, Balanced, Unique, Plug, Height;
      InOrderElements(tree);
      var node, child := here, direction;
      ghost var c, t := Locate(tree, here).0, Locate(tree, here).1;
      HoldsFocus(c, t);
      PositionOf(c, t);
      HoldsChild(c, t, child);
      if Child(mem[node], child) != NULL {
        node := Child(mem[node], child);
        PlugDown(c, t, child);
        BeforeDown(c, t, child);
        c, t := Frame(t.ptr, t.bal, child, Kid(t, 1 - child), c), Kid(t, child);
        child := 1 - child;
        HoldsChild(c, t, child);
        while Child(mem[node], child) != NULL
          invariant t.Node? && node == t.ptr && Plug(c, t) == tree
          invariant node in mem && (Child(mem[node], child) == NULL <==> Kid(t, child).Nil?)
          invariant Child(mem[node], child) == Root(Kid(t, child))
          invariant IndexOf(Order(), here) + direction == |Before(c)| + (if child == 1 then |InOrder(t)| else 0)
          decreases t
        {
          PlugDown(c, t, child);
          BeforeDown(c, t, child);
          node := Child(mem[node], child);
          c, t := Frame(t.ptr, t.bal, child, Kid(t, 1 - child), c), Kid(t, child);
          HoldsChild(c, t, child);
        }
        HoldsFocus(c, t);
        PositionOf(c, t);
        BeforeDown(c, t, child);
        NoKid(t, child);
      }
      where := Index(node, child);
    }

    lemma {:induction false} NoKid(t: Tree, d: Side)
      requires t.Node? && Kid(t, d).Nil?
      ensures InOrder(Kid(t, d)) == []
    {
    }

    lemma {:induction false} HoldsFocus(c: Ctx, t: Tree)
      requires Valid() && tree == Plug(c, t)
      ensures Focus(mem, root, c, t) && Unique(Plug(c, t))
    {
      FocusIsHolds(mem, root, c, t);
    }

    lemma {:induction false} HoldsChild(c: Ctx, t: Tree, d: Side)
      requires Valid() && tree == Plug(c, t) && t.Node?
      ensures t.ptr in InOrder(tree) && t.ptr in mem
      ensures Child(mem[t.ptr], d) == Root(Kid(t, d))
      ensures Child(mem[t.ptr], d) == NULL <==> Kid(t, d).Nil?
    {
      FocusIsHolds(mem, root, c, t);
      ChildLink(mem, t, CPtr(c), CSide(c), d);
      PlugInOrder(c, t);
    }

    /** avl_insert_here: n appears directly before or after `here`. */
    method InsertHere(n: Ptr, k: int, here: Ptr, direction: Side)
      requires Valid() && here in Order() && NodeAddr(n) && n !in Ptrs(tree)
      modifies this
      ensures Valid() && key == old(key)[n := k]
      ensures var i := old(IndexOf(Order(), here)) + direction;
              && i <= |old(Order())| && Order() == old(Order())[..i] + [n] + old(Order())[i..]
    {
      var where := SlotBeside(here, direction);
      var rotations := Insert(n, k, where);
    }

    /** The way down in avl_remove: one step to side `left`, then as far as possible the other way. */
    method InnerNeighbour(gone: Ptr, left: Side) returns (node: Ptr)
      requires Valid() && gone in Ptrs(tree) && gone in mem
      requires Child(mem[gone], 0) != NULL && Child(mem[gone], 1) != NULL
      ensures Swappable(mem, gone, node, left) && node in Ptrs(tree)
      ensures gone in Order() && node == Neighbour(Order(), IndexOf(Order(), gone), left)
    {
      hide Focus, Holds, Balanced, Unique, InOrder, Plug;
      var right := 1 - left;
      ghost var u, v := Locate(tree, gone).0, Locate(tree, gone).1;
      HoldsFocus(u, v);
      StepIsNeighbour(u, v, left);
      PlugPtrs(u, v);
      HoldsChild(u, v, left);
      HoldsChild(u, v, right);
      ghost var base, top := Frame(v.ptr, v.bal, left, Kid(v, right), u), Kid(v, left);
      ghost var c, t := base, top;
      FocusDown(mem, root, u, v, left);
      PlugDown(u, v, left);
      node := Child(mem[gone], left);
      HoldsChild(c, t, right);
      while Child(mem[node], right) != NULL
        invariant Inside(c, t, base, top) && node == t.ptr && Plug(c, t) == tree && Focus(mem, root, c, t)
        invariant Extreme(t, right) == Extreme(top, right)
        invariant node in mem && Child(mem[node], right) == Root(Kid(t, right))
        invariant Child(mem[node], right) == NULL <==> Kid(t, right).Nil?
        decreases t
      {
        InsideDown(mem, root, c, t, base, top, right);
        FocusDown(mem, root, c, t, right);
        PlugDown(c, t, right);
        node := Child(mem[node], right);
        c, t := Frame(t.ptr, t.bal, right, Kid(t, left), c), Kid(t, right);
        HoldsChild(c, t, right);
      }
      InsideSwappable(mem, root, u, v, left, c, t);
      PlugPtrs(c, t);
    }

    /** The copies of the swap in avl_remove. */
    method CopyCells(gone: Ptr, node: Ptr, left: Side)
      requires gone in mem && node in mem && gone != node && SPARE !in {gone, node}
      modifies this`mem
      ensures CellsCopied(old(mem), mem, gone, node, left)
    {
      mem := mem[SPARE := mem[node]];
      mem := mem[node := mem[gone]];
      if Child(mem[node], left) == node {
        mem := SetChild(mem, node, left, SPARE);
      }
    }

    /** The links of the swap in avl_remove that go to `node` in its new place. */
    method LinkNode(node: Ptr, left: Side)
      requires node in mem
      requires var g, l, r := mem[node].parent, Child(mem[node], left), Child(mem[node], 1 - left);
        (g != NULL ==> g in mem) && l in mem && r in mem && node !in {g, l, r} && g !in {l, r} && l != r
      modifies this`mem, this`root
      ensures NodeLinked(old(mem), mem, node, old(mem)[node].parent, old(mem)[node].which,
                         Child(old(mem)[node], left), Child(old(mem)[node], 1 - left))
      ensures root == if old(mem)[node].parent == NULL then node else old(root)
    {
      var parent := mem[node].parent;
      var l, r := Child(mem[node], left), Child(mem[node], 1 - left);
      var m := mem;
      if parent != NULL {
        m := SetChild(m, parent, m[node].which, node);
      } else {
        root := node;
      }
      m := SetParent(m, l, node);
      m := SetParent(m, r, node);
      mem := m;
    }

    /** The links of the swap in avl_remove that go to the stack copy. */
    method LinkSpare(ghost left: Side)
      requires SPARE in mem && Child(mem[SPARE], 1 - left) == NULL
      requires var o, x := mem[SPARE].parent, Child(mem[SPARE], left);
        o in mem && (x != NULL ==> x in mem) && SPARE !in {o, x} && o != x
      modifies this`mem
      ensures SpareLinked(old(mem), mem, old(mem)[SPARE].parent, old(mem)[SPARE].which, Child(old(mem)[SPARE], left))
    {
      var parent := mem[SPARE].parent;
      var m := SetChild(mem, parent, mem[SPARE].which, SPARE);
      var which: Side := if Child(m[SPARE], 1) != NULL then 1 else 0;
      if Child(m[SPARE], which) != NULL {
        m := SetParent(m, Child(m[SPARE], which), SPARE);
      }
      mem := m;
    }

    /** The swap in avl_remove: `node` moves to the place of `gone`, the stack copy to the place of `node`. */
    method SwapCells(gone: Ptr, node: Ptr, left: Side)
      requires Swappable(mem, gone, node, left) && (mem[gone].parent == NULL <==> root == gone)
      modifies this`mem, this`root
      ensures Swapped(old(mem), mem, gone, node, left)
      ensures root == if old(root) == gone then node else old(root)
    {
      CopyCells(gone, node, left);
      ghost var m1 := mem;
      LinkNode(node, left);
      ghost var m2 := mem;
      LinkSpare(left);
      StagesSwap(old(mem), m1, m2, mem, gone, node, left);
    }

    /**
      The loop of avl_remove: the subtree t0 at the hole of c0 is one level shorter than before.  `path`
      lists the subtrees passed on the way up, the last one being where the loop stops.
    */
    method ClimbAfterRemove(parent0: Ptr, which0: Side, ghost c0: Ctx, ghost t0: Tree)
      returns (levels: nat, ghost path: seq<Tree>)
      requires Focus(mem, root, c0, t0) && Balanced(t0) && CBalanced(c0, Height(t0) + 1)
      requires parent0 == CPtr(c0) && which0 == CSide(c0)
      modifies this`mem, this`root, this`tree
      ensures Holds(mem, root, tree) && Balanced(tree)
      ensures Order() == Before(c0) + InOrder(t0) + After(c0)
      ensures |path| == levels + 1 && path[0] == t0 && levels <= Depth(c0)
      ensures tree == Plug(UpBy(c0, levels), path[levels])
      ensures Stopped(c0, Height(t0) + 1, path)
    {
      hide Focus, Holds, Balanced, CBalanced, Before, After, InOrder, Height, UpBy, HeightUp, Above, Passed;
      var parent, which := parent0, which0;
      ghost var c, t := c0, t0;
      levels, path := 0, [t0];
      StartsAtHole(c0, Height(t0) + 1);
      while parent != NULL
        invariant Focus(mem, root, c, t) && Balanced(t) && CBalanced(c, Height(t) + 1)
        invariant parent == CPtr(c) && which == CSide(c)
        invariant Before(c) + InOrder(t) + After(c) == Before(c0) + InOrder(t0) + After(c0)
        invariant |path| == levels + 1 && path[0] == t0 && path[levels] == t && Climbed(c0, Height(t0) + 1, path)
        invariant c == UpBy(c0, levels) && HeightUp(c0, Height(t0) + 1, levels) == Height(t) + 1
        decreases c
      {
        var node := parent;
        ParentCell(mem, root, c, t);
        UpNext(c0, Height(t0) + 1, levels);
        var oldBalance := mem[node].bal;
        var newBalance := oldBalance - Weight(which);
        parent, which := mem[node].parent, mem[node].which;
        levels := levels + 1;
        OrderUp(c, t, newBalance);
        StaysAbove(c, t, newBalance);
        if oldBalance == 0 {
          ShrunkLean(c, t);
          StoreBalance(node, newBalance, c, t);
          ClimbMore(c0, Height(t0) + 1, path, Join(node, newBalance, c.side, t, c.sib));
          c, t := c.up, Join(node, newBalance, c.side, t, c.sib);
          path := path + [t];
          break;
        }
        if newBalance == 0 {
          ShrunkLevel(c, t);
          StoreBalance(node, newBalance, c, t);
          ClimbMore(c0, Height(t0) + 1, path, Join(node, newBalance, c.side, t, c.sib));
          c, t := c.up, Join(node, newBalance, c.side, t, c.sib);
          path := path + [t];
        } else {
          ShrunkOver(c, t);
          var shorter;
          ghost var u;
          shorter, u := RotateAbove(node, newBalance, c, t);
          ClimbMore(c0, Height(t0) + 1, path, u);
          c, t := c.up, u;
          path := path + [t];
          if !shorter { break; }
        }
      }
      UpTop(c0, levels);
      ParentCell(mem, root, c, t);
      Settled(c, t);
      tree := Plug(c, t);
    }

    /** avl_remove once `gone` has at most one child: the node leaves, the levels above are adjusted. */
    method Detach(gone: Ptr, ghost t0: Tree) returns (levels: nat)
      requires Holds(mem, root, t0) && Balanced(t0) && gone in InOrder(t0) && gone in mem
      requires Child(mem[gone], 0) == NULL || Child(mem[gone], 1) == NULL
      modifies this`mem, this`root, this`tree
      ensures Holds(mem, root, tree) && Balanced(tree)
      ensures Order() == Without(InOrder(t0), IndexOf(InOrder(t0), gone))
      ensures Fib(levels + 3) <= Size(t0) + 1 && Arith.Pow2((levels + 1) / 2) <= Size(t0) + 1
    {
      hide Focus, Holds, Balanced, CBalanced, InOrder, Before, After, Height;
      ghost var c, t := LeavingNode(mem, root, t0, gone);
      LeavingShape(c, t);
      ghost var x := if t.left.Node? then t.left else t.right;
      ParentCell(mem, root, c, t);
      var parent, which := mem[gone].parent, mem[gone].which;
      var node := if Child(mem[gone], 0) != NULL then Child(mem[gone], 0) else Child(mem[gone], 1);
      var m := mem;
      if node != NULL {
        m := Hang(m, node, parent, which);
      }
      if parent == NULL {
        root := node;
      } else {
        m := SetChild(m, parent, which, node);
      }
      mem := m;
      SpliceWritten(old(mem), mem, old(root), root, c, t);
      ghost var path;
      levels, path := ClimbAfterRemove(parent, which, c, x);
      ClimbCost(c, t, levels);
    }

    /** The swap of avl_remove as a whole: afterwards the stack copy has at most one child and is the one to leave. */
    method SwapOut(gone: Ptr) returns (ghost t: Tree)
      requires Valid() && gone in Order() && gone in mem
      requires Child(mem[gone], 0) != NULL && Child(mem[gone], 1) != NULL
      modifies this`mem, this`root
      ensures Holds(mem, root, t) && Balanced(t) && SPARE in InOrder(t) && SPARE in mem
      ensures Child(mem[SPARE], 0) == NULL || Child(mem[SPARE], 1) == NULL
      ensures Without(InOrder(t), IndexOf(InOrder(t), SPARE)) == Without(Order(), IndexOf(Order(), gone))
      ensures Size(t) == Size(tree)
    {
      hide Focus, Holds, Balanced, InOrder, Height, Unique;
      HoldsNode(gone);
      InOrderElements(tree);
      var left := HeavySide(mem[gone].bal);
      var node := InnerNeighbour(gone, left);
      HoldsNode(node);
      SwapCells(gone, node, left);
      SwapHolds(old(mem), mem, old(root), tree, gone, node, left);
      RenameShape(tree, gone, node, SPARE);
      UniqueIsDistinct(tree);
      RenameWithout(Order(), gone, left, SPARE);
      t := RenameTree(tree, gone, node, SPARE);
    }

    /** avl_remove; `levels` counts the levels climbed to restore the balance. */
    method Remove(n: Ptr) returns (levels: nat)
      requires Valid() && n in Order()
      modifies this
      ensures Valid() && key == old(key)
      ensures Order() == Without(old(Order()), IndexOf(old(Order()), n))
      ensures old(Ordered()) ==> Ordered()
      ensures Fib(levels + 3) <= old(numnodes) + 1 && Arith.Pow2((levels + 1) / 2) <= old(numnodes) + 1
    {
      hide Holds, Balanced, InOrder, Height;
      HoldsNode(n);
      var gone := n;
      ghost var t := tree;
      if Child(mem[gone], 0) != NULL && Child(mem[gone], 1) != NULL {
        t := SwapOut(gone);
        gone := SPARE;
      }
      InOrderElements(tree);
      numnodes := numnodes - 1;
      levels := Detach(gone, t);
      Shrunk(old(tree), tree, IndexOf(old(Order()), n));
      if old(Ordered()) { SortedWithout(key, old(Order()), IndexOf(old(Order()), n)); }
    }

    lemma {:induction false} HoldsNode(p: Ptr)
      requires Valid() && p in Order()
      ensures p in Ptrs(tree) && p in mem && (mem[p].parent == NULL <==> root == p) && Unique(tree)
    {
      InOrderElements(tree);
      ParentLinksAgree(mem, tree, NULL, 0, p);
      RepPtrs(mem, tree, NULL, 0);
    }

    /** The state between two calls of avl_destroy_nodes; the node handed out last may be gone from memory. */
    ghost predicate Dismantling(cookie: Index)
      reads this
    {
      if ctx.Top? then
        cookie == DONE && (if root == NULL then numnodes == 0 else root == last && numnodes == 1)
      else
        && cookie == Index(ctx.ptr, ctx.side)
        && CRep(mem, ctx, last) && CUnique(ctx) && last !in CPtrs(ctx) && Pending(ctx)
        && root == RootOf(ctx, last) && numnodes == CSize(ctx) + 1
    }

    /** The nodes that further calls with this cookie hand out, in order. */
    ghost function ToCome(cookie: Index): seq<Ptr>
      reads this
    {
      if cookie == START then PostOrder(tree) else Rest(ctx)
    }

    /** The label check_right_side of avl_destroy_nodes. */
    method CheckRightSide(node0: Ptr, parent0: Ptr, ghost c: Ctx, ghost t: Tree)
      returns (node: Ptr, cookie: Index, steps: nat)
      requires Focus(mem, root, c, t) && t.Node? && t.left.Nil? && Balanced(t) && Pending(c)
      requires node0 == t.ptr && parent0 == CPtr(c) && numnodes == CSize(c) + Size(t)
      modifies this`ctx, this`last
      ensures Dismantling(cookie) && cookie != START
      ensures node != NULL && node == last && [node] + Rest(ctx) == PostOrder(t) + Rest(c)
      ensures steps + Unseen(ctx) < Unseen(c) + Size(t)
    {
      hide Focus, Balanced;
      HandOutNode(mem, root, c, t);
      var parent := parent0;
      node, steps := node0, 0;
      ctx := c;
      UnseenBelow(c, t);
      if mem[node].right != NULL {
        HandOutChild(mem, root, c, t);
        parent := node;
        node, steps := mem[node].right, 1;
        ctx := Frame(t.ptr, t.bal, 1, Nil, c);
      }
      last := node;
      cookie := if parent == NULL then DONE else Index(parent, mem[node].which);
    }

    /** avl_destroy_nodes; `steps` counts the links followed. */
    method DestroyNodes(cookie: Index) returns (node: Ptr, next: Index, steps: nat)
      requires if cookie == START then Valid() else Dismantling(cookie)
      modifies this
      ensures Dismantling(next) && next != START
      ensures old(ToCome(cookie)) == [] ==> node == NULL && root == NULL && numnodes == 0 && ToCome(next) == []
      ensures old(ToCome(cookie)) != [] ==>
                node != NULL && node == last && old(ToCome(cookie)) == [node] + ToCome(next)
      ensures mem.Keys == old(mem.Keys)
      ensures cookie == START ==> steps + Unseen(ctx) <= 2 * Size(old(tree))
      ensures cookie != START ==> steps + Unseen(ctx) <= old(Unseen(ctx)) + if node == NULL then 0 else 1
    {
      hide Focus, Holds, Balanced, Pending, CRep, Rep, CUnique, PostOrder, InOrder, CPtrs, CSize, Height, Size;
      CookieFrame(cookie);
      if cookie == START {
        var first;
        first, steps := First();
        HeightSize(tree);
        FirstFacts();
        if first == NULL {
          ctx := Top;
          return NULL, DONE, steps;
        }
        ghost var c, t := Leftmost(Top, tree).0, Leftmost(Top, tree).1;
        StartLeftmost();
        LeftmostUnseen(Top, tree);
        var more;
        node, next, more := CheckRightSide(first, mem[first].parent, c, t);
        steps := steps + more;
      } else if cookie.node == NULL {
        root, numnodes := NULL, 0;
        return NULL, cookie, 0;
      } else {
        node, next, steps := StepOn(cookie);
      }
    }

    lemma {:induction false} FirstFacts()
      requires Valid()
      ensures Order() == [] ==> root == NULL && numnodes == 0 && PostOrder(tree) == []
      ensures Order() != [] ==>
                tree.Node? && Order()[0] != NULL && Order()[0] == Extreme(tree, 0) && PostOrder(tree) != []
    {
      ExtremeIsEnd(tree, 0);
      PostOrderElements(tree);
      InOrderElements(tree);
      assert Order() != [] ==> Order()[0] in Order();
    }

    lemma {:induction false} CookieFrame(cookie: Index)
      requires cookie != START ==> Dismantling(cookie)
      ensures cookie != START ==> (cookie.node == NULL <==> ctx.Top?)
    {
    }

    /** The first call starts at the leftmost node. */
    lemma {:induction false} StartLeftmost()
      requires Valid() && tree.Node?
      ensures var (c, t) := Leftmost(Top, tree);
        && Focus(mem, root, c, t) && Balanced(t) && Pending(c)
        && t.ptr == Extreme(tree, 0) && t.ptr in mem && mem[t.ptr].parent == CPtr(c)
        && numnodes == CSize(c) + Size(t) && PostOrder(t) + Rest(c) == PostOrder(tree)
    {
      var (c, t) := Leftmost(Top, tree);
      LeftmostFacts(Top, tree);
      FocusIsHolds(mem, root, c, t);
      PlugPtrs(c, t);
      assert Rest(Top) == [];
    }

    /** avl_destroy_nodes with a parent to return to. */
    method StepOn(cookie: Index) returns (node: Ptr, next: Index, steps: nat)
      requires Dismantling(cookie) && ctx.Frame? && cookie != START
      modifies this`mem, this`numnodes, this`ctx, this`last
      ensures Dismantling(next) && next != START && root == old(root)
      ensures node != NULL && node == last && old(Rest(ctx)) == [node] + Rest(ctx)
      ensures mem.Keys == old(mem.Keys)
      ensures steps + Unseen(ctx) <= old(Unseen(ctx)) + 1
    {
      hide Focus, Balanced, Pending, CUnique, PostOrder, CSize, Rest, Unseen, Size;
      UnseenUp(ctx);
      var parent, child := cookie.node, cookie.child;
      ghost var c, t := ctx, ctx.sib;
      if child == 0 && c.sib.Node? {
        TurnRight(mem, root, ctx, last);
      } else {
        TurnUp(mem, root, ctx, last);
      }
      mem := SetChild(mem, parent, child, NULL);
      assert mem.Keys == old(mem.Keys);
      numnodes := numnodes - 1;
      if child == 1 || mem[parent].right == NULL {
        node, steps := parent, 1;
        parent := mem[parent].parent;
        ctx, last := ctx.up, node;
        next := if parent == NULL then DONE else Index(parent, mem[node].which);
        return;
      }
      node, steps := mem[parent].right, 1;
      c := Frame(ctx.ptr, ctx.bal, 1, Nil, ctx.up);
      NodeCell(mem, root, c, t);
      while mem[node].left != NULL
        invariant Focus(mem, root, c, t) && t.Node? && Balanced(t) && Pending(c)
        invariant node == t.ptr && parent == CPtr(c) && node in mem && mem[node].left == Root(t.left)
        invariant mem[node].left == NULL <==> t.left.Nil?
        invariant PostOrder(t) + Rest(c) == old(Rest(ctx)) && numnodes == CSize(c) + Size(t)
        invariant mem.Keys == old(mem.Keys) && steps + Unseen(c) + Size(t) <= old(Unseen(ctx)) + 1
        decreases t
      {
        DownLeft(c, t);
        UnseenDown(c, t);
        FocusDown(mem, root, c, t, 0);
        parent := node;
        node, steps := mem[node].left, steps + 1;
        c, t := Frame(t.ptr, t.bal, 0, t.right, c), t.left;
        NodeCell(mem, root, c, t);
      }
      var more;
      node, next, more := CheckRightSide(node, parent, c, t);
      steps := steps + more;
    }

    /** Freeing the node that was handed out last. */
    method Free(n: Ptr, ghost cookie: Index)
      requires Dismantling(cookie) && n == last
      modifies this`mem
      ensures mem == old(mem) - {n} && Dismantling(cookie)
    {
      if ctx.Frame? { FreedLast(mem, ctx, last); }
      mem := mem - {n};
    }

    lemma {:induction false} TeardownStart()
      requires Valid()
      ensures ToCome(START) == PostOrder(tree) && |PostOrder(tree)| == Size(tree) == numnodes
    {
      PostOrderElements(tree);
    }

    /** The loop that avl_destroy_nodes is made for: every node handed out is freed at once. */
    method DestroyAll() returns (freed: seq<Ptr>, steps: nat)
      requires Valid()
      modifies this
      ensures freed == PostOrder(old(tree))
      ensures root == NULL && numnodes == 0
      ensures forall p :: p in freed ==> p !in mem
      ensures steps <= 3 * old(numnodes)
    {
      hide Valid, Dismantling, Unseen, PostOrder, Size;
      freed := [];
      TeardownStart();
      var node, cookie;
      node, cookie, steps := DestroyNodes(START);
      while node != NULL
        invariant Dismantling(cookie) && cookie != START
        invariant node == NULL ==> root == NULL && numnodes == 0 && ToCome(cookie) == []
        invariant node != NULL ==> node == last
        invariant freed + (if node == NULL then [] else [node]) + ToCome(cookie) == PostOrder(old(tree))
        invariant forall p :: p in freed ==> p !in mem
        invariant steps + Unseen(ctx) <= 2 * old(numnodes) + |freed|
        decreases |PostOrder(old(tree))| - |freed|
      {
        freed := freed + [node];
        Free(node, cookie);
        var more;
        node, cookie, more := DestroyNodes(cookie);
        steps := steps + more;
      }
    }
  }
}
