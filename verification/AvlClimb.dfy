/**
  The way up in avl_remove: which positions the loop passes, how high their
  subtrees were before and are now, and where it stops.
*/
module AvlClimb {
  import opened AvlShape
  import opened AvlCost
  import opened Arith

  function Depth(c: Ctx): nat {
    if c.Top? then 0 else 1 + Depth(c.up)
  }

  /** The context k levels further up. */
  function UpBy(c: Ctx, k: nat): Ctx
    requires k <= Depth(c)
  {
    if k == 0 then c else UpBy(c.up, k - 1)
  }

  /** The height of the subtree k levels further up when the one at the hole of c has height h. */
  function HeightUp(c: Ctx, h: nat, k: nat): nat
    requires k <= Depth(c)
  {
    if k == 0 then h else HeightUp(c.up, 1 + Max(h, Height(c.sib)), k - 1)
  }

  lemma {:induction false} UpNext(c: Ctx, h: nat, k: nat)
    requires k <= Depth(c) && UpBy(c, k).Frame?
    ensures k + 1 <= Depth(c) && UpBy(c, k + 1) == UpBy(c, k).up
    ensures HeightUp(c, h, k + 1) == 1 + Max(HeightUp(c, h, k), Height(UpBy(c, k).sib))
    decreases k
  {
    if k > 0 {
      UpNext(c.up, 1 + Max(h, Height(c.sib)), k - 1);
    }
  }

  /**
    u is what became of the node above the hole of c once t is in the hole: the
    node is still there with the same sibling of t, or a rotation has moved it
    one level down on that side; either way t is still its child.
  */
  ghost predicate Above(c: Ctx, t: Tree, u: Tree)
    requires c.Frame?
  {
    && u.Node?
    && ((u.ptr == c.ptr && Kid(u, c.side) == t && Kid(u, 1 - c.side) == c.sib) ||
        var p := Kid(u, c.side); p.Node? && p.ptr == c.ptr && Kid(p, c.side) == t)
  }

  /**
    The subtrees that a climb from the hole of c0 has passed, lowest first: each
    one below the last became exactly one level shorter than it was, and is
    found again in the next.
  */
  ghost predicate Climbed(c0: Ctx, h: nat, path: seq<Tree>) {
    && 0 < |path| <= Depth(c0) + 1
    && forall j :: 0 <= j < |path| - 1 ==> Passed(c0, h, path, j)
  }

  ghost predicate Passed(c0: Ctx, h: nat, path: seq<Tree>, j: nat)
    requires j + 1 < |path| <= Depth(c0) + 1
  {
    && Height(path[j]) + 1 == HeightUp(c0, h, j)
    && UpBy(c0, j).Frame? && Above(UpBy(c0, j), path[j], path[j + 1])
  }

  /** The climb stopped where it had to: at the top, or at the first subtree that is as high as it was. */
  ghost predicate Stopped(c0: Ctx, h: nat, path: seq<Tree>) {
    && Climbed(c0, h, path)
    && (|path| <= Depth(c0) ==> Height(path[|path| - 1]) == HeightUp(c0, h, |path| - 1))
  }

  lemma {:induction false} UpTop(c: Ctx, k: nat)
    requires k <= Depth(c)
    ensures UpBy(c, k).Top? <==> k == Depth(c)
  {
    if k > 0 {
      UpTop(c.up, k - 1);
    }
  }

  lemma {:induction false} StartsAtHole(c: Ctx, h: nat)
    ensures UpBy(c, 0) == c && HeightUp(c, h, 0) == h
  {
  }

  /** A node that only changes its balance stays above t. */
  lemma {:induction false} StaysAbove(c: Ctx, t: Tree, bal: int)
    requires c.Frame?
    ensures Above(c, t, Join(c.ptr, bal, c.side, t, c.sib))
  {
  }

  lemma {:induction false} ClimbMore(c0: Ctx, h: nat, path: seq<Tree>, u: Tree)
    requires Climbed(c0, h, path) && UpBy(c0, |path| - 1).Frame?
    requires Height(path[|path| - 1]) + 1 == HeightUp(c0, h, |path| - 1)
    requires Above(UpBy(c0, |path| - 1), path[|path| - 1], u)
    ensures Climbed(c0, h, path + [u])
  {
    hide Above, UpBy, HeightUp, Height;
    UpNext(c0, h, |path| - 1);
    forall j | 0 <= j < |path| ensures Passed(c0, h, path + [u], j) {
      if j < |path| - 1 { assert Passed(c0, h, path, j); }
    }
  }

  /** A context as deep as the climb bounds the height of the whole. */
  lemma {:induction false} DepthHeight(c: Ctx, t: Tree)
    ensures Depth(c) + Height(t) <= Height(Plug(c, t))
    decreases c
  {
    if c.Frame? {
      DepthHeight(c.up, Join(c.ptr, c.bal, c.side, t, c.sib));
    }
  }

  /** The climb after the removal of a node at depth Depth(c) is logarithmic in the size of the tree. */
  lemma {:induction false} ClimbCost(c: Ctx, t: Tree, levels: nat)
    requires Balanced(Plug(c, t)) && t.Node? && levels <= Depth(c)
    ensures Fib(levels + 3) <= Size(Plug(c, t)) + 1 && Pow2((levels + 1) / 2) <= Size(Plug(c, t)) + 1
  {
    DepthHeight(c, t);
    assert Height(t) >= 1;
    SearchCost(Plug(c, t), levels + 1);
  }
}
