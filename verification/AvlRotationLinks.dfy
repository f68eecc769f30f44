/**
  Rotations in memory: which cells a rotation reads, and which writes turn the
  links of the old shape into the links of the rotated one.
*/
module AvlRotationLinks {
  import opened AvlShape
  import opened AvlLinks
  import opened AvlRotation

  /** The cells of a node p and of its child q on side d. */
  lemma {:induction false} PairCells(m: Mem, root: Ptr, c: Ctx, p: Ptr, nb: int, d: Side, q: Ptr,
                                     cb: int, a: Tree, b: Tree, far: Tree)
    requires Focus(m, root, c, Join(p, nb, d, Join(q, cb, d, a, b), far))
    ensures p in m && m[p] == CellOn(d, q, Root(far), CPtr(c), CSide(c), nb)
    ensures q in m && m[q] == CellOn(d, Root(a), Root(b), p, d, cb)
    ensures p != NULL && q != NULL && p != q
    ensures b.Node? ==> b.ptr in m
    ensures c.Frame? ==> c.ptr in m
    ensures Rep(m, a, q, d) && Rep(m, b, q, 1 - d) && Rep(m, far, p, 1 - d)
    ensures CRep(m, c, p)
  {
    RepJoin(m, p, nb, d, Join(q, cb, d, a, b), far, CPtr(c), CSide(c));
    RepJoin(m, q, cb, d, a, b, p, d);
    JoinPtrs(p, nb, d, Join(q, cb, d, a, b), far);
    JoinPtrs(q, cb, d, a, b);
  }

  /** The pieces of such a pair are pairwise disjoint. */
  ghost predicate Apart(c: Ctx, p: Ptr, q: Ptr, a: Tree, b: Tree, far: Tree) {
    && p != q && {p, q, NULL} !! Ptrs(a) && {p, q, NULL} !! Ptrs(b)
    && {p, q, NULL} !! Ptrs(far) && {p, q, NULL} !! CPtrs(c)
    && Ptrs(a) !! Ptrs(b) && Ptrs(a) !! Ptrs(far) && Ptrs(a) !! CPtrs(c)
    && Ptrs(b) !! Ptrs(far) && Ptrs(b) !! CPtrs(c) && Ptrs(far) !! CPtrs(c)
    && Unique(a) && Unique(b) && Unique(far) && CUnique(c)
  }

  lemma {:induction false} PairApart(m: Mem, root: Ptr, c: Ctx, p: Ptr, nb: int, d: Side, q: Ptr,
                                     cb: int, a: Tree, b: Tree, far: Tree)
    requires Focus(m, root, c, Join(p, nb, d, Join(q, cb, d, a, b), far))
    ensures Apart(c, p, q, a, b, far)
  {
    JoinPtrs(p, nb, d, Join(q, cb, d, a, b), far);
    JoinPtrs(q, cb, d, a, b);
    PairCells(m, root, c, p, nb, d, q, cb, a, b, far);
    RepPtrs(m, a, q, d);
    RepPtrs(m, b, q, 1 - d);
    RepPtrs(m, far, p, 1 - d);
    CRepPtrs(m, c, p);
  }

  /** The cells that lifting the child of p on side d touches exist and are distinct. */
  predicate PairLinked(m: Mem, p: Ptr, d: Side) {
    && p in m && p != NULL && Child(m[p], d) in m
    && var q := Child(m[p], d);
       var b := Child(m[q], 1 - d);
       var o := m[p].parent;
    && q != NULL && p != q && p != b && q != b && p != o && q != o
    && (b != NULL ==> b in m && b != o)
    && (o != NULL ==> o in m)
  }

  /** The writes of the single rotation, cell by cell. */
  ghost predicate ChildLifted(m: Mem, n: Mem, p: Ptr, d: Side)
    requires PairLinked(m, p, d)
  {
    var q := Child(m[p], d);
    var b := Child(m[q], 1 - d);
    var o := m[p].parent;
    && p in n && n[p] == CellOn(d, b, Child(m[p], 1 - d), q, 1 - d, Weight(d) - m[q].bal)
    && q in n && n[q] == CellOn(d, Child(m[q], d), p, o, m[p].which, m[q].bal - Weight(d))
    && (b != NULL ==> b in n && n[b] == m[b].(parent := p, which := d))
    && (o != NULL ==> o in n && n[o] == SetChild(m, o, m[p].which, q)[o])
    && Same(m, n, {p, q, b, o})
  }

  lemma {:induction false} LinkedPair(m: Mem, root: Ptr, c: Ctx, p: Ptr, nb: int, d: Side, q: Ptr,
                                      cb: int, a: Tree, b: Tree, far: Tree)
    requires Focus(m, root, c, Join(p, nb, d, Join(q, cb, d, a, b), far))
    ensures PairLinked(m, p, d) && Child(m[p], d) == q && m[q].bal == cb && m[p].parent == CPtr(c)
  {
    PairCells(m, root, c, p, nb, d, q, cb, a, b, far);
    PairApart(m, root, c, p, nb, d, q, cb, a, b, far);
  }

  lemma {:induction false} KeepTree(m: Mem, n: Mem, s: set<Ptr>, t: Tree, o: Ptr, w: Side)
    requires Rep(m, t, o, w) && Same(m, n, s) && s !! Ptrs(t)
    ensures Rep(n, t, o, w)
  {
    RepFrame(m, n, t, o, w);
  }

  lemma {:induction false} MoveTree(m: Mem, n: Mem, s: set<Ptr>, t: Tree, o: Ptr, w: Side, o': Ptr, w': Side)
    requires Rep(m, t, o, w) && Unique(t) && Same(m, n, s) && s * Ptrs(t) <= {Root(t)}
    requires t.Node? ==> t.ptr in m && t.ptr in n && n[t.ptr] == m[t.ptr].(parent := o', which := w')
    ensures Rep(n, t, o', w')
  {
    if t.Node? {
      assert s !! Ptrs(t.left) && s !! Ptrs(t.right);
      SameAgree(m, n, s, Ptrs(t.left) + Ptrs(t.right));
    }
    RepMove(m, n, t, o, w, o', w');
  }

  lemma {:induction false} SwapChild(m: Mem, n: Mem, s: set<Ptr>, c: Ctx, p: Ptr, q: Ptr)
    requires CRep(m, c, p) && CUnique(c) && Same(m, n, s) && s * CPtrs(c) <= {CPtr(c)}
    requires c.Frame? ==> c.ptr in m && c.ptr in n && n[c.ptr] == SetChild(m, c.ptr, c.side, q)[c.ptr]
    ensures CRep(n, c, q)
  {
    if c.Frame? { SameAgree(m, n, s, CPtrs(c) - {c.ptr}); }
    CRepSwap(m, n, c, p, q);
  }

  /** The untouched pieces survive the writes, and the inner piece b is rehung under p. */
  lemma {:induction false} PiecesAfter(m: Mem, n: Mem, c: Ctx, p: Ptr, d: Side, q: Ptr, a: Tree, b: Tree, far: Tree)
    requires Apart(c, p, q, a, b, far)
    requires Rep(m, a, q, d) && Rep(m, b, q, 1 - d) && Rep(m, far, p, 1 - d) && CRep(m, c, p)
    requires b.Node? ==> b.ptr in m && b.ptr in n && n[b.ptr] == m[b.ptr].(parent := p, which := d)
    requires c.Frame? ==> c.ptr in m && c.ptr in n && n[c.ptr] == SetChild(m, c.ptr, c.side, q)[c.ptr]
    requires Same(m, n, {p, q, Root(b), CPtr(c)})
    ensures Rep(n, a, q, d) && Rep(n, b, p, d) && Rep(n, far, p, 1 - d) && CRep(n, c, q)
  {
    var s := {p, q, Root(b), CPtr(c)};
    KeepTree(m, n, s, a, q, d);
    KeepTree(m, n, s, far, p, 1 - d);
    MoveTree(m, n, s, b, q, 1 - d, p, d);
    SwapChild(m, n, s, c, p, q);
  }

  lemma {:induction false} SingleRep(n: Mem, c: Ctx, p: Ptr, d: Side, q: Ptr, cb: int, a: Tree, b: Tree, far: Tree)
    requires p != NULL && q != NULL && p in n && q in n
    requires n[p] == CellOn(d, Root(b), Root(far), q, 1 - d, Weight(d) - cb)
    requires n[q] == CellOn(d, Root(a), p, CPtr(c), CSide(c), cb - Weight(d))
    requires Rep(n, a, q, d) && Rep(n, b, p, d) && Rep(n, far, p, 1 - d)
    ensures Rep(n, Single(p, d, q, cb, a, b, far), CPtr(c), CSide(c))
  {
    var bal := cb - Weight(d);
    RepJoin(n, p, -bal, d, b, far, q, 1 - d);
    RepJoin(n, q, bal, d, a, Join(p, -bal, d, b, far), CPtr(c), CSide(c));
  }

  /** A subtree replaced by one with the same in-order sequence. */
  lemma {:induction false} Refocus(m: Mem, n: Mem, root: Ptr, root': Ptr, c: Ctx, t: Tree, u: Tree)
    requires Focus(m, root, c, t) && InOrder(u) == InOrder(t)
    requires Rep(n, u, CPtr(c), CSide(c)) && CRep(n, c, Root(u))
    requires root' == if c.Top? then Root(u) else root
    ensures Focus(n, root', c, u)
  {
    SameOrder(t, u);
  }

  /** The single rotation in memory is the single rotation of the shape. */
  lemma {:induction false} SingleDone(m: Mem, n: Mem, root: Ptr, root': Ptr, c: Ctx, p: Ptr, nb: int, d: Side,
                   q: Ptr, cb: int, a: Tree, b: Tree, far: Tree)
    requires Focus(m, root, c, Join(p, nb, d, Join(q, cb, d, a, b), far))
    requires PairLinked(m, p, d) && ChildLifted(m, n, p, d)
    requires root' == if c.Top? then q else root
    ensures Focus(n, root', c, Single(p, d, q, cb, a, b, far))
  {
    var t, u := Join(p, nb, d, Join(q, cb, d, a, b), far), Single(p, d, q, cb, a, b, far);
    PairCells(m, root, c, p, nb, d, q, cb, a, b, far);
    PairApart(m, root, c, p, nb, d, q, cb, a, b, far);
    PiecesAfter(m, n, c, p, d, q, a, b, far);
    SingleRep(n, c, p, d, q, cb, a, b, far);
    SingleOrder(p, nb, d, q, cb, a, b, far);
    Refocus(m, n, root, root', c, t, u);
  }

  // -------------------------------------------------------- double rotation

  /** The cells that lifting the inner grandchild of p touches exist and are distinct. */
  predicate TripleLinked(m: Mem, p: Ptr, d: Side) {
    && p in m && p != NULL && Child(m[p], d) in m && Child(m[Child(m[p], d)], 1 - d) in m
    && var q := Child(m[p], d);
       var g := Child(m[q], 1 - d);
       var l, r, o := Child(m[g], d), Child(m[g], 1 - d), m[p].parent;
    && q != NULL && g != NULL && p != q && p != g && q != g
    && l !in {p, q, g} && r !in {p, q, g} && o !in {p, q, g}
    && (l != NULL ==> l in m && l != r && l != o)
    && (r != NULL ==> r in m && r != o)
    && (o != NULL ==> o in m)
  }

  /** The writes of the double rotation, cell by cell. */
  ghost predicate GrandchildLifted(m: Mem, n: Mem, p: Ptr, d: Side)
    requires TripleLinked(m, p, d)
  {
    var q := Child(m[p], d);
    var g := Child(m[q], 1 - d);
    var l, r, o := Child(m[g], d), Child(m[g], 1 - d), m[p].parent;
    && p in n && n[p] == CellOn(d, r, Child(m[p], 1 - d), g, 1 - d, if m[g].bal == Weight(d) then -Weight(d) else 0)
    && q in n && n[q] == CellOn(d, Child(m[q], d), l, g, d, if m[g].bal == -Weight(d) then Weight(d) else 0)
    && g in n && n[g] == CellOn(d, q, p, o, m[p].which, 0)
    && (l != NULL ==> l in n && n[l] == m[l].(parent := q, which := 1 - d))
    && (r != NULL ==> r in n && n[r] == m[r].(parent := p, which := d))
    && (o != NULL ==> o in n && n[o] == SetChild(m, o, m[p].which, g)[o])
    && Same(m, n, {p, q, g, l, r, o})
  }

  ghost predicate GrandchildSplit(m: Mem, n: Mem, p: Ptr, q: Ptr, d: Side, l: Ptr, r: Ptr)
    requires p in m && q in m && (l != NULL ==> l in m) && (r != NULL ==> r in m)
  {
    && p in n && n[p] == SetChild(m, p, d, r)[p]
    && q in n && n[q] == SetChild(m, q, 1 - d, l)[q]
    && (l != NULL ==> l in n && n[l] == m[l].(parent := q, which := 1 - d))
    && (r != NULL ==> r in n && n[r] == m[r].(parent := p, which := d))
    && Same(m, n, {p, q, l, r})
  }

  ghost predicate GrandchildCrowned(m: Mem, n: Mem, p: Ptr, q: Ptr, g: Ptr, d: Side, o: Ptr, w: Side)
    requires p in m && q in m && g in m && (o != NULL ==> o in m)
  {
    && p in n && n[p] == m[p].(parent := g, which := 1 - d, bal := if m[g].bal == Weight(d) then -Weight(d) else 0)
    && q in n && n[q] == m[q].(parent := g, which := d, bal := if m[g].bal == -Weight(d) then Weight(d) else 0)
    && g in n && n[g] == CellOn(d, q, p, o, w, 0)
    && (o != NULL ==> o in n && n[o] == SetChild(m, o, w, g)[o])
    && Same(m, n, {p, q, g, o})
  }

  lemma {:induction false} SplitAndCrowned(m: Mem, s: Mem, n: Mem, p: Ptr, d: Side)
    requires TripleLinked(m, p, d)
    requires var q := Child(m[p], d); var g := Child(m[q], 1 - d);
      && GrandchildSplit(m, s, p, q, d, Child(m[g], d), Child(m[g], 1 - d))
      && g in s && (m[p].parent != NULL ==> m[p].parent in s)
      && GrandchildCrowned(s, n, p, q, g, d, m[p].parent, m[p].which)
    ensures GrandchildLifted(m, n, p, d)
  {
  }

  lemma {:induction false} TripleCells(m: Mem, root: Ptr, c: Ctx, p: Ptr, nb: int, d: Side, q: Ptr, cb: int, a: Tree,
                    g: Ptr, gb: int, gl: Tree, gr: Tree, far: Tree)
    requires Focus(m, root, c, Join(p, nb, d, Join(q, cb, d, a, Join(g, gb, d, gl, gr)), far))
    ensures p in m && m[p] == CellOn(d, q, Root(far), CPtr(c), CSide(c), nb)
    ensures q in m && m[q] == CellOn(d, Root(a), g, p, d, cb)
    ensures g in m && m[g] == CellOn(d, Root(gl), Root(gr), q, 1 - d, gb)
    ensures p != NULL && q != NULL && g != NULL
    ensures gl.Node? ==> gl.ptr in m
    ensures gr.Node? ==> gr.ptr in m
    ensures c.Frame? ==> c.ptr in m
    ensures Rep(m, a, q, d) && Rep(m, gl, g, d) && Rep(m, gr, g, 1 - d) && Rep(m, far, p, 1 - d)
    ensures CRep(m, c, p)
  {
    PairCells(m, root, c, p, nb, d, q, cb, a, Join(g, gb, d, gl, gr), far);
    RepJoin(m, g, gb, d, gl, gr, q, 1 - d);
  }

  lemma {:induction false} TripleApart(m: Mem, root: Ptr, c: Ctx, p: Ptr, nb: int, d: Side, q: Ptr, cb: int, a: Tree,
                    g: Ptr, gb: int, gl: Tree, gr: Tree, far: Tree)
    requires Focus(m, root, c, Join(p, nb, d, Join(q, cb, d, a, Join(g, gb, d, gl, gr)), far))
    ensures Apart(c, p, q, a, Join(g, gb, d, gl, gr), far)
    ensures Ptrs(Join(g, gb, d, gl, gr)) == {g} + Ptrs(gl) + Ptrs(gr)
    ensures g !in Ptrs(gl) && g !in Ptrs(gr) && Ptrs(gl) !! Ptrs(gr) && Unique(gl) && Unique(gr)
  {
    PairApart(m, root, c, p, nb, d, q, cb, a, Join(g, gb, d, gl, gr), far);
    JoinPtrs(g, gb, d, gl, gr);
  }

  lemma {:induction false} LinkedTriple(m: Mem, root: Ptr, c: Ctx, p: Ptr, nb: int, d: Side, q: Ptr, cb: int, a: Tree,
                     g: Ptr, gb: int, gl: Tree, gr: Tree, far: Tree)
    requires Focus(m, root, c, Join(p, nb, d, Join(q, cb, d, a, Join(g, gb, d, gl, gr)), far))
    ensures TripleLinked(m, p, d) && Child(m[p], d) == q && Child(m[q], 1 - d) == g && m[p].parent == CPtr(c)
  {
    TripleCells(m, root, c, p, nb, d, q, cb, a, g, gb, gl, gr, far);
    TripleApart(m, root, c, p, nb, d, q, cb, a, g, gb, gl, gr, far);
  }

  /** The pieces after the double rotation: gl is rehung under q, gr under p, the rest is untouched. */
  lemma {:induction false} TriplePieces(m: Mem, n: Mem, c: Ctx, p: Ptr, d: Side, q: Ptr, a: Tree,
                     g: Ptr, gb: int, gl: Tree, gr: Tree, far: Tree)
    requires Apart(c, p, q, a, Join(g, gb, d, gl, gr), far)
    requires Ptrs(Join(g, gb, d, gl, gr)) == {g} + Ptrs(gl) + Ptrs(gr)
    requires g !in Ptrs(gl) && g !in Ptrs(gr) && Ptrs(gl) !! Ptrs(gr) && Unique(gl) && Unique(gr)
    requires Rep(m, a, q, d) && Rep(m, gl, g, d) && Rep(m, gr, g, 1 - d) && Rep(m, far, p, 1 - d) && CRep(m, c, p)
    requires gl.Node? ==> gl.ptr in m && gl.ptr in n && n[gl.ptr] == m[gl.ptr].(parent := q, which := 1 - d)
    requires gr.Node? ==> gr.ptr in m && gr.ptr in n && n[gr.ptr] == m[gr.ptr].(parent := p, which := d)
    requires c.Frame? ==> c.ptr in m && c.ptr in n && n[c.ptr] == SetChild(m, c.ptr, c.side, g)[c.ptr]
    requires Same(m, n, {p, q, g, Root(gl), Root(gr), CPtr(c)})
    ensures Rep(n, a, q, d) && Rep(n, gl, q, 1 - d) && Rep(n, gr, p, d) && Rep(n, far, p, 1 - d) && CRep(n, c, g)
  {
    var s := {p, q, g, Root(gl), Root(gr), CPtr(c)};
    KeepTree(m, n, s, a, q, d);
    KeepTree(m, n, s, far, p, 1 - d);
    MoveTree(m, n, s, gl, g, d, q, 1 - d);
    MoveTree(m, n, s, gr, g, 1 - d, p, d);
    SwapChild(m, n, s, c, p, g);
  }

  lemma {:induction false} DoubleRep(n: Mem, c: Ctx, p: Ptr, d: Side, q: Ptr, a: Tree, g: Ptr,
                                     gb: int, gl: Tree, gr: Tree, far: Tree)
    requires p != NULL && q != NULL && g != NULL && p in n && q in n && g in n
    requires n[p] == CellOn(d, Root(gr), Root(far), g, 1 - d, if gb == Weight(d) then -Weight(d) else 0)
    requires n[q] == CellOn(d, Root(a), Root(gl), g, d, if gb == -Weight(d) then Weight(d) else 0)
    requires n[g] == CellOn(d, q, p, CPtr(c), CSide(c), 0)
    requires Rep(n, a, q, d) && Rep(n, gl, q, 1 - d) && Rep(n, gr, p, d) && Rep(n, far, p, 1 - d)
    ensures Rep(n, Double(p, d, q, a, g, gb, gl, gr, far), CPtr(c), CSide(c))
  {
    var cb := if gb == -Weight(d) then Weight(d) else 0;
    var nb := if gb == Weight(d) then -Weight(d) else 0;
    RepJoin(n, q, cb, d, a, gl, g, d);
    RepJoin(n, p, nb, d, gr, far, g, 1 - d);
    RepJoin(n, g, 0, d, Join(q, cb, d, a, gl), Join(p, nb, d, gr, far), CPtr(c), CSide(c));
  }

  /** The double rotation in memory is the double rotation of the shape. */
  lemma {:induction false} DoubleDone(m: Mem, n: Mem, root: Ptr, root': Ptr, c: Ctx, p: Ptr, nb: int, d: Side,
                   q: Ptr, cb: int, a: Tree, g: Ptr, gb: int, gl: Tree, gr: Tree, far: Tree)
    requires Focus(m, root, c, Join(p, nb, d, Join(q, cb, d, a, Join(g, gb, d, gl, gr)), far))
    requires TripleLinked(m, p, d) && GrandchildLifted(m, n, p, d)
    requires root' == if c.Top? then g else root
    ensures Focus(n, root', c, Double(p, d, q, a, g, gb, gl, gr, far))
  {
    var t := Join(p, nb, d, Join(q, cb, d, a, Join(g, gb, d, gl, gr)), far);
    TripleCells(m, root, c, p, nb, d, q, cb, a, g, gb, gl, gr, far);
    TripleApart(m, root, c, p, nb, d, q, cb, a, g, gb, gl, gr, far);
    TriplePieces(m, n, c, p, d, q, a, g, gb, gl, gr, far);
    DoubleRep(n, c, p, d, q, a, g, gb, gl, gr, far);
    DoubleOrder(p, nb, d, q, cb, a, g, gb, gl, gr, far);
    Refocus(m, n, root, root', c, t, Double(p, d, q, a, g, gb, gl, gr, far));
  }
}
