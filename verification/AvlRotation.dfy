/**
  What a rotation does to a shape.  A node p whose child on side d has become
  two levels taller than the other child is rebuilt from the same pieces.
*/
module AvlRotation {
  import opened AvlShape

  /** The child q = Join(q, cb, d, a, b) is level or leans the same way: q is lifted over p. */
  function Single(p: Ptr, d: Side, q: Ptr, cb: int, a: Tree, b: Tree, far: Tree): Tree {
    var bal := cb - Weight(d);
    Join(q, bal, d, a, Join(p, -bal, d, b, far))
  }

  /** The child leans inwards: its inner child g = Join(g, gb, d, gl, gr) is lifted over both. */
  function Double(p: Ptr, d: Side, q: Ptr, a: Tree, g: Ptr, gb: int, gl: Tree, gr: Tree, far: Tree): Tree {
    Join(g, 0, d,
         Join(q, if gb == -Weight(d) then Weight(d) else 0, d, a, gl),
         Join(p, if gb == Weight(d) then -Weight(d) else 0, d, gr, far))
  }

  lemma {:induction false} SingleBalance(p: Ptr, d: Side, q: Ptr, cb: int, a: Tree, b: Tree, far: Tree)
    requires Balanced(Join(q, cb, d, a, b)) && Balanced(far)
    requires Height(Join(q, cb, d, a, b)) == Height(far) + 2 && cb != -Weight(d)
    ensures Balanced(Single(p, d, q, cb, a, b, far))
    ensures Height(Single(p, d, q, cb, a, b, far)) == Height(far) + 2 + (if cb == 0 then 1 else 0)
  {
    var bal := cb - Weight(d);
    JoinBalance(q, cb, d, a, b);
    JoinBalance(p, -bal, d, b, far);
    JoinBalance(q, bal, d, a, Join(p, -bal, d, b, far));
  }

  lemma {:induction false} DoubleBalance(p: Ptr, d: Side, q: Ptr, cb: int, a: Tree, g: Ptr,
                                         gb: int, gl: Tree, gr: Tree, far: Tree)
    requires var mid := Join(g, gb, d, gl, gr);
      && Balanced(Join(q, cb, d, a, mid)) && Balanced(far)
      && Height(Join(q, cb, d, a, mid)) == Height(far) + 2 && cb == -Weight(d)
    ensures Balanced(Double(p, d, q, a, g, gb, gl, gr, far))
    ensures Height(Double(p, d, q, a, g, gb, gl, gr, far)) == Height(far) + 2
  {
    JoinBalance(g, gb, d, gl, gr);
    JoinBalance(q, cb, d, a, Join(g, gb, d, gl, gr));
    var cb' := if gb == -Weight(d) then Weight(d) else 0;
    var nb := if gb == Weight(d) then -Weight(d) else 0;
    JoinBalance(q, cb', d, a, gl);
    JoinBalance(p, nb, d, gr, far);
    JoinBalance(g, 0, d, Join(q, cb', d, a, gl), Join(p, nb, d, gr, far));
  }

  /** The single rotation keeps the in-order sequence. */
  lemma {:induction false} SingleOrder(p: Ptr, nb: int, d: Side, q: Ptr, cb: int, a: Tree, b: Tree, far: Tree)
    ensures InOrder(Single(p, d, q, cb, a, b, far)) == InOrder(Join(p, nb, d, Join(q, cb, d, a, b), far))
  {
    var bal := cb - Weight(d);
    JoinOrder(q, cb, d, a, b);
    JoinOrder(p, nb, d, Join(q, cb, d, a, b), far);
    JoinOrder(p, -bal, d, b, far);
    JoinOrder(q, bal, d, a, Join(p, -bal, d, b, far));
  }

  lemma {:induction false} Regroup(a: seq<Ptr>, p: Ptr, b: seq<Ptr>, q: Ptr, c: seq<Ptr>, r: Ptr, d: seq<Ptr>)
    ensures (a + [p] + (b + [q] + c)) + [r] + d == (a + [p] + b) + [q] + (c + [r] + d)
    ensures a + [p] + ((b + [q] + c) + [r] + d) == (a + [p] + b) + [q] + (c + [r] + d)
  {
  }

  /** The double rotation keeps the in-order sequence. */
  lemma {:induction false} DoubleOrder(p: Ptr, nb: int, d: Side, q: Ptr, cb: int, a: Tree,
                    g: Ptr, gb: int, gl: Tree, gr: Tree, far: Tree)
    ensures InOrder(Double(p, d, q, a, g, gb, gl, gr, far)) ==
            InOrder(Join(p, nb, d, Join(q, cb, d, a, Join(g, gb, d, gl, gr)), far))
  {
    var mid := Join(g, gb, d, gl, gr);
    JoinOrder(g, gb, d, gl, gr);
    JoinOrder(q, cb, d, a, mid);
    JoinOrder(p, nb, d, Join(q, cb, d, a, mid), far);
    var cb' := if gb == -Weight(d) then Weight(d) else 0;
    var nb' := if gb == Weight(d) then -Weight(d) else 0;
    JoinOrder(q, cb', d, a, gl);
    JoinOrder(p, nb', d, gr, far);
    JoinOrder(g, 0, d, Join(q, cb', d, a, gl), Join(p, nb', d, gr, far));
    if d == 0 {
      Regroup(InOrder(a), q, InOrder(gl), g, InOrder(gr), p, InOrder(far));
    } else {
      Regroup(InOrder(far), p, InOrder(gr), g, InOrder(gl), q, InOrder(a));
    }
  }
}
