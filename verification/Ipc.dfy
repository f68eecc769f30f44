/**
  The slot allocator for filebench objects in shared memory: a next-fit
  circular scan over a bitmap that starts behind the last allocated slot, and
  a free that recovers the slot number from the address.
*/
module Ipc {
  import opened Arith

  datatype Option<T> = None | Some(value: T)

  // ----------------------------------------------------------- circular scan

  /** The k-th slot looked at, for 1 <= k <= n; the n-th is the last allocated slot itself. */
  function Probe(n: nat, last: nat, k: nat): nat {
    if last + k < n then last + k else last + k - n
  }

  /** The slot the scan settles on from its k-th look on. */
  function Search(used: seq<bool>, last: nat, k: nat): Option<nat>
    requires last < |used| && 1 <= k <= |used|
    decreases |used| - k
  {
    var i := Probe(|used|, last, k);
    if k == |used| then None
    else if !used[i] then Some(i)
    else Search(used, last, k + 1)
  }

  /** How far ahead of `last` slot i is, going round. */
  function Ahead(n: nat, last: nat, i: nat): nat
    requires last < n && i < n
  {
    if i > last then i - last else i + n - last
  }

  /** Every slot other than `last` is in use. */
  predicate OthersUsed(used: seq<bool>, last: nat) {
    forall j :: 0 <= j < |used| && j != last ==> used[j]
  }

  /** The scan finds the nearest free slot ahead, and none iff every slot other than the last allocated one is used. */
  lemma {:induction false} SearchNearest(used: seq<bool>, last: nat, k: nat)
    requires last < |used| && 1 <= k <= |used|
    requires forall j :: 0 <= j < |used| && Ahead(|used|, last, j) < k ==> used[j]
    ensures var r := Search(used, last, k);
      && (r == None <==> OthersUsed(used, last))
      && (r.Some? ==>
            && r.value < |used| && r.value != last && !used[r.value]
            && forall j :: 0 <= j < |used| && Ahead(|used|, last, j) < Ahead(|used|, last, r.value) ==> used[j])
    decreases |used| - k
  {
    var i := Probe(|used|, last, k);
    assert Ahead(|used|, last, i) == k;
    if k < |used| && used[i] {
      SearchNearest(used, last, k + 1);
    }
  }

  // -------------------------------------------------------------------- runs

  /** A pool of n slots of `size` bytes at `base`, and the addresses clients hold. */
  datatype Heap = Heap(base: nat, size: nat, used: seq<bool>, last: nat, live: set<nat>)

  function Addr(h: Heap, i: nat): nat {
    h.base + i * h.size
  }

  function Item(h: Heap, a: nat): nat
    requires h.size > 0 && h.base <= a
  {
    (a - h.base) / h.size
  }

  lemma DivMul(i: nat, size: nat)
    requires size > 0
    ensures i * size / size == i
  {
    var x := i * size;
    var q := x / size;
    assert q * size <= x < q * size + size;
    if q < i {
      Spaced(q, i, size);
    } else if i < q {
      Spaced(i, q, size);
    }
  }

  lemma ItemOfAddr(h: Heap, i: nat)
    requires h.size > 0
    ensures h.base <= Addr(h, i) && Item(h, Addr(h, i)) == i
  {
    DivMul(i, h.size);
    assert Addr(h, i) - h.base == i * h.size;
  }

  predicate Shaped(h: Heap) {
    h.size > 0 && h.last < |h.used|
  }

  datatype Op = Malloc | Free(a: nat)

  /** Clients free only what they hold. */
  predicate Can(h: Heap, o: Op) {
    Shaped(h) && (o.Free? ==> o.a in h.live && h.base <= o.a && Item(h, o.a) < |h.used|)
  }

  /** What ipc_malloc returns; None is NULL. */
  function Result(h: Heap): Option<nat>
    requires Shaped(h)
  {
    match Search(h.used, h.last, 1)
    case None => None
    case Some(i) => Some(Addr(h, i))
  }

  function Apply(h: Heap, o: Op): Heap
    requires Can(h, o)
  {
    match o
    case Malloc =>
      (match Search(h.used, h.last, 1)
       case None => h
       case Some(i) => Marked(h, i))
    case Free(a) => h.(used := h.used[Item(h, a) := false], live := h.live - {a})
  }

  function Marked(h: Heap, i: nat): Heap {
    if i < |h.used| then h.(used := h.used[i := true], last := i, live := h.live + {Addr(h, i)}) else h
  }

  predicate Legal(h: Heap, ops: seq<Op>)
    decreases |ops|
  {
    ops == [] || (Can(h, ops[0]) && Legal(Apply(h, ops[0]), ops[1..]))
  }

  function Run(h: Heap, ops: seq<Op>): Heap
    requires Legal(h, ops)
    decreases |ops|
  {
    if ops == [] then h else Run(Apply(h, ops[0]), ops[1..])
  }

  /** Zeroed shared memory. */
  predicate Start(h: Heap) {
    Shaped(h) && h.last == 0 && h.live == {} && forall i :: 0 <= i < |h.used| ==> !h.used[i]
  }

  ghost predicate IsSlot(h: Heap, a: nat) {
    exists i: nat :: i < |h.used| && a == Addr(h, i)
  }

  /** The bitmap says exactly which slots are held. */
  ghost predicate Inv(h: Heap) {
    && Shaped(h)
    && (forall i: nat :: i < |h.used| ==> (h.used[i] <==> Addr(h, i) in h.live))
    && (forall a :: a in h.live ==> IsSlot(h, a))
  }

  lemma AddrApart(h: Heap, i: nat, j: nat)
    requires h.size > 0 && i < j
    ensures Addr(h, i) + h.size <= Addr(h, j)
  {
    Spaced(i, j, h.size);
  }

  lemma AddrInjective(h: Heap, i: nat, j: nat)
    requires h.size > 0 && Addr(h, i) == Addr(h, j)
    ensures i == j
  {
    if i < j { AddrApart(h, i, j); } else if j < i { AddrApart(h, j, i); }
  }

  lemma InvShaped(h: Heap)
    requires Inv(h)
    ensures Shaped(h)
  {
  }

  lemma MallocInv(h: Heap)
    requires Inv(h)
    ensures Inv(Apply(h, Malloc))
  {
    SearchNearest(h.used, h.last, 1);
    var g := Apply(h, Malloc);
    if Search(h.used, h.last, 1).Some? {
      var i := Search(h.used, h.last, 1).value;
      forall j: nat | j < |g.used| ensures g.used[j] <==> Addr(g, j) in g.live {
        assert Addr(g, j) == Addr(h, j);
        if j != i && Addr(h, j) == Addr(h, i) { AddrInjective(h, i, j); }
      }
      SlotsKept(h, g);
    }
  }

  lemma SlotsKept(h: Heap, g: Heap)
    requires g.base == h.base && g.size == h.size && |g.used| == |h.used|
    ensures forall a :: IsSlot(h, a) ==> IsSlot(g, a)
  {
    forall a | IsSlot(h, a) ensures IsSlot(g, a) {
      var i: nat :| i < |h.used| && a == Addr(h, i);
      assert a == Addr(g, i);
    }
  }

  lemma FreeInv(h: Heap, a: nat)
    requires Inv(h) && Can(h, Free(a))
    ensures Inv(Apply(h, Free(a)))
  {
    var g := Apply(h, Free(a));
    var i: nat :| i < |h.used| && a == Addr(h, i);
    ItemOfAddr(h, i);
    forall j: nat | j < |g.used| ensures g.used[j] <==> Addr(g, j) in g.live {
      assert Addr(g, j) == Addr(h, j);
      if j != i && Addr(h, j) == Addr(h, i) { AddrInjective(h, i, j); }
    }
    SlotsKept(h, g);
  }

  lemma {:induction false} RunInv(h: Heap, ops: seq<Op>)
    requires Inv(h) && Legal(h, ops)
    ensures Inv(Run(h, ops))
    decreases |ops|
  {
    hide Inv;
    if ops != [] {
      if ops[0].Malloc? { MallocInv(h); } else { FreeInv(h, ops[0].a); }
      RunInv(Apply(h, ops[0]), ops[1..]);
    }
  }

  /** The addresses that the mallocs of a run returned, in order. */
  function Returned(h: Heap, ops: seq<Op>): seq<nat>
    requires Legal(h, ops)
    decreases |ops|
  {
    if ops == [] then []
    else (if ops[0].Malloc? && Result(h).Some? then [Result(h).value] else []) + Returned(Apply(h, ops[0]), ops[1..])
  }

  /** The scan starts behind the slot of the latest successful malloc. */
  lemma {:induction false} LastIsLatest(h: Heap, ops: seq<Op>)
    requires Legal(h, ops)
    ensures var g, out := Run(h, ops), Returned(h, ops);
      if out == [] then g.last == h.last else Addr(h, g.last) == out[|out| - 1]
    decreases |ops|
  {
    if ops != [] {
      if ops[0].Malloc? && Shaped(h) {
        SearchInside(h.used, h.last, 1);
      }
      LastIsLatest(Apply(h, ops[0]), ops[1..]);
      assert Addr(Apply(h, ops[0]), Run(h, ops).last) == Addr(h, Run(h, ops).last);
    }
  }

  lemma {:induction false} SearchInside(used: seq<bool>, last: nat, k: nat)
    requires last < |used| && 1 <= k <= |used|
    ensures Search(used, last, k).Some? ==> Search(used, last, k).value < |used|
    decreases |used| - k
  {
    if k < |used| {
      SearchInside(used, last, k + 1);
    }
  }

  /** After any run a new object is a slot of the pool that overlaps no object still held. */
  lemma NoSharing(h: Heap, ops: seq<Op>)
    requires Start(h) && Legal(h, ops) && Shaped(Run(h, ops)) && Result(Run(h, ops)).Some?
    ensures var g := Run(h, ops); var a := Result(g).value;
      && IsSlot(g, a) && a !in g.live
      && (forall b :: b in g.live ==> a + g.size <= b || b + g.size <= a)
  {
    RunInv(h, ops);
    var g := Run(h, ops);
    SearchNearest(g.used, g.last, 1);
    var i := Search(g.used, g.last, 1).value;
    forall b | b in g.live ensures Addr(g, i) + g.size <= b || b + g.size <= Addr(g, i) {
      var j: nat :| j < |g.used| && b == Addr(g, j);
      if i < j { AddrApart(g, i, j); } else if j < i { AddrApart(g, j, i); }
    }
  }

  /** Every object held can be freed, and its slot number comes back from its address. */
  lemma FreeRecovers(h: Heap, ops: seq<Op>, a: nat)
    requires Start(h) && Legal(h, ops) && a in Run(h, ops).live
    ensures var g := Run(h, ops);
      && Can(g, Free(a)) && g.used[Item(g, a)] && Addr(g, Item(g, a)) == a
  {
    RunInv(h, ops);
    var g := Run(h, ops);
    var i: nat :| i < |g.used| && a == Addr(g, i);
    ItemOfAddr(g, i);
  }

  lemma MarkFree(g: Heap, i: nat)
    requires Inv(g) && i < |g.used| && !g.used[i]
    ensures var g1 := Marked(g, i); var a := Addr(g, i);
      && a in g1.live && Can(g1, Free(a))
      && Apply(g1, Free(a)).used == g.used && Apply(g1, Free(a)).live == g.live
  {
    ItemOfAddr(Marked(g, i), i);
    assert Addr(Marked(g, i), i) == Addr(g, i);
  }

  /** Allocating and freeing at once leaves the same objects held. */
  lemma MallocFree(h: Heap, ops: seq<Op>)
    requires Start(h) && Legal(h, ops) && Shaped(Run(h, ops)) && Result(Run(h, ops)).Some?
    ensures var g := Run(h, ops); var g1 := Apply(g, Malloc); var a := Result(g).value;
      && a in g1.live && Can(g1, Free(a))
      && Apply(g1, Free(a)).used == g.used && Apply(g1, Free(a)).live == g.live
  {
    hide Addr, Item;
    RunInv(h, ops);
    var g := Run(h, ops);
    SearchNearest(g.used, g.last, 1);
    MarkFree(g, Search(g.used, g.last, 1).value);
  }

  /** NULL iff every slot other than the last allocated one is held. */
  lemma NullIff(h: Heap)
    requires Inv(h)
    ensures Result(h) == None <==> forall i: nat :: i < |h.used| && i != h.last ==> Addr(h, i) in h.live
  {
    SearchNearest(h.used, h.last, 1);
  }

  ghost predicate AllHeld(h: Heap) {
    forall i: nat :: i < |h.used| ==> Addr(h, i) in h.live
  }

  /**
    The comment promises NULL only if all objects are allocated.  That holds in
    a state iff the last allocated slot is still held or another slot is free.
  */
  lemma NullAsPromisedIff(h: Heap)
    requires Inv(h)
    ensures (Result(h) == None ==> AllHeld(h)) <==>
            (h.used[h.last] || exists i: nat :: i < |h.used| && i != h.last && !h.used[i])
  {
    NullIff(h);
    if !h.used[h.last] {
      assert Addr(h, h.last) !in h.live;
    }
  }

  lemma OneMore(h: Heap, o: Op, rest: seq<Op>)
    requires Can(h, o) && Legal(Apply(h, o), rest)
    ensures Legal(h, [o] + rest) && Run(h, [o] + rest) == Run(Apply(h, o), rest)
  {
    hide Can, Apply;
    assert ([o] + rest)[1..] == rest;
  }

  /** Two slots, both allocated, and the second allocation freed. */
  lemma FillAndFree()
    ensures var h := Heap(0, 8, [false, false], 0, {}); var ops := [Malloc, Malloc, Free(0)];
      Legal(h, ops) && Run(h, ops) == Heap(0, 8, [false, true], 0, {8})
  {
    var h := Heap(0, 8, [false, false], 0, {});
    var h1 := Heap(0, 8, [false, true], 1, {8});
    var h2 := Heap(0, 8, [true, true], 0, {0, 8});
    assert Search(h.used, 0, 1) == Some(1) && Apply(h, Malloc) == h1;
    assert Search(h1.used, 1, 1) == Some(0) && Apply(h1, Malloc) == h2;
    assert Item(h2, 0) == 0;
    OneMore(h2, Free(0), []);
    OneMore(h1, Malloc, [Free(0)]);
    OneMore(h, Malloc, [Malloc, Free(0)]);
  }

  /** That run breaks the promise. */
  lemma NullWithAFreeSlot()
    ensures exists h, ops :: Start(h) && Legal(h, ops) && Shaped(Run(h, ops))
              && Result(Run(h, ops)) == None && !AllHeld(Run(h, ops))
  {
    hide Legal, Run;
    var h, ops := Heap(0, 8, [false, false], 0, {}), [Malloc, Malloc, Free(0)];
    FillAndFree();
    var g := Run(h, ops);
    assert Search(g.used, 0, 1) == Search(g.used, 0, 2) == None;
    assert Addr(g, 0) !in g.live;
    assert Start(h) && Legal(h, ops);
  }

  // ----------------------------------------------------------- the code itself

  class Pool {
    const base: nat
    const size: nat
    const bitmap: array<bool>
    var lastIndex: nat
    ghost var live: set<nat>

    ghost predicate Valid()
      reads this, bitmap
    {
      Inv(View())
    }

    ghost function View(): Heap
      reads this, bitmap
    {
      Heap(base, size, bitmap[..], lastIndex, live)
    }

    constructor (base: nat, size: nat, n: nat)
      requires 0 < n && 0 < size
      ensures Valid() && Start(View()) && fresh(bitmap) && bitmap.Length == n
    {
      this.base, this.size := base, size;
      bitmap := new bool[n](_ => false);
      lastIndex := 0;
      live := {};
    }

    /** The scan: the slot it stops at, which is `lastIndex` itself when nothing was found. */
    method Scan() returns (i: nat)
      requires lastIndex < bitmap.Length
      ensures i < bitmap.Length
      ensures Search(bitmap[..], lastIndex, 1) == if i == lastIndex then None else Some(i)
    {
      var start, n := lastIndex, bitmap.Length;
      i := start;
      ghost var k := 0;
      while true
        invariant 0 <= k < n && i == if k == 0 then start else Probe(n, start, k)
        invariant Search(bitmap[..], start, 1) == Search(bitmap[..], start, k + 1)
        decreases n - k
      {
        i := i + 1;
        if i > n - 1 {
          i := 0;
        }
        k := k + 1;
        if !bitmap[i] || i == start {
          break;
        }
      }
    }

    /** ipc_malloc: an address, or None for NULL. */
    method Malloc() returns (r: Option<nat>)
      requires Valid()
      modifies this, bitmap
      ensures Valid() && View() == Apply(old(View()), Op.Malloc)
      ensures r == Result(old(View()))
    {
      hide Inv, Search;
      InvShaped(View());
      MallocInv(View());
      var i := Scan();
      if i == lastIndex {
        return None;
      }
      bitmap[i] := true;
      lastIndex := i;
      live := live + {base + i * size};
      r := Some(base + i * size);
    }

    /** ipc_free of an object held by the caller. */
    method Free(addr: nat)
      requires Valid() && addr in live
      modifies this, bitmap
      ensures Valid() && Can(old(View()), Op.Free(addr)) && View() == Apply(old(View()), Op.Free(addr))
    {
      ghost var i: nat :| i < |View().used| && addr == Addr(View(), i);
      ItemOfAddr(View(), i);
      FreeInv(View(), addr);
      var item := (addr - base) / size;
      bitmap[item] := false;
      live := live - {addr};
    }
  }
}
