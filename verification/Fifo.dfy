/**
  The byte FIFO of fio: a power-of-two buffer indexed by masking two
  free-running 32-bit counters, shown to be a plain byte sequence even when the
  counters wrap at 2^32.
*/
module Fifo {
  import opened Arith

  type byte = x: int | 0 <= x < 256

  /** Unsigned 32-bit arithmetic. */
  function Wrap(x: int): (r: nat)
    ensures r < W32
  {
    x % W32
  }

  // --------------------------------------------------------------- masking

  /** Bitwise and of two unsigned integers. */
  function And(x: nat, y: nat): nat
    decreases x
  {
    if x == 0 || y == 0 then 0
    else 2 * And(x / 2, y / 2) + if x % 2 == 1 && y % 2 == 1 then 1 else 0
  }

  lemma HalfMod(x: nat, m: nat)
    requires m > 0
    ensures x % (2 * m) == 2 * (x / 2 % m) + x % 2
  {
    var q := x / 2 / m;
    var r := x / 2 % m;
    assert x / 2 == q * m + r;
    assert x == q * (2 * m) + (2 * r + x % 2);
    ModUnique(x, 2 * m, q, 2 * r + x % 2);
  }

  lemma ModUnique(x: nat, m: nat, q: nat, r: nat)
    requires x == q * m + r && r < m
    ensures x % m == r
  {
    var k := x / m;
    assert x == k * m + x % m;
    if k < q {
      Spaced(k, q, m);
    } else if q < k {
      Spaced(q, k, m);
    }
  }

  /** Masking with a power of two less one is the remainder. */
  lemma {:induction false} MaskIsMod(x: nat, e: nat)
    ensures Pow2(e) > 0 && And(x, Pow2(e) - 1) == x % Pow2(e)
    decreases e
  {
    if e > 0 {
      MaskIsMod(x / 2, e - 1);
      HalfMod(x, Pow2(e - 1));
      assert (Pow2(e) - 1) / 2 == Pow2(e - 1) - 1;
      assert (Pow2(e) - 1) % 2 == 1;
    }
  }

  ghost predicate IsPow2(n: nat) {
    exists e: nat :: n == Pow2(e)
  }

  ghost predicate MaskWorks(n: nat)
    requires n > 0
  {
    forall x: nat :: And(x, n - 1) == x % n
  }

  lemma {:induction false} AndIdem(x: nat)
    ensures And(x, x) == x
  {
    if x > 0 {
      AndIdem(x / 2);
    }
  }

  /** An odd number n > 1 fails at x = n: the mask keeps the upper bits. */
  lemma OddFails(n: nat)
    requires n > 1 && n % 2 == 1
    ensures !MaskWorks(n)
  {
    assert n % n == 0;
    AndIdem(n / 2);
    assert (n - 1) / 2 == n / 2;
  }

  /** Size six: the counter 6 is masked to offset 4 and not to 0. */
  lemma MaskFails()
    ensures And(6, 5) == 4 && 6 % 6 == 0
  {
    assert And(1, 1) == 1 && And(3, 2) == 2;
  }

  lemma HalfWorks(n: nat)
    requires n > 0 && MaskWorks(2 * n)
    ensures MaskWorks(n)
  {
    forall x: nat ensures And(x, n - 1) == x % n {
      assert And(2 * x, 2 * n - 1) == 2 * x % (2 * n);
      HalfMod(2 * x, n);
      assert (2 * n - 1) / 2 == n - 1;
    }
  }

  /** The mask of a size is the remainder for every counter iff the size is a power of two. */
  lemma {:induction false} MaskWorksIff(n: nat)
    requires n > 0
    ensures MaskWorks(n) <==> IsPow2(n)
    decreases n
  {
    if IsPow2(n) {
      var e: nat :| n == Pow2(e);
      forall x: nat ensures And(x, n - 1) == x % n {
        MaskIsMod(x, e);
      }
    } else if MaskWorks(n) {
      assert n != 1 by {
        assert Pow2(0) == 1;
      }
      if n % 2 == 1 {
        OddFails(n);
        assert false;
      } else {
        var m: nat := n / 2;
        HalfWorks(m);
        MaskWorksIff(m);
        var e: nat :| m == Pow2(e);
        assert n == Pow2(e + 1);
      }
    }
  }

  lemma {:induction false} PowPositive(e: nat)
    ensures Pow2(e) > 0
  {
    if e > 0 {
      PowPositive(e - 1);
    }
  }

  lemma {:induction false} PowAdd(d: nat, e: nat)
    ensures Pow2(d + e) == Pow2(d) * Pow2(e)
  {
    if d > 0 {
      PowAdd(d - 1, e);
      assert Pow2(d + e) == 2 * (Pow2(d - 1) * Pow2(e));
    }
  }

  lemma {:induction false} PowGrows(d: nat, e: nat)
    requires d < e
    ensures Pow2(d) < Pow2(e)
  {
    PowPositive(e - 1);
    if d < e - 1 {
      PowGrows(d, e - 1);
    }
  }

  lemma PowHalves(e: nat)
    ensures Pow2(e + 8) == 256 * Pow2(e)
  {
    assert Pow2(e + 8) == 2 * Pow2(e + 7) == 4 * Pow2(e + 6);
    assert Pow2(e + 6) == 2 * Pow2(e + 5) == 4 * Pow2(e + 4);
    assert Pow2(e + 4) == 2 * Pow2(e + 3) == 4 * Pow2(e + 2);
    assert Pow2(e + 2) == 2 * Pow2(e + 1) == 4 * Pow2(e);
  }

  lemma WordIsPow()
    ensures W32 == Pow2(32)
  {
    PowHalves(0);
    PowHalves(8);
    PowHalves(16);
    PowHalves(24);
  }

  /** A power of two that fits in 32 bits divides 2^32. */
  lemma SizeDivides(size: nat) returns (c: nat)
    requires IsPow2(size) && size < W32
    ensures size > 0 && W32 == c * size
  {
    var e: nat :| size == Pow2(e);
    WordIsPow();
    PowPositive(e);
    if e > 32 {
      PowGrows(32, e);
    }
    PowAdd(32 - e, e);
    c := Pow2(32 - e);
  }

  // ------------------------------------------------------- slots of the ring

  /** The slot k places after offset o, for o, k < size or k == size. */
  function Slot(size: nat, o: nat, k: nat): nat {
    if o + k < size then o + k else o + k - size
  }

  /** Advancing a counter modulo 2^32 advances its masked offset round the ring. */
  lemma Advance(size: nat, out: nat, k: nat)
    requires IsPow2(size) && 0 < size < W32 && k <= size
    ensures And(out, size - 1) < size
    ensures And(Wrap(out + k), size - 1) == Slot(size, And(out, size - 1), k)
  {
    var c := SizeDivides(size);
    MaskWorksIff(size);
    var sum, q := Wrap(out + k), (out + k) / W32;
    assert And(out, size - 1) == out % size && And(sum, size - 1) == sum % size;
    assert out + k == q * (c * size) + sum;
    Rounds(size, c, q, sum, out, k);
  }

  lemma Distribute(a: nat, b: nat, m: nat)
    ensures (a + b) * m == a * m + b * m
  {
  }

  lemma Associate(a: nat, b: nat, m: nat)
    ensures a * (b * m) == (a * b) * m
  {
  }

  lemma SameRest(m: nat, d: nat, o: nat, f: nat, r: nat)
    requires d * m + o == f * m + r && o < m && r < m
    ensures o == r
  {
    if d < f { Spaced(d, f, m); } else if f < d { Spaced(f, d, m); }
  }

  lemma Rounds(size: nat, c: nat, q: nat, sum: nat, out: nat, k: nat)
    requires size > 0 && k <= size && out + k == q * (c * size) + sum
    ensures sum % size == Slot(size, out % size, k)
  {
    var d, o := out / size, out % size;
    var e, r := sum / size, sum % size;
    var a := q * c;
    Associate(q, c, size);
    Distribute(a, e, size);
    Distribute(d, 1, size);
    Regroup(d * size, e * size, a * size, out, sum, k, o, r);
    if o + k < size {
      SameRest(size, d, o + k, a + e, r);
    } else {
      SameRest(size, d + 1, o + k - size, a + e, r);
    }
  }

  lemma Regroup(dm: int, em: int, am: int, out: int, sum: int, k: int, o: int, r: int)
    requires out == dm + o && sum == em + r && out + k == am + sum
    ensures dm + o + k == am + em + r
  {
  }

  // ------------------------------------------------------------------- FIFO

  /** Position k of the contents is in slot k after `out`. */
  ghost predicate InSlots(buffer: seq<byte>, o: nat, contents: seq<byte>) {
    && o < |buffer| && |contents| <= |buffer|
    && forall k :: 0 <= k < |contents| ==> contents[k] == buffer[Slot(|buffer|, o, k)]
  }

  function Min(x: nat, y: nat): nat {
    if x <= y then x else y
  }

  class Fifo {
    const size: nat
    const buffer: array<byte>
    var in_: nat
    var out: nat
    ghost var contents: seq<byte>

    /** Counters are 32-bit and may have wrapped; their difference is the length. */
    ghost predicate Valid()
      reads this, buffer
    {
      && IsPow2(size) && 0 < size < W32 && buffer.Length == size && out < W32
      && |contents| <= size && in_ == Wrap(out + |contents|)
      && InSlots(buffer[..], And(out, size - 1), contents)
    }

    constructor (size: nat)
      requires IsPow2(size) && 0 < size < W32
      ensures Valid() && contents == [] && this.size == size && fresh(buffer)
    {
      this.size := size;
      buffer := new byte[size];
      in_, out := 0, 0;
      contents := [];
    }

    /** fifo_len, by unsigned subtraction. */
    method Len() returns (n: nat)
      requires Valid()
      ensures n == |contents|
    {
      n := Wrap(in_ - out);
    }

    /** fifo_room, by unsigned arithmetic. */
    method Room() returns (n: nat)
      requires Valid()
      ensures n == size - |contents|
    {
      n := Wrap(size - in_ + out);
    }

    /** The two memcpy calls of a put of n bytes at offset p. */
    method CopyIn(data: seq<byte>, n: nat, p: nat)
      requires n <= |data| && n <= buffer.Length && p < buffer.Length
      modifies buffer
      ensures Copied(old(buffer[..]), buffer[..], data[..n], p)
    {
      var l := Min(n, buffer.Length - p);
      forall j | 0 <= j < l {
        buffer[p + j] := data[j];
      }
      forall j | 0 <= j < n - l {
        buffer[j] := data[l + j];
      }
    }

    /** fifo_put appends the longest prefix that fits. */
    method Put(data: seq<byte>) returns (n: nat)
      requires Valid()
      modifies this, buffer
      ensures Valid() && n == Min(|data|, size - old(|contents|))
      ensures contents == old(contents) + data[..n]
    {
      hide And, IsPow2, InSlots, Copied, Wrap, Slot;
      Advance(size, out, |contents|);
      SlotInside(buffer[..], And(out, size - 1), contents);
      var room := Room();
      n := Min(|data|, room);
      CopyIn(data, n, And(in_, size - 1));
      CounterPut(out, |contents|, n);
      PutSlots(old(buffer[..]), buffer[..], And(out, size - 1), contents, data[..n], And(in_, size - 1));
      in_ := Wrap(in_ + n);
      contents := contents + data[..n];
    }

    /** The two memcpy calls of a get of n bytes. */
    method CopyOut(n: nat) returns (data: seq<byte>)
      requires Valid() && n <= |contents|
      ensures data == contents[..n]
    {
      hide IsPow2, Wrap;
      Advance(size, out, n);
      var p := And(out, size - 1);
      var l := Min(n, size - p);
      GetSlots(buffer[..], p, contents, n);
      data := buffer[p..p + l] + buffer[..n - l];
    }

    /** fifo_get removes a prefix; without a destination the bytes are dropped. */
    method Get(len: nat, keep: bool) returns (n: nat, data: seq<byte>)
      requires Valid()
      modifies this
      ensures Valid() && n == Min(len, old(|contents|))
      ensures data == if keep then old(contents)[..n] else []
      ensures contents == old(contents)[n..]
      ensures contents == [] ==> in_ == 0 && out == 0
    {
      hide And, IsPow2, InSlots, Wrap, Slot;
      var avail := Len();
      n := Min(len, avail);
      data := [];
      if keep {
        data := CopyOut(n);
      }
      Advance(size, out, n);
      GetSlots(buffer[..], And(out, size - 1), contents, n);
      CounterGet(out, |contents|, n);
      NoSlots(buffer[..]);
      out := Wrap(out + n);
      contents := contents[n..];
      if in_ == out {
        in_, out := 0, 0;
      }
    }
  }

  lemma CounterPut(out: nat, len: nat, n: nat)
    ensures Wrap(Wrap(out + len) + n) == Wrap(out + (len + n))
  {
  }

  lemma CounterGet(out: nat, len: nat, n: nat)
    requires n <= len < W32
    ensures Wrap(out + len) == Wrap(Wrap(out + n) + (len - n))
    ensures Wrap(out + len) == Wrap(out + n) <==> len == n
    ensures Wrap(0) == 0
  {
  }

  lemma SlotInside(buffer: seq<byte>, o: nat, contents: seq<byte>)
    requires InSlots(buffer, o, contents)
    ensures Slot(|buffer|, o, |contents|) < |buffer|
  {
  }

  lemma NoSlots(buffer: seq<byte>)
    requires |buffer| > 0
    ensures And(0, |buffer| - 1) == 0 && InSlots(buffer, 0, [])
  {
  }

  /** What a put leaves in the buffer: the data from slot p on, wrapping once, the rest untouched. */
  ghost predicate Copied(before: seq<byte>, after: seq<byte>, data: seq<byte>, p: nat) {
    && |after| == |before| && p < |before|
    && var l := Min(|data|, |before| - p);
       && |data| - l <= |before|
       && (forall j :: 0 <= j < l ==> after[p + j] == data[j])
       && (forall j :: 0 <= j < |data| - l ==> after[j] == data[l + j])
       && (forall i :: |data| - l <= i < |before| && !(p <= i < p + l) ==> after[i] == before[i])
  }

  lemma PutSlots(before: seq<byte>, after: seq<byte>, o: nat, contents: seq<byte>, data: seq<byte>, p: nat)
    requires InSlots(before, o, contents) && |contents| + |data| <= |before|
    requires p == Slot(|before|, o, |contents|) && Copied(before, after, data, p)
    ensures InSlots(after, o, contents + data)
  {
  }

  lemma GetSlots(buffer: seq<byte>, o: nat, contents: seq<byte>, n: nat)
    requires InSlots(buffer, o, contents) && n <= |contents|
    ensures InSlots(buffer, Slot(|buffer|, o, n), contents[n..])
    ensures var l := Min(n, |buffer| - o); buffer[o..o + l] + buffer[..n - l] == contents[..n]
  {
  }
}
