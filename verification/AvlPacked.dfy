/**
  The packed form of a node's parent link, child index and balance: one 64-bit
  word with the balance plus one in bits 0-1, the child index in bit 2 and the
  8-byte aligned parent address in the bits above.
*/
module AvlPacked {

  type Word = bv64

  /** The three-field form. */
  datatype Fields = Fields(parent: Word, which: Word, bal: int)

  // ------------------------------------------------------------ the macros

  /** AVL_XPARENT, AVL_XCHILD, AVL_XBALANCE */
  function XParent(w: Word): Word {
    w & !7
  }

  function XChild(w: Word): Word {
    (w >> 2) & 1
  }

  function XBalance(w: Word): int {
    Decode(w & 3)
  }

  /** The value of a two-bit pattern minus one. */
  function Decode(b: Word): int {
    if b == 0 then -1 else if b == 1 then 0 else if b == 2 then 1 else 2
  }

  /** AVL_SETPARENT, AVL_SETCHILD, AVL_SETBALANCE */
  function SetParent(w: Word, p: Word): Word {
    (w & 7) | p
  }

  function SetChild(w: Word, c: Word): Word {
    (w & !4) | (c << 2)
  }

  /** The balance plus one as a bit pattern. */
  function Encode(b: int): Word
    requires -1 <= b <= 1
  {
    if b == -1 then 0 else if b == 0 then 1 else 2
  }

  function SetBalance(w: Word, b: int): Word
    requires -1 <= b <= 1
  {
    StoreLow(w, Encode(b))
  }

  function StoreLow(w: Word, e: Word): Word {
    (w & !3) | e
  }

  /** What the getters see of a word. */
  function Unpack(w: Word): Fields {
    Fields(XParent(w), XChild(w), XBalance(w))
  }

  // ------------------------------------------------------------ operations

  datatype Op = Parent(p: Word) | Child(c: Word) | Balance(b: int)

  predicate LegalOp(op: Op) {
    match op
    case Parent(p) => p & 7 == 0
    case Child(c) => c == 0 || c == 1
    case Balance(b) => -1 <= b <= 1
  }

  /** The same store on the packed word and on the three fields. */
  function OnWord(w: Word, op: Op): Word
    requires LegalOp(op)
  {
    match op
    case Parent(p) => SetParent(w, p)
    case Child(c) => SetChild(w, c)
    case Balance(b) => SetBalance(w, b)
  }

  function OnFields(f: Fields, op: Op): Fields {
    match op
    case Parent(p) => f.(parent := p)
    case Child(c) => f.(which := c)
    case Balance(b) => f.(bal := b)
  }

  function RunWord(w: Word, ops: seq<Op>): Word
    requires forall op :: op in ops ==> LegalOp(op)
  {
    if ops == [] then w else OnWord(RunWord(w, ops[..|ops| - 1]), ops[|ops| - 1])
  }

  function RunFields(f: Fields, ops: seq<Op>): Fields {
    if ops == [] then f else OnFields(RunFields(f, ops[..|ops| - 1]), ops[|ops| - 1])
  }

  // ---------------------------------------------------------------- refinement

  lemma ParentBits(w: Word, p: Word)
    requires p & 7 == 0
    ensures ((w & 7) | p) & !7 == p
    ensures (((w & 7) | p) >> 2) & 1 == (w >> 2) & 1
    ensures ((w & 7) | p) & 3 == w & 3
  {
  }

  lemma ChildBits(w: Word, c: Word)
    requires c == 0 || c == 1
    ensures ((w & !4) | (c << 2)) & !7 == w & !7
    ensures (((w & !4) | (c << 2)) >> 2) & 1 == c
    ensures ((w & !4) | (c << 2)) & 3 == w & 3
  {
  }

  lemma BalanceBits(w: Word, b: Word)
    requires b == 0 || b == 1 || b == 2
    ensures ((w & !3) | b) & !7 == w & !7
    ensures (((w & !3) | b) >> 2) & 1 == (w >> 2) & 1
    ensures ((w & !3) | b) & 3 == b
  {
  }

  lemma ParentStore(w: Word, p: Word)
    requires p & 7 == 0
    ensures Unpack(SetParent(w, p)) == Unpack(w).(parent := p)
  {
    hide Decode, SetParent, XParent, XChild;
    ParentGetters(w, p);
  }

  lemma ParentGetters(w: Word, p: Word)
    requires p & 7 == 0
    ensures XParent(SetParent(w, p)) == p && XChild(SetParent(w, p)) == XChild(w)
    ensures SetParent(w, p) & 3 == w & 3
  {
    ParentBits(w, p);
  }

  lemma ChildStore(w: Word, c: Word)
    requires c == 0 || c == 1
    ensures Unpack(SetChild(w, c)) == Unpack(w).(which := c)
  {
    hide Decode, SetChild, XParent, XChild;
    ChildGetters(w, c);
  }

  lemma ChildGetters(w: Word, c: Word)
    requires c == 0 || c == 1
    ensures XParent(SetChild(w, c)) == XParent(w) && XChild(SetChild(w, c)) == c
    ensures SetChild(w, c) & 3 == w & 3
  {
    ChildBits(w, c);
  }

  lemma BalanceStore(w: Word, b: int)
    requires -1 <= b <= 1
    ensures Unpack(SetBalance(w, b)) == Unpack(w).(bal := b)
  {
    hide Decode, Encode, StoreLow, XParent, XChild;
    EncodeDecode(b);
    LowStore(w, Encode(b));
  }

  lemma LowStore(w: Word, e: Word)
    requires e == 0 || e == 1 || e == 2
    ensures XParent(StoreLow(w, e)) == XParent(w) && XChild(StoreLow(w, e)) == XChild(w)
    ensures StoreLow(w, e) & 3 == e
  {
    BalanceBits(w, e);
  }

  lemma EncodeDecode(b: int)
    requires -1 <= b <= 1
    ensures Decode(Encode(b)) == b && (Encode(b) == 0 || Encode(b) == 1 || Encode(b) == 2)
  {
  }

  /** One store: the getters see it in its field and see the other fields unchanged. */
  lemma StoreRefines(w: Word, op: Op)
    requires LegalOp(op)
    ensures Unpack(OnWord(w, op)) == OnFields(Unpack(w), op)
  {
    hide XParent, XChild, XBalance, SetParent, SetChild, SetBalance;
    match op
    case Parent(p) => ParentStore(w, p);
    case Child(c) => ChildStore(w, c);
    case Balance(b) => BalanceStore(w, b);
  }

  /** Any sequence of stores: the packed word behaves like the three-field struct. */
  lemma {:induction false} RunRefines(w: Word, ops: seq<Op>)
    requires forall op :: op in ops ==> LegalOp(op)
    ensures Unpack(RunWord(w, ops)) == RunFields(Unpack(w), ops)
  {
    if ops != [] {
      RunRefines(w, ops[..|ops| - 1]);
      StoreRefines(RunWord(w, ops[..|ops| - 1]), ops[|ops| - 1]);
    }
  }

  /** The three stores of avl_insert overwrite whatever the word held before. */
  lemma FreshNode(w: Word, p: Word, c: Word, b: int)
    requires LegalOp(Parent(p)) && LegalOp(Child(c)) && LegalOp(Balance(b))
    ensures Unpack(SetParent(SetBalance(SetChild(w, c), b), p)) == Fields(p, c, b)
  {
    StoreRefines(w, Child(c));
    StoreRefines(SetChild(w, c), Balance(b));
    StoreRefines(SetBalance(SetChild(w, c), b), Parent(p));
  }

  /** The word is the parent, the child index in bit 2 and the balance plus one in bits 0-1. */
  lemma WordLayout(w: Word)
    ensures w == XParent(w) | (XChild(w) << 2) | (w & 3)
    ensures XBalance(w) == -1 <==> w & 3 == 0
    ensures XBalance(w) == 0 <==> w & 3 == 1
    ensures XBalance(w) == 1 <==> w & 3 == 2
  {
    WordBits(w);
  }

  lemma WordBits(w: Word)
    ensures w == (w & !7) | (((w >> 2) & 1) << 2) | (w & 3)
  {
  }

  // --------------------------------------------------------- index cookies

  /** AVL_MKINDEX, AVL_INDEX2NODE, AVL_INDEX2CHILD */
  function MkIndex(n: Word, c: Word): Word {
    n | c
  }

  function IndexNode(x: Word): Word {
    x & !1
  }

  function IndexChild(x: Word): Word {
    x & 1
  }

  /** The cookie gives back the node and the child index, so no two pairs share a cookie. */
  lemma IndexRoundTrip(n: Word, c: Word)
    requires n & 7 == 0 && (c == 0 || c == 1)
    ensures IndexNode(MkIndex(n, c)) == n && IndexChild(MkIndex(n, c)) == c
  {
  }
}
