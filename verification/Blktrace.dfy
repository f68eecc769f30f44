/**
  The refill front end of fio's blktrace loader and its load loop: trace
  records and their payloads are cut out of a file through the FIFO.  What each
  read(2) returns is an oracle.
*/
module Blktrace {
  import opened Arith
  import opened Fifo

  const TRACE_FIFO_SIZE: nat := 8192
  const HEADER: nat := 48                     // sizeof(struct blk_io_trace)
  const MAGIC: nat := 0x6561_7400
  const VERSION: nat := 7

  // -------------------------------------------------------------- the format

  function Shift(high: nat, low: byte): nat {
    high * 256 + low
  }

  /** The 32-bit magic field, byte-swapped if need be (little-endian host). */
  function MagicField(h: seq<byte>, swap: bool): nat
    requires |h| == HEADER
  {
    if swap then Shift(Shift(Shift(h[0], h[1]), h[2]), h[3])
    else Shift(Shift(Shift(h[3], h[2]), h[1]), h[0])
  }

  /** The 16-bit pdu_len field, the header's last. */
  function PduLen(h: seq<byte>, swap: bool): nat
    requires |h| == HEADER
  {
    if swap then Shift(h[46], h[47]) else Shift(h[47], h[46])
  }

  predicate GoodHeader(h: seq<byte>, swap: bool) {
    && |h| == HEADER
    && MagicField(h, swap) / 256 * 256 == MAGIC && MagicField(h, swap) % 256 == VERSION
  }

  function Reversed(s: seq<byte>): (r: seq<byte>)
    ensures |r| == |s| && forall i :: 0 <= i < |s| ==> r[i] == s[|s| - 1 - i]
  {
    if s == [] then [] else Reversed(s[1..]) + [s[0]]
  }

  /** byteswap_trace: the bytes of each of the eleven fields in reverse order. */
  function SwapHeader(h: seq<byte>): seq<byte>
    requires |h| == HEADER
  {
    Reversed(h[0..4]) + Reversed(h[4..8]) + Reversed(h[8..16]) + Reversed(h[16..24]) +
    Reversed(h[24..28]) + Reversed(h[28..32]) + Reversed(h[32..36]) + Reversed(h[36..40]) +
    Reversed(h[40..44]) + Reversed(h[44..46]) + Reversed(h[46..48])
  }

  /** Reading a foreign header is reading the swapped header natively. */
  lemma SwappedFields(h: seq<byte>)
    requires |h| == HEADER
    ensures |SwapHeader(h)| == HEADER
    ensures MagicField(h, true) == MagicField(SwapHeader(h), false)
    ensures PduLen(h, true) == PduLen(SwapHeader(h), false)
    ensures GoodHeader(h, true) <==> GoodHeader(SwapHeader(h), false)
  {
    var g := SwapHeader(h);
    assert g[0] == h[3] && g[1] == h[2] && g[2] == h[1] && g[3] == h[0];
    assert g[46] == h[47] && g[47] == h[46];
  }

  datatype Record = Record(header: seq<byte>, pdu: seq<byte>)

  predicate GoodRecord(r: Record, swap: bool) {
    GoodHeader(r.header, swap) && |r.pdu| == PduLen(r.header, swap)
  }

  function Encode(rs: seq<Record>): seq<byte> {
    if rs == [] then [] else rs[0].header + rs[0].pdu + Encode(rs[1..])
  }

  function Headers(rs: seq<Record>): seq<seq<byte>> {
    if rs == [] then [] else [rs[0].header] + Headers(rs[1..])
  }

  /** The complete records at the front of a trace, by the format alone. */
  function Walk(rest: seq<byte>, swap: bool): seq<seq<byte>>
    decreases |rest|
  {
    if |rest| < HEADER || !GoodHeader(rest[..HEADER], swap) then []
    else
      var h := rest[..HEADER];
      var next := HEADER + PduLen(h, swap);
      if next <= |rest| then [h] + Walk(rest[next..], swap) else []
  }

  /** What loading gives: the headers handled, and whether it ended without an error. */
  datatype Outcome = Outcome(headers: seq<seq<byte>>, ok: bool)

  function Prepend(h: seq<byte>, o: Outcome): Outcome {
    o.(headers := [h] + o.headers)
  }

  /** The loader's result when every read returns all it can: a payload larger than the FIFO is an error. */
  function Parse(rest: seq<byte>, swap: bool): Outcome
    decreases |rest|
  {
    if |rest| < HEADER then Outcome([], true)
    else if !GoodHeader(rest[..HEADER], swap) then Outcome([], false)
    else
      var h := rest[..HEADER];
      var next := HEADER + PduLen(h, swap);
      if PduLen(h, swap) <= TRACE_FIFO_SIZE && next <= |rest| then Prepend(h, Parse(rest[next..], swap))
      else Outcome([], false)
  }

  predicate AllGood(rs: seq<Record>, swap: bool) {
    forall i :: 0 <= i < |rs| ==> GoodRecord(rs[i], swap)
  }

  predicate AllFit(rs: seq<Record>) {
    forall i :: 0 <= i < |rs| ==> |rs[i].pdu| <= TRACE_FIFO_SIZE
  }

  /** With full reads a well-formed trace loads exactly iff none of its payloads is larger than the FIFO. */
  lemma {:induction false} RoundTrip(rs: seq<Record>, swap: bool)
    requires AllGood(rs, swap)
    ensures Parse(Encode(rs), swap) == Outcome(Headers(rs), true) <==> AllFit(rs)
    ensures Walk(Encode(rs), swap) == Headers(rs)
  {
    hide GoodHeader, PduLen;
    if rs != [] {
      var r, e := rs[0], Encode(rs);
      GoodFacts(r, swap);
      var next := HEADER + |r.pdu|;
      assert e[..HEADER] == r.header;
      assert e[next..] == Encode(rs[1..]);
      RoundTrip(rs[1..], swap);
      assert AllFit(rs) <==> |r.pdu| <= TRACE_FIFO_SIZE && AllFit(rs[1..]) by {
        assert forall i :: 1 <= i < |rs| ==> rs[i] == rs[1..][i - 1];
      }
      HeadersTail([r.header], Headers(rs[1..]), Parse(e[next..], swap).headers);
    }
  }

  /** A header with the right magic and version and the given bytes of pdu_len. */
  function TraceHeader(low: byte, high: byte): seq<byte> {
    [7, 0x74, 0x61, 0x65] + seq(42, _ => 0) + [low, high]
  }

  lemma TraceHeaderGood(low: byte, high: byte)
    ensures GoodHeader(TraceHeader(low, high), false)
    ensures PduLen(TraceHeader(low, high), false) == Shift(high, low)
  {
    var h := TraceHeader(low, high);
    assert |h| == HEADER;
    assert h[0] == 7 && h[1] == 0x74 && h[2] == 0x61 && h[3] == 0x65 && h[46] == low && h[47] == high;
    assert MagicField(h, false) == 0x6561_7407;
    assert 0x6561_7407 / 256 * 256 == MAGIC && 0x6561_7407 % 256 == VERSION;
  }

  /** A payload one byte too long for the FIFO: a well-formed trace that cannot be loaded, even with full reads. */
  lemma LargePayload()
    ensures var r := Record(TraceHeader(0x01, 0x20), seq(TRACE_FIFO_SIZE + 1, _ => 0));
      && GoodRecord(r, false) && Walk(Encode([r]), false) == [r.header]
      && Parse(Encode([r]), false) == Outcome([], false)
  {
    hide GoodHeader, PduLen, TraceHeader;
    TraceHeaderGood(0x01, 0x20);
    var r := Record(TraceHeader(0x01, 0x20), seq(TRACE_FIFO_SIZE + 1, _ => 0));
    GoodFacts(r, false);
    RoundTrip([r], false);
    assert [r][1..] == [];
    assert Headers([r]) == [r.header];
    assert Encode([r])[..HEADER] == r.header;
  }

  lemma GoodFacts(r: Record, swap: bool)
    requires GoodRecord(r, swap)
    ensures |r.header| == HEADER && GoodHeader(r.header, swap) && |r.pdu| == PduLen(r.header, swap)
  {
  }

  lemma HeadersTail(h: seq<seq<byte>>, a: seq<seq<byte>>, b: seq<seq<byte>>)
    ensures h + a == h + b <==> a == b
  {
    if h + a == h + b {
      assert a == (h + a)[|h|..] == (h + b)[|h|..] == b;
    }
  }

  // ------------------------------------------------------------ the front end

  lemma TraceSize()
    ensures IsPow2(TRACE_FIFO_SIZE)
  {
    assert Pow2(13) == 8 * Pow2(10) && Pow2(10) == 32 * Pow2(5);
    assert TRACE_FIFO_SIZE == Pow2(13);
  }

  /** Every read returns as much as was asked for and the file still holds. */
  ghost predicate FullReads(gives: nat -> int) {
    forall i: nat :: gives(i) >= TRACE_FIFO_SIZE
  }

  // ---------------------------------------------------- loading by any reads

  /** What a get returned, how many bytes the FIFO holds after it, and how many reads there were. */
  datatype Fetched = Fetched(ret: int, held: nat, calls: nat)

  /** A get of len bytes with n bytes of the trace to come, `held` of them in the FIFO: it refills at most once. */
  function Fetch(gives: nat -> int, n: nat, held: nat, calls: nat, len: nat): (f: Fetched)
    requires held <= n && held <= TRACE_FIFO_SIZE
    ensures 0 <= f.ret ==> f.ret <= len && f.ret + f.held <= n
    ensures f.held <= TRACE_FIFO_SIZE
  {
    if held >= len then Fetched(len, held - len, calls)
    else if gives(calls) < 0 then Fetched(-1, held, calls + 1)
    else
      var have := held + Min(gives(calls), Min(TRACE_FIFO_SIZE - held, n - held));
      Fetched(Min(len, have), have - Min(len, have), calls + 1)
  }

  function FetchPdu(gives: nat -> int, n: nat, held: nat, calls: nat, len: nat): (f: Fetched)
    requires held <= n && held <= TRACE_FIFO_SIZE
    ensures 0 <= f.ret ==> f.ret <= len && f.ret + f.held <= n
    ensures f.held <= TRACE_FIFO_SIZE
  {
    if len == 0 then Fetched(0, held, calls) else Fetch(gives, n, held, calls, len)
  }

  /** The loader's result for any reads; a header that comes up short ends the load without an error. */
  function LoadFrom(rest: seq<byte>, swap: bool, gives: nat -> int, held: nat, calls: nat): Outcome
    requires held <= |rest| && held <= TRACE_FIFO_SIZE
    decreases |rest|
  {
    var f := Fetch(gives, |rest|, held, calls, HEADER);
    if f.ret < 0 then Outcome([], false)
    else if f.ret < HEADER then Outcome([], true)
    else if !GoodHeader(rest[..HEADER], swap) then Outcome([], false)
    else
      var h := rest[..HEADER];
      var g := FetchPdu(gives, |rest| - HEADER, f.held, f.calls, PduLen(h, swap));
      if g.ret != PduLen(h, swap) then Outcome([], false)
      else Prepend(h, LoadFrom(rest[HEADER + PduLen(h, swap)..], swap, gives, g.held, g.calls))
  }

  /** One turn of the loader. */
  lemma LoadStep(rest: seq<byte>, swap: bool, gives: nat -> int, held: nat, calls: nat)
    requires held <= |rest| && held <= TRACE_FIFO_SIZE
    ensures var o, f := LoadFrom(rest, swap, gives, held, calls), Fetch(gives, |rest|, held, calls, HEADER);
      if f.ret < HEADER then o == Outcome([], f.ret >= 0)
      else if !GoodHeader(rest[..HEADER], swap) then o == Outcome([], false)
      else
        var p := PduLen(rest[..HEADER], swap);
        var g := FetchPdu(gives, |rest| - HEADER, f.held, f.calls, p);
        if g.ret != p then o == Outcome([], false)
        else o == Prepend(rest[..HEADER], LoadFrom(rest[HEADER + p..], swap, gives, g.held, g.calls))
  {
    hide GoodHeader, PduLen, Fetch, FetchPdu;
  }

  /** How loading a well-formed trace ends. */
  datatype Stop = Complete | ShortHeader | ShortPayload | ReadError

  datatype Fate = Fate(handled: nat, stop: Stop)

  /** The length of a trace with payloads of the given lengths. */
  function Length(pdus: seq<nat>): nat {
    if pdus == [] then 0 else HEADER + pdus[0] + Length(pdus[1..])
  }

  /**
    How loading ends, from the lengths of the payloads and of the reads alone: it
    stops at the first get that does not find its bytes after at most one refill.
  */
  function FateOf(pdus: seq<nat>, gives: nat -> int, held: nat, calls: nat): Fate
    requires held <= Length(pdus) && held <= TRACE_FIFO_SIZE
    decreases |pdus|
  {
    var f := Fetch(gives, Length(pdus), held, calls, HEADER);
    if f.ret < 0 then Fate(0, ReadError)
    else if pdus == [] then Fate(0, Complete)
    else if f.ret < HEADER then Fate(0, ShortHeader)
    else
      var g := FetchPdu(gives, Length(pdus) - HEADER, f.held, f.calls, pdus[0]);
      if g.ret < 0 then Fate(0, ReadError)
      else if g.ret < pdus[0] then Fate(0, ShortPayload)
      else
        var r := FateOf(pdus[1..], gives, g.held, g.calls);
        r.(handled := r.handled + 1)
  }

  function PduLengths(rs: seq<Record>): (ns: seq<nat>)
    ensures |ns| == |rs|
  {
    if rs == [] then [] else [|rs[0].pdu|] + PduLengths(rs[1..])
  }

  lemma {:induction false} EncodeLength(rs: seq<Record>, swap: bool)
    requires AllGood(rs, swap)
    ensures |Encode(rs)| == Length(PduLengths(rs)) && |Headers(rs)| == |rs|
  {
    hide GoodHeader, PduLen;
    if rs != [] {
      GoodFacts(rs[0], swap);
      EncodeLength(rs[1..], swap);
      assert PduLengths(rs)[1..] == PduLengths(rs[1..]);
    }
  }

  lemma {:induction false} FateBounds(pdus: seq<nat>, gives: nat -> int, held: nat, calls: nat)
    requires held <= Length(pdus) && held <= TRACE_FIFO_SIZE
    ensures var r := FateOf(pdus, gives, held, calls);
      && r.handled <= |pdus| && (r.stop == Complete ==> r.handled == |pdus|)
      && (r.stop == ShortHeader || r.stop == ShortPayload ==> r.handled < |pdus|)
    decreases |pdus|
  {
    hide Fetch, FetchPdu;
    var f := Fetch(gives, Length(pdus), held, calls, HEADER);
    if pdus != [] && f.ret >= HEADER {
      var g := FetchPdu(gives, Length(pdus) - HEADER, f.held, f.calls, pdus[0]);
      if g.ret == pdus[0] {
        FateBounds(pdus[1..], gives, g.held, g.calls);
      }
    }
  }

  /** Whatever the reads, the records before the stop are loaded; only a short header hides the others. */
  lemma {:induction false} LoadFate(rs: seq<Record>, swap: bool, gives: nat -> int, held: nat, calls: nat)
    requires AllGood(rs, swap) && held <= |Encode(rs)| && held <= TRACE_FIFO_SIZE
    ensures |Encode(rs)| == Length(PduLengths(rs)) && |Headers(rs)| == |rs|
    ensures var r := FateOf(PduLengths(rs), gives, held, calls);
      && r.handled <= |rs|
      && LoadFrom(Encode(rs), swap, gives, held, calls) ==
         Outcome(Headers(rs)[..r.handled], r.stop == Complete || r.stop == ShortHeader)
    decreases |rs|
  {
    hide GoodHeader, PduLen, Fetch, FetchPdu, LoadFrom, GoodRecord;
    EncodeLength(rs, swap);
    FateBounds(PduLengths(rs), gives, held, calls);
    var e := Encode(rs);
    LoadStep(e, swap, gives, held, calls);
    if rs != [] {
      FirstRecord(rs, swap);
      var f := Fetch(gives, |e|, held, calls, HEADER);
      if f.ret >= HEADER {
        var p := |rs[0].pdu|;
        var g := FetchPdu(gives, |e| - HEADER, f.held, f.calls, p);
        if g.ret == p {
          LoadFate(rs[1..], swap, gives, g.held, g.calls);
          Shifted(rs, FateOf(PduLengths(rs[1..]), gives, g.held, g.calls).handled);
        }
      }
    }
  }

  /** The first record of a well-formed trace and what follows it. */
  lemma FirstRecord(rs: seq<Record>, swap: bool)
    requires AllGood(rs, swap) && rs != []
    ensures var e, r := Encode(rs), rs[0];
      && |e| >= HEADER + |r.pdu| && e[..HEADER] == r.header && e[HEADER + |r.pdu|..] == Encode(rs[1..])
      && GoodHeader(r.header, swap) && PduLen(r.header, swap) == |r.pdu|
      && PduLengths(rs)[0] == |r.pdu| && PduLengths(rs)[1..] == PduLengths(rs[1..])
      && Headers(rs)[0] == r.header && AllGood(rs[1..], swap)
  {
    hide GoodHeader, PduLen;
    GoodFacts(rs[0], swap);
  }

  lemma Shifted(rs: seq<Record>, k: nat)
    requires rs != [] && k <= |Headers(rs[1..])|
    ensures [rs[0].header] + Headers(rs[1..])[..k] == Headers(rs)[..k + 1]
  {
  }

  /** A well-formed trace is loaded completely iff every get finds its bytes, and no read fails. */
  lemma CompleteIff(rs: seq<Record>, swap: bool, gives: nat -> int)
    requires AllGood(rs, swap)
    ensures LoadFrom(Encode(rs), swap, gives, 0, 0) == Outcome(Headers(rs), true) <==>
            FateOf(PduLengths(rs), gives, 0, 0).stop == Complete
  {
    hide LoadFrom, FateOf;
    LoadFate(rs, swap, gives, 0, 0);
    FateBounds(PduLengths(rs), gives, 0, 0);
    var k := FateOf(PduLengths(rs), gives, 0, 0).handled;
    assert k == |rs| ==> Headers(rs)[..k] == Headers(rs);
    assert k < |rs| ==> |Headers(rs)[..k]| == k;
  }

  /** The load ends without an error and without all headers iff a header comes up short. */
  lemma SilentIff(rs: seq<Record>, swap: bool, gives: nat -> int)
    requires AllGood(rs, swap)
    ensures var o := LoadFrom(Encode(rs), swap, gives, 0, 0);
      o.ok && o.headers != Headers(rs) <==> FateOf(PduLengths(rs), gives, 0, 0).stop == ShortHeader
  {
    hide LoadFrom, FateOf;
    LoadFate(rs, swap, gives, 0, 0);
    FateBounds(PduLengths(rs), gives, 0, 0);
    var k := FateOf(PduLengths(rs), gives, 0, 0).handled;
    assert k == |rs| ==> Headers(rs)[..k] == Headers(rs);
    assert k < |rs| ==> |Headers(rs)[..k]| == k;
  }

  /** A first read of fewer than 48 bytes: nothing of the trace is loaded, and there is no error. */
  lemma ShortRead(rs: seq<Record>, swap: bool, gives: nat -> int)
    requires AllGood(rs, swap) && rs != [] && 0 <= gives(0) < HEADER
    ensures LoadFrom(Encode(rs), swap, gives, 0, 0) == Outcome([], true) && Headers(rs) != []
  {
    hide LoadFrom, AllGood;
    LoadFate(rs, swap, gives, 0, 0);
    assert Fetch(gives, Length(PduLengths(rs)), 0, 0, HEADER).ret < HEADER;
  }

  /** There are such traces: one record without a payload. */
  lemma SmallTrace()
    ensures AllGood([Record(TraceHeader(0, 0), [])], false)
  {
    TraceHeaderGood(0, 0);
  }

  /** With full reads a get finds all there is, up to the size of the FIFO. */
  lemma FullFetch(gives: nat -> int, n: nat, held: nat, calls: nat, len: nat)
    requires FullReads(gives) && held <= n && held <= TRACE_FIFO_SIZE
    ensures var f := Fetch(gives, n, held, calls, len);
      if len <= TRACE_FIFO_SIZE then f.ret == Min(len, n) else 0 <= f.ret <= TRACE_FIFO_SIZE
  {
  }

  /** With full reads the result is the parse of the file. */
  lemma {:induction false} FullLoad(rest: seq<byte>, swap: bool, gives: nat -> int, held: nat, calls: nat)
    requires FullReads(gives) && held <= |rest| && held <= TRACE_FIFO_SIZE
    ensures LoadFrom(rest, swap, gives, held, calls) == Parse(rest, swap)
    decreases |rest|
  {
    hide GoodHeader, PduLen, FullReads, Fetch, LoadFrom;
    LoadStep(rest, swap, gives, held, calls);
    var f := Fetch(gives, |rest|, held, calls, HEADER);
    FullFetch(gives, |rest|, held, calls, HEADER);
    if f.ret == HEADER && GoodHeader(rest[..HEADER], swap) {
      var p := PduLen(rest[..HEADER], swap);
      FullFetch(gives, |rest| - HEADER, f.held, f.calls, p);
      var g := FetchPdu(gives, |rest| - HEADER, f.held, f.calls, p);
      if g.ret == p {
        FullLoad(rest[HEADER + p..], swap, gives, g.held, g.calls);
      }
    }
  }

  /** Whatever the reads, the headers are a prefix of the trace's records. */
  lemma {:induction false} LoadPrefix(rest: seq<byte>, swap: bool, gives: nat -> int, held: nat, calls: nat)
    requires held <= |rest| && held <= TRACE_FIFO_SIZE
    ensures LoadFrom(rest, swap, gives, held, calls).headers <= Walk(rest, swap)
    decreases |rest|
  {
    hide GoodHeader, PduLen, Fetch, FetchPdu;
    var f := Fetch(gives, |rest|, held, calls, HEADER);
    if f.ret == HEADER && GoodHeader(rest[..HEADER], swap) {
      var p := PduLen(rest[..HEADER], swap);
      var g := FetchPdu(gives, |rest| - HEADER, f.held, f.calls, p);
      if g.ret == p {
        LoadPrefix(rest[HEADER + p..], swap, gives, g.held, g.calls);
      }
    }
  }

  class TraceReader {
    const file: seq<byte>
    const gives: nat -> int        // at most this much comes back from the i-th read; negative is an error
    const fifo: Fifo
    var pos: nat
    var calls: nat
    ghost var delivered: seq<byte> // handed out or discarded so far

    /** Nothing is lost, repeated or reordered. */
    ghost predicate Valid()
      reads this, fifo, fifo.buffer
    {
      && fifo.Valid() && fifo.size == TRACE_FIFO_SIZE && pos <= |file|
      && delivered + fifo.contents == file[..pos]
    }

    constructor (file: seq<byte>, gives: nat -> int)
      ensures Valid() && delivered == [] && this.file == file && this.gives == gives
      ensures fresh(fifo) && fresh(fifo.buffer)
    {
      TraceSize();
      this.file, this.gives := file, gives;
      fifo := new Fifo(TRACE_FIFO_SIZE);
      pos, calls, delivered := 0, 0, [];
    }

    method Refill() returns (ret: int)
      requires Valid()
      modifies this`pos, this`calls, fifo, fifo.buffer
      ensures Valid() && delivered == old(delivered)
      ensures ret >= 0 ==> pos == old(pos) + ret && fifo.contents == old(fifo.contents) + file[old(pos)..pos]
      ensures ret < 0 ==> pos == old(pos) && fifo.contents == old(fifo.contents)
      ensures calls == old(calls) + 1 && (ret < 0 <==> gives(old(calls)) < 0) && -1 <= ret
      ensures ret >= 0 ==>
                ret == Min(gives(old(calls)), Min(TRACE_FIFO_SIZE - old(|fifo.contents|), |file| - old(pos)))
      ensures FullReads(gives) ==> ret == Min(TRACE_FIFO_SIZE - old(|fifo.contents|), |file| - old(pos))
    {
      var room := fifo.Room();
      var total := Min(TRACE_FIFO_SIZE, room);
      var give := gives(calls);
      calls := calls + 1;
      if give < 0 {
        return -1;
      }
      ret := Min(give, Min(total, |file| - pos));
      var buf := file[pos..pos + ret];
      Extend(file, pos, ret);
      pos := pos + ret;
      if ret > 0 {
        ret := fifo.Put(buf);
      }
    }

    method TraceGet(len: nat, keep: bool) returns (ret: int, data: seq<byte>)
      requires Valid()
      modifies this, fifo, fifo.buffer
      ensures Valid()
      ensures ret < 0 ==> delivered == old(delivered)
      ensures ret >= 0 ==>
        && ret <= len && |old(delivered)| + ret <= |file|
        && delivered == old(delivered) + file[|old(delivered)|..|old(delivered)| + ret]
        && (keep ==> data == file[|old(delivered)|..|old(delivered)| + ret])
      ensures |old(delivered)| + old(|fifo.contents|) <= |file| && old(|fifo.contents|) <= TRACE_FIFO_SIZE
      ensures Fetched(ret, |fifo.contents|, calls) ==
              Fetch(gives, |file| - |old(delivered)|, old(|fifo.contents|), old(calls), len)
    {
      hide FullReads, Fifo.Valid;
      HeldSize();
      var have := fifo.Len();
      if have < len {
        var r := Refill();
        if r < 0 {
          return r, [];
        }
      }
      Held(file, pos, delivered, fifo.contents);
      assert |delivered| == pos - |fifo.contents|;
      ghost var held := fifo.contents;
      ret, data := fifo.Get(len, keep);
      Handed(file, pos, delivered, held, ret);
      delivered := delivered + held[..ret];
    }

    method DiscardPdu(pduLen: nat) returns (ret: int)
      requires Valid()
      modifies this, fifo, fifo.buffer
      ensures Valid()
      ensures ret >= 0 ==> ret <= pduLen && |old(delivered)| + ret <= |file| && |delivered| == |old(delivered)| + ret
      ensures ret < 0 ==> delivered == old(delivered)
      ensures |old(delivered)| + old(|fifo.contents|) <= |file| && old(|fifo.contents|) <= TRACE_FIFO_SIZE
      ensures Fetched(ret, |fifo.contents|, calls) ==
              FetchPdu(gives, |file| - |old(delivered)|, old(|fifo.contents|), old(calls), pduLen)
      ensures FullReads(gives) ==>
        (ret == pduLen <==> pduLen <= TRACE_FIFO_SIZE && |old(delivered)| + pduLen <= |file|)
    {
      hide FullReads, Fetch, Fifo.Valid;
      Held(file, pos, delivered, fifo.contents);
      HeldSize();
      if FullReads(gives) {
        FullFetch(gives, |file| - |delivered|, |fifo.contents|, calls, pduLen);
      }
      if pduLen == 0 {
        return 0;
      }
      var dropped;
      ret, dropped := TraceGet(pduLen, false);
    }

    lemma HeldSize()
      requires Valid()
      ensures |fifo.contents| <= TRACE_FIFO_SIZE && |delivered| + |fifo.contents| == pos <= |file|
    {
      Held(file, pos, delivered, fifo.contents);
    }

    /** load_blktrace's loop: the headers handled, and whether it ended without an error. */
    method Load(swap: bool) returns (o: Outcome)
      requires Valid() && delivered == []
      modifies this, fifo, fifo.buffer
      ensures Valid()
      ensures old(|fifo.contents|) <= |file| && old(|fifo.contents|) <= TRACE_FIFO_SIZE
      ensures o == LoadFrom(file, swap, gives, old(|fifo.contents|), old(calls))
      ensures o.headers <= Walk(file, swap)
      ensures FullReads(gives) ==> o == Parse(file, swap)
    {
      hide GoodHeader, PduLen, Walk, Parse, FullReads, Valid, Fetch, FetchPdu, LoadFrom;
      HeldSize();
      ghost var whole := LoadFrom(file, swap, gives, |fifo.contents|, calls);
      LoadPrefix(file, swap, gives, |fifo.contents|, calls);
      if FullReads(gives) {
        FullLoad(file, swap, gives, |fifo.contents|, calls);
      }
      var headers: seq<seq<byte>> := [];
      assert file[0..] == file;
      while true
        invariant Valid() && |delivered| + |fifo.contents| <= |file| && |fifo.contents| <= TRACE_FIFO_SIZE
        invariant whole == After(headers, LoadFrom(file[|delivered|..], swap, gives, |fifo.contents|, calls))
        decreases |file| - |delivered|
      {
        ghost var rest := file[|delivered|..];
        LoadStep(rest, swap, gives, |fifo.contents|, calls);
        var ret, t := TraceGet(HEADER, true);
        if ret < 0 {
          return Outcome(headers, false);
        } else if ret == 0 {
          return Outcome(headers, true);
        } else if ret < HEADER {
          return Outcome(headers, true);
        }
        assert t == rest[..HEADER];
        if !GoodHeader(t, swap) {
          return Outcome(headers, false);
        }
        var pduLen := PduLen(t, swap);
        ret := DiscardPdu(pduLen);
        if ret < 0 || pduLen != ret {
          return Outcome(headers, false);
        }
        HeldSize();
        assert file[|delivered|..] == rest[HEADER + pduLen..];
        AfterMore(headers, t, LoadFrom(file[|delivered|..], swap, gives, |fifo.contents|, calls));
        headers := headers + [t];
      }
    }
  }

  /** The whole result when `headers` were handled and o is the result of the rest. */
  function After(headers: seq<seq<byte>>, o: Outcome): Outcome {
    o.(headers := headers + o.headers)
  }

  lemma AfterMore(headers: seq<seq<byte>>, h: seq<byte>, o: Outcome)
    ensures After(headers, Prepend(h, o)) == After(headers + [h], o)
  {
    assert headers + ([h] + o.headers) == headers + [h] + o.headers;
  }

  lemma Extend(file: seq<byte>, pos: nat, n: nat)
    requires pos + n <= |file|
    ensures file[..pos] + file[pos..pos + n] == file[..pos + n]
  {
  }

  lemma Held(file: seq<byte>, pos: nat, delivered: seq<byte>, held: seq<byte>)
    requires pos <= |file| && delivered + held == file[..pos]
    ensures |delivered| <= pos && held == file[|delivered|..pos]
  {
    assert held == (delivered + held)[|delivered|..];
  }

  lemma Handed(file: seq<byte>, pos: nat, delivered: seq<byte>, held: seq<byte>, n: nat)
    requires pos <= |file| && delivered + held == file[..pos] && n <= |held|
    ensures |delivered| + n <= |file| && held[..n] == file[|delivered|..|delivered| + n]
    ensures (delivered + held[..n]) + held[n..] == file[..pos]
  {
    Held(file, pos, delivered, held);
  }
}
