// armsrc/BigBuf.c: one buffer, allocated from the top down and traced into from
// the bottom up.
module BigBuf {
  import opened Wrappers
  import opened Octets

  const U32 := 0x1_0000_0000
  const CARD_MEMORY_SIZE := 8192
  const TRACELOG_HDR_LEN := 8

  // ---- allocation

  // Up to the next multiple of 4, in 32 bits.
  function Aligned(chunk: nat): (r: nat)
    ensures r < U32 && r % 4 == 0
    ensures chunk + 3 < U32 ==> chunk <= r < chunk + 4
    ensures chunk < U32 && chunk + 3 >= U32 ==> r == 0
  {
    Wrap(chunk + 3, U32) / 4 * 4
  }

  // A live allocation: where it is, how long, and what was asked for.
  datatype Block = Block(at: nat, len: nat, asked: nat)

  // Blocks from the top of the buffer down, oldest first, ending at hi.
  predicate Stacked(blocks: seq<Block>, size: nat, hi: nat) {
    if blocks == [] then hi == size
    else
      var b := blocks[|blocks| - 1];
      && b.at == hi && hi % 4 == 0 && 0 < b.len && b.asked <= b.len
      && Stacked(blocks[..|blocks| - 1], size, b.at + b.len)
  }

  // Live blocks are aligned, at least as large as asked, inside the buffer and
  // above everything the trace may use, and no two of them share a byte.
  lemma {:induction false} BlocksApart(blocks: seq<Block>, size: nat, hi: nat)
    requires Stacked(blocks, size, hi)
    ensures hi <= size
    ensures forall i :: 0 <= i < |blocks| ==>
      blocks[i].at % 4 == 0 && hi <= blocks[i].at && blocks[i].at + blocks[i].len <= size && blocks[i].asked <= blocks[i].len
    ensures forall i, j :: 0 <= i < j < |blocks| ==> blocks[j].at + blocks[j].len <= blocks[i].at
    decreases |blocks|
  {
    if blocks != [] {
      var n := |blocks| - 1;
      BlocksApart(blocks[..n], size, blocks[n].at + blocks[n].len);
      forall i, j | 0 <= i < j < |blocks| ensures blocks[j].at + blocks[j].len <= blocks[i].at {
        assert blocks[..n][i] == blocks[i];
        if j < n {
          assert blocks[..n][j] == blocks[j];
        }
      }
    }
  }

  lemma {:induction false} StackedTo(blocks: seq<Block>, size: nat, hi: nat, k: nat)
    requires Stacked(blocks, size, hi) && k < |blocks|
    ensures Stacked(blocks[..k + 1], size, blocks[k].at)
    decreases |blocks|
  {
    var n := |blocks| - 1;
    if k < n {
      StackedTo(blocks[..n], size, blocks[n].at + blocks[n].len, k);
      assert blocks[..n][..k + 1] == blocks[..k + 1];
    } else {
      assert blocks[..k + 1] == blocks;
    }
  }

  // ---- the trace

  // tracelog_hdr_t and what follows it.
  datatype Entry = Entry(timestamp: nat, duration: nat, isResponse: bool, frame: seq<octet>, parity: seq<octet>)

  function ParityLen(n: nat): nat
    requires n > 0
  {
    if n <= 8 then 1 else 1 + ParityLen(n - 8)
  }

  predicate Fits(e: Entry) {
    && e.timestamp < U32 && e.duration < 0x1_0000
    && 0 < |e.frame| < 0x8000 && |e.parity| == ParityLen(|e.frame|)
  }

  function LenField(e: Entry): nat { |e.frame| + if e.isResponse then 0x8000 else 0 }

  function Encode(e: Entry): (r: seq<octet>)
    ensures |r| == TRACELOG_HDR_LEN + |e.frame| + |e.parity|
  {
    Digits(e.timestamp, 4) + [Lo(e.duration), Hi(e.duration), Lo(LenField(e)), Hi(LenField(e))] + e.frame + e.parity
  }

  function Flat(log: seq<Entry>): seq<octet> {
    if log == [] then [] else Flat(log[..|log| - 1]) + Encode(log[|log| - 1])
  }

  // The entry at the front of a trace, if a whole one is there.
  function Decode(m: seq<octet>): Option<Entry> {
    if |m| < TRACELOG_HDR_LEN then None
    else
      var v := Pair(m[6], m[7]);
      var n := if v >= 0x8000 then v - 0x8000 else v;
      if n == 0 || |m| < TRACELOG_HDR_LEN + n + ParityLen(n) then None
      else Some(Entry(Four(m[0], m[1], m[2], m[3]), Pair(m[4], m[5]), v >= 0x8000, m[8..8 + n], m[8 + n..8 + n + ParityLen(n)]))
  }

  // Walking a trace by entry length, as the client does.
  function Walk(m: seq<octet>): seq<Entry>
    decreases |m|
  {
    match Decode(m)
    case None => []
    case Some(e) => [e] + Walk(m[TRACELOG_HDR_LEN + |e.frame| + |e.parity|..])
  }

  lemma Splits(a: seq<octet>, b: seq<octet>, c: seq<octet>, d: seq<octet>, e: seq<octet>)
    requires |a| == 4 && |b| == 4
    ensures var m := a + b + c + d + e;
      && m[..4] == a && m[4..8] == b && m[8..8 + |c|] == c
      && m[8 + |c|..8 + |c| + |d|] == d && m[8 + |c| + |d|..] == e
      && m[0] == a[0] && m[1] == a[1] && m[2] == a[2] && m[3] == a[3]
      && m[4] == b[0] && m[5] == b[1] && m[6] == b[2] && m[7] == b[3]
  {
  }

  lemma EntryReads(e: Entry, rest: seq<octet>)
    requires Fits(e)
    ensures Decode(Encode(e) + rest) == Some(e)
    ensures (Encode(e) + rest)[|Encode(e)|..] == rest
  {
    hide Digits, LenField;
    var ts, ws := Digits(e.timestamp, 4), [Lo(e.duration), Hi(e.duration), Lo(LenField(e)), Hi(LenField(e))];
    Splits(ts, ws, e.frame, e.parity, rest);
    var m := Encode(e) + rest;
    assert m == ts + ws + e.frame + e.parity + rest;
    FourBack(e.timestamp);
    PairBack(e.duration);
    LenBits(e);
    PairBack(LenField(e));
    Decodes(m, e);
  }

  lemma LenBits(e: Entry)
    requires Fits(e)
    ensures LenField(e) < 0x1_0000 && (LenField(e) >= 0x8000 <==> e.isResponse)
  {
  }

  lemma Decodes(m: seq<octet>, e: Entry)
    requires Fits(e) && |m| >= TRACELOG_HDR_LEN + |e.frame| + |e.parity|
    requires Four(m[0], m[1], m[2], m[3]) == e.timestamp && Pair(m[4], m[5]) == e.duration
    requires Pair(m[6], m[7]) == LenField(e)
    requires m[8..8 + |e.frame|] == e.frame && m[8 + |e.frame|..8 + |e.frame| + |e.parity|] == e.parity
    ensures Decode(m) == Some(e)
  {
    hide Four, Pair;
    LenBits(e);
  }

  ghost predicate AllFit(log: seq<Entry>) {
    forall i :: 0 <= i < |log| ==> Fits(log[i])
  }

  lemma {:induction false} FlatFront(log: seq<Entry>)
    requires log != []
    ensures Flat(log) == Encode(log[0]) + Flat(log[1..])
    decreases |log|
  {
    hide Encode;
    var n, first := |log| - 1, Encode(log[0]);
    if n == 0 {
      assert log[1..] == [] && log[..0] == [];
      assert Flat(log) == [] + first == first + [];
    } else {
      FlatFront(log[..n]);
      assert log[..n][1..] == log[1..][..n - 1];
      Regrouped(first, Flat(log[1..][..n - 1]), Encode(log[n]));
    }
  }

  lemma Regrouped(a: seq<octet>, b: seq<octet>, c: seq<octet>)
    ensures (a + b) + c == a + (b + c)
  {
  }

  // Walking the trace from its start yields exactly what was logged, in order.
  lemma {:induction false} WalkReads(log: seq<Entry>)
    requires AllFit(log)
    ensures Walk(Flat(log)) == log
    decreases |log|
  {
    hide Encode, Decode;
    if log == [] {
      NothingThere();
    } else {
      FlatFront(log);
      EntryReads(log[0], Flat(log[1..]));
      WalkReads(log[1..]);
    }
  }

  lemma NothingThere()
    ensures Walk([]) == []
  {
  }

  // ---- the buffer

  class Buffer {
    const mem: array<octet>
    var hi: nat
    var emulator: Option<nat>
    var traceLen: nat
    var tracing: bool
    var origin: nat
    var originValid: bool
    ghost var blocks: seq<Block>     // live allocations, oldest first
    ghost var emIndex: nat           // which of them is the emulator memory
    ghost var start: nat             // where the entries below begin
    ghost var log: seq<Entry>        // accepted since the trace was last cleared or cut

    ghost predicate Allocated()
      reads this
    {
      && mem.Length < U32 && mem.Length % 4 == 0
      && Stacked(blocks, mem.Length, hi) && hi % 4 == 0 && hi <= mem.Length
      && (emulator.Some? ==>
        && emIndex < |blocks| && blocks[emIndex].at == emulator.value && blocks[emIndex].len >= CARD_MEMORY_SIZE)
    }

    ghost predicate Traced()
      reads this, mem
    {
      && start <= traceLen <= hi <= mem.Length && origin < U32
      && AllFit(log) && Flat(log) == mem[..traceLen][start..]
    }

    ghost predicate Valid()
      reads this, mem
    {
      Allocated() && Traced()
    }

    // BigBuf_initialize
    constructor (size: nat)
      requires size < U32 && size % 4 == 0
      ensures Valid() && mem.Length == size && blocks == [] && log == []
    {
      mem := new octet[size];
      hi, emulator, traceLen, tracing := size, None, 0, true;
      origin, originValid, blocks, emIndex, start, log := 0, false, [], 0, 0, [];
    }

    // BigBuf_malloc: a new block below all the others, or nothing changes.
    method Malloc(asked: nat) returns (at: Option<nat>)
      requires Valid() && asked < U32
      modifies this`hi, this`blocks
      ensures Valid()
      ensures at.None? ==> hi == old(hi) && blocks == old(blocks)
      ensures at.Some? ==> at.value == hi && hi + Aligned(asked) == old(hi) && asked > 0 && blocks == old(blocks) + [Block(hi, Aligned(asked), asked)]
      ensures at.Some? <==> 0 < Aligned(asked) <= old(hi) - traceLen
    {
      var chunk := Aligned(asked);
      if chunk == 0 || chunk > hi || hi - traceLen < chunk {
        return None;
      }
      hi := hi - chunk;
      blocks := blocks + [Block(hi, chunk, asked)];
      assert blocks[..|blocks| - 1] == old(blocks);
      at := Some(hi);
    }

    method ZeroOut(at: nat, n: nat)
      requires at + n <= mem.Length
      modifies mem
      ensures mem[..at] == old(mem[..at]) && mem[at..at + n] == Zeros(n) && mem[at + n..] == old(mem[at + n..])
    {
      forall k | 0 <= k < n {
        mem[at + k] := 0;
      }
    }

    // The trace does not see a change above it.
    twostate lemma TraceStands(n: nat)
      requires old(Traced()) && traceLen == old(traceLen) && start == old(start) && log == old(log) && origin == old(origin)
      requires traceLen <= n <= mem.Length && mem[..n] == old(mem[..n])
      ensures AllFit(log) && Flat(log) == mem[..traceLen][start..]
    {
      assert mem[..traceLen] == mem[..n][..traceLen];
      assert old(mem[..traceLen]) == old(mem[..n])[..traceLen];
    }

    // BigBuf_calloc: and the block is zero, the rest of the buffer as it was.
    method Calloc(asked: nat) returns (at: Option<nat>)
      requires Valid() && asked < U32
      modifies this`hi, this`blocks, mem
      ensures Valid()
      ensures at.None? ==> hi == old(hi) && blocks == old(blocks) && mem[..] == old(mem[..])
      ensures at.Some? ==>
        && at.value == hi && hi + Aligned(asked) == old(hi) && blocks == old(blocks) + [Block(hi, Aligned(asked), asked)]
        && mem[hi..hi + Aligned(asked)] == Zeros(Aligned(asked))
      ensures mem[old(hi)..] == old(mem[hi..])
      ensures at.Some? <==> 0 < Aligned(asked) <= old(hi) - traceLen
    {
      hide Aligned, Flat, AllFit;
      at := Malloc(asked);
      if at.Some? {
        ZeroOut(hi, Aligned(asked));
        TraceStands(hi);
      }
    }

    // BigBuf_get_EM_addr
    method GetEmAddr() returns (at: Option<nat>)
      requires Valid()
      modifies this, mem
      ensures Valid() && at == emulator && traceLen == old(traceLen) && log == old(log)
      ensures old(emulator).Some? ==> at == old(emulator) && hi == old(hi) && blocks == old(blocks) && mem[..] == old(mem[..])
      ensures old(blocks) <= blocks && mem[old(hi)..] == old(mem[hi..])
    {
      if emulator.None? {
        var em := Calloc(CARD_MEMORY_SIZE);
        if em.Some? {
          emulator, emIndex := em, |blocks| - 1;
        }
      }
      at := emulator;
    }

    // BigBuf_free
    method Free()
      requires Valid()
      modifies this
      ensures Valid() && blocks == [] && hi == mem.Length && emulator == None && traceLen == old(traceLen) && log == old(log)
    {
      BlocksApart(blocks, mem.Length, hi);
      hi, emulator, blocks := mem.Length, None, [];
    }

    // BigBuf_free_keep_EM: what was allocated after the emulator memory goes.
    method FreeKeepEm()
      requires Valid()
      modifies this
      ensures Valid() && emulator == old(emulator) && traceLen == old(traceLen) && log == old(log)
      ensures old(emulator).None? ==> blocks == []
      ensures old(emulator).Some? ==>
        && blocks == old(blocks)[..old(emIndex) + 1] && emIndex == old(emIndex) && hi == emulator.value
    {
      BlocksApart(blocks, mem.Length, hi);
      if emulator.Some? {
        StackedTo(blocks, mem.Length, hi, emIndex);
        hi := emulator.value;
        blocks := blocks[..emIndex + 1];
      } else {
        hi, blocks := mem.Length, [];
      }
    }

    // set_tracelen, kept below the allocations: what is beyond stays unread
    method SetTraceLen(value: nat)
      requires Valid() && value <= hi
      modifies this`traceLen, this`start, this`log
      ensures Valid() && traceLen == start == value && log == []
    {
      traceLen, start, log := value, value, [];
      assert mem[..traceLen][start..] == [];
    }

    // clear_trace
    method ClearTrace()
      requires Valid()
      modifies this`traceLen, this`start, this`log, this`originValid
      ensures Valid() && traceLen == start == 0 && log == []
    {
      SetTraceLen(0);
      originValid := false;
    }

    predicate Room(n: nat)
      requires n > 0
      reads this
    {
      var most, need := hi / 4 * 4, TRACELOG_HDR_LEN + n + ParityLen(n);
      traceLen < most && need < most - traceLen
    }

    // The zero that the entries of a phase are measured from.
    function OriginFor(from: nat): nat
      reads this
    {
      if !originValid || from < origin then from else origin
    }

    static function Duration(from: nat, to: nat): nat
      requires from < U32 && to < U32
    {
      var d := if to >= from then to - from else U32 - 1 - from + to;
      if d > 0xFFFF then 0xFFFF else d
    }

    static function Entered(frame: seq<octet>, from: nat, to: nat, origin: nat, parity: Option<seq<octet>>, reader2tag: bool): (e: Entry)
      requires 0 < |frame| < 0x8000 && origin <= from < U32 && to < U32
      requires parity.Some? ==> |parity.value| == ParityLen(|frame|)
      ensures Fits(e)
    {
      var f, t := from - origin, if to >= origin then to - origin else to - origin + U32;
      Entry(f, Duration(f, t), !reader2tag, frame, if parity.Some? then parity.value else Zeros(ParityLen(|frame|)))
    }

    // LogTrace: the entry is appended, below every allocation, or nothing is.
    method LogTrace(frame: seq<octet>, from: nat, to: nat, parity: Option<seq<octet>>, reader2tag: bool) returns (ok: bool)
      requires Valid() && from < U32 && to < U32
      requires parity.Some? && |frame| > 0 ==> |parity.value| == ParityLen(|frame|)
      modifies this`traceLen, this`log, this`tracing, this`origin, this`originValid, mem
      ensures Valid()
      ensures ok == (old(tracing) && 0 < |frame| < 0x8000 && old(Room(|frame|)))
      ensures ok ==> log == old(log) + [Entered(frame, from, to, old(OriginFor(from)), parity, reader2tag)]
      ensures !ok ==> log == old(log) && traceLen == old(traceLen) && mem[..] == old(mem[..])
      ensures mem[hi..] == old(mem[hi..])
    {
      if !tracing || |frame| == 0 || |frame| >= 0x8000 {
        return false;
      }
      if !Room(|frame|) {
        tracing := false;
        return false;
      }
      origin, originValid := OriginFor(from), true;
      var e := Entered(frame, from, to, origin, parity, reader2tag);
      Append(e);
      ok := true;
    }

    method Append(e: Entry)
      requires Valid() && Fits(e) && traceLen + |Encode(e)| <= hi
      modifies this`traceLen, this`log, mem
      ensures Valid() && log == old(log) + [e] && mem[hi..] == old(mem[hi..])
    {
      hide Encode, Flat;
      var b := Encode(e);
      ghost var was := mem[..traceLen];
      WriteOut(traceLen, b);
      Behind(was, b, start);
      Logged(log, e);
      traceLen := traceLen + |b|;
      log := log + [e];
    }

    static lemma Behind(was: seq<octet>, b: seq<octet>, at: nat)
      requires at <= |was|
      ensures (was + b)[at..] == was[at..] + b
    {
    }

    static lemma Logged(log: seq<Entry>, e: Entry)
      ensures Flat(log + [e]) == Flat(log) + Encode(e)
    {
      assert (log + [e])[..|log|] == log;
    }

    method WriteOut(at: nat, b: seq<octet>)
      requires at + |b| <= hi <= mem.Length
      modifies mem
      ensures mem[..at + |b|] == old(mem[..at]) + b && mem[hi..] == old(mem[hi..])
    {
      forall k | 0 <= k < |b| {
        mem[at + k] := b[k];
      }
    }
  }

  // Read back from where it began, the trace is the accepted entries in order.
  lemma TraceReads(buf: Buffer)
    requires buf.Valid()
    ensures Walk(buf.mem[..buf.traceLen][buf.start..]) == buf.log
  {
    WalkReads(buf.log);
  }

  // And no block reaches down into it.
  lemma TraceBelow(buf: Buffer, i: nat)
    requires buf.Valid() && i < |buf.blocks|
    ensures buf.start <= buf.traceLen <= buf.blocks[i].at
  {
    BlocksApart(buf.blocks, buf.mem.Length, buf.hi);
  }
}
