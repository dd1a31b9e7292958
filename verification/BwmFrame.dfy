// The app_com de-framer of armsrc/bwm_frame.c: frames found byte by byte in what
// the module sends, their payload passed on through a ring.
module BwmFrame {
  import opened Octets

  const BCAST_1: octet := 0xD2
  const BCAST_2: octet := 0xD3
  const RESP_1: octet := 0x2D
  const RESP_2: octet := 0x3D
  const HOST_1: octet := 0x7C
  const HOST_2: octet := 0xC7

  const SEND_FORWARD_DATA := 5000
  const DATA_FORWARD := 8089
  const CMD_ERROR := 8091
  const LINK_STATE := 8092
  const SET_UART_BAUD := 1011
  const GET_UART_BAUD := 1009

  const RX_MAX := 4128
  const FIFO_SZ := 2048

  // ---- CRC-16/CCITT-FALSE

  function CrcBit(crc: bv16): bv16 {
    if crc & 0x8000 != 0 then (crc << 1) ^ 0x1021 else crc << 1
  }

  function CrcBits(crc: bv16, n: nat): bv16 {
    if n == 0 then crc else CrcBit(CrcBits(crc, n - 1))
  }

  function CrcByte(crc: bv16, b: octet): bv16 {
    CrcBits(crc ^ ((b as bv16) << 8), 8)
  }

  function CrcOver(data: seq<octet>, crc: bv16): bv16 {
    if data == [] then crc else CrcByte(CrcOver(data[..|data| - 1], crc), data[|data| - 1])
  }

  method ShiftBit(crc: bv16) returns (r: bv16)
    ensures r == CrcBit(crc)
  {
    if crc & 0x8000 != 0 {
      r := (crc << 1) ^ 0x1021;
    } else {
      r := crc << 1;
    }
  }

  method CrcStep(crc: bv16, b: octet) returns (r: bv16)
    ensures r == CrcByte(crc, b)
  {
    hide CrcBit;
    r := crc ^ ((b as bv16) << 8);
    ghost var mixed := r;
    var i := 0;
    while i < 8
      invariant i <= 8 && r == CrcBits(mixed, i)
    {
      r := ShiftBit(r);
      i := i + 1;
    }
  }

  // bwm_crc16
  method Crc16(data: seq<octet>, init: bv16) returns (crc: bv16)
    ensures crc == CrcOver(data, init)
  {
    hide CrcByte;
    crc := init;
    var i := 0;
    while i < |data|
      invariant i <= |data| && crc == CrcOver(data[..i], init)
    {
      assert data[..i + 1][..i] == data[..i];
      crc := CrcStep(crc, data[i]);
      i := i + 1;
    }
    assert data[..i] == data;
  }

  function Value(crc: bv16): (r: nat)
    ensures r < 0x1_0000
  {
    crc as nat
  }

  function FrameCrc(body: seq<octet>): (r: nat)
    ensures r < 0x1_0000
  {
    Value(CrcOver(body, 0xFFFF))
  }

  // ---- frames

  // What bwm_frame_build makes, under a given header pair.
  function Body(h1: octet, h2: octet, cmd: nat, payload: seq<octet>): seq<octet> {
    [h1, h2, Lo(cmd), Hi(cmd), Lo(|payload|), Hi(|payload|)] + payload
  }

  function Sealed(h1: octet, h2: octet, cmd: nat, payload: seq<octet>): (r: seq<octet>)
    ensures |r| == 8 + |payload|
  {
    var body := Body(h1, h2, cmd, payload);
    body + [Lo(FrameCrc(body)), Hi(FrameCrc(body))]
  }

  predicate StartsFrame(b: octet) { b == BCAST_1 || b == RESP_1 }
  predicate HeaderPair(a: octet, b: octet) { (a == BCAST_1 && b == BCAST_2) || (a == RESP_1 && b == RESP_2) }

  function LenOf(raw: seq<octet>): nat
    requires |raw| >= 6
  {
    Pair(raw[4], raw[5])
  }

  // A whole slave frame of allowed length, its CRC right or wrong.
  predicate IsFrame(raw: seq<octet>) {
    |raw| >= 8 && HeaderPair(raw[0], raw[1]) && LenOf(raw) <= RX_MAX && |raw| == 8 + LenOf(raw)
  }

  predicate CrcGood(raw: seq<octet>)
    requires IsFrame(raw)
  {
    Pair(raw[|raw| - 2], raw[|raw| - 1]) == FrameCrc(raw[..|raw| - 2])
  }

  // ---- the parser as a function of the bytes of the frame it is in

  // The frame so far, [] between frames.
  predicate Partial(raw: seq<octet>) {
    && (|raw| >= 1 ==> StartsFrame(raw[0]))
    && (|raw| >= 2 ==> HeaderPair(raw[0], raw[1]))
    && (|raw| >= 6 ==> LenOf(raw) <= RX_MAX && |raw| < 8 + LenOf(raw))
  }

  function Restart(b: octet): seq<octet> { if StartsFrame(b) then [b] else [] }

  // The frame after one more byte, and the frame that byte completes, if any.
  function Feed(raw: seq<octet>, b: octet): (r: (seq<octet>, seq<seq<octet>>))
    requires Partial(raw)
    ensures Partial(r.0)
    ensures r.1 != [] ==> |r.1| == 1 && IsFrame(r.1[0])
  {
    var more := raw + [b];
    if raw == [] then (Restart(b), [])
    else if |raw| == 1 && !HeaderPair(raw[0], b) then (Restart(b), [])
    else if |raw| < 5 then (more, [])
    else if LenOf(more) > RX_MAX then ([], [])
    else if |more| == 8 + LenOf(more) then ([], [more])
    else (more, [])
  }

  function FeedAll(raw: seq<octet>, bs: seq<octet>): (r: (seq<octet>, seq<seq<octet>>))
    requires Partial(raw)
    ensures Partial(r.0)
    decreases |bs|
  {
    if bs == [] then (raw, []) else
      var (raw', done) := Feed(raw, bs[0]);
      var (raw'', rest) := FeedAll(raw', bs[1..]);
      (raw'', done + rest)
  }

  lemma {:induction false} FeedJoins(raw: seq<octet>, a: seq<octet>, b: seq<octet>)
    requires Partial(raw)
    ensures var (r1, d1) := FeedAll(raw, a);
      var (r2, d2) := FeedAll(r1, b);
      FeedAll(raw, a + b) == (r2, d1 + d2)
    decreases |a|
  {
    hide Feed, Partial;
    if a == [] {
      assert a + b == b;
      assert [] + FeedAll(raw, b).1 == FeedAll(raw, b).1;
    } else {
      assert (a + b)[0] == a[0] && (a + b)[1..] == a[1..] + b;
      var (raw', done) := Feed(raw, a[0]);
      FeedJoins(raw', a[1..], b);
      var (r1, d1) := FeedAll(raw', a[1..]);
      var (r2, d2) := FeedAll(r1, b);
      assert done + (d1 + d2) == (done + d1) + d2;
    }
  }

  lemma FeedOne(raw: seq<octet>, b: octet)
    requires Partial(raw)
    ensures FeedAll(raw, [b]) == Feed(raw, b)
  {
    hide Feed, Partial;
    var (raw', done) := Feed(raw, b);
    assert [b][1..] == [] && done + [] == done;
  }

  // A frame takes exactly its own bytes and leaves the parser idle.
  lemma {:induction false} RestOfFrame(raw: seq<octet>, n: nat)
    requires IsFrame(raw) && n < |raw|
    ensures Partial(raw[..n])
    ensures FeedAll(raw[..n], raw[n..]) == ([], [raw])
    decreases |raw| - n
  {
    hide Feed, Partial, IsFrame;
    StepInside(raw, n);
    FeedOne(raw[..n], raw[n]);
    if n + 1 == |raw| {
      assert raw[n..] == [raw[n]];
    } else {
      RestOfFrame(raw, n + 1);
      assert raw[n..] == [raw[n]] + raw[n + 1..];
      FeedJoins(raw[..n], [raw[n]], raw[n + 1..]);
      assert [] + [raw] == [raw];
    }
  }

  lemma StepInside(raw: seq<octet>, n: nat)
    requires IsFrame(raw) && n < |raw|
    ensures Partial(raw[..n])
    ensures Feed(raw[..n], raw[n]) == if n + 1 == |raw| then ([], [raw]) else (raw[..n + 1], [])
  {
    assert raw[..n] + [raw[n]] == raw[..n + 1];
    if n == 0 {
      assert raw[..0] == [] && raw[..1] == [raw[0]];
    } else if n + 1 == |raw| {
      assert raw[..n + 1] == raw;
    }
  }

  lemma OneFrame(raw: seq<octet>)
    requires IsFrame(raw)
    ensures FeedAll([], raw) == ([], [raw])
  {
    RestOfFrame(raw, 0);
    assert raw[..0] == [] && raw[0..] == raw;
  }

  // Noise that contains no header pair.
  ghost predicate Garbage(g: seq<octet>) {
    forall i :: 0 < i < |g| ==> !HeaderPair(g[i - 1], g[i])
  }

  // After it the parser is idle, or has taken its last byte for a first one.
  lemma {:induction false} GarbageLeaves(g: seq<octet>)
    requires Garbage(g)
    ensures FeedAll([], g) == (if g == [] then [] else Restart(g[|g| - 1]), [])
    decreases |g|
  {
    if g != [] {
      var init, b := g[..|g| - 1], g[|g| - 1];
      GarbageLeaves(init);
      assert g == init + [b];
      FeedJoins([], init, [b]);
      FeedOne(FeedAll([], init).0, b);
    }
  }

  function Flat(frames: seq<seq<octet>>): seq<octet> {
    if frames == [] then [] else frames[0] + Flat(frames[1..])
  }

  ghost predicate AllFrames(frames: seq<seq<octet>>) {
    forall i :: 0 <= i < |frames| ==> IsFrame(frames[i])
  }

  lemma {:induction false} FramesFound(frames: seq<seq<octet>>)
    requires AllFrames(frames)
    ensures FeedAll([], Flat(frames)) == ([], frames)
    decreases |frames|
  {
    hide Feed, IsFrame;
    if frames != [] {
      OneFrame(frames[0]);
      FramesFound(frames[1..]);
      FeedJoins([], frames[0], Flat(frames[1..]));
      assert [frames[0]] + frames[1..] == frames;
    }
  }

  // A byte that starts a frame may follow any leftover first byte.
  lemma StaleStart(x: octet, raw: seq<octet>)
    requires IsFrame(raw)
    ensures FeedAll(Restart(x), raw) == FeedAll([], raw)
  {
    assert raw == [raw[0]] + raw[1..];
    FeedOne(Restart(x), raw[0]);
    FeedOne([], raw[0]);
    FeedJoins(Restart(x), [raw[0]], raw[1..]);
    FeedJoins([], [raw[0]], raw[1..]);
  }

  // Any noise without a header pair, then any frames of allowed length: every
  // frame is found, whole and in order, and the parser ends idle.
  lemma Deframes(g: seq<octet>, frames: seq<seq<octet>>)
    requires Garbage(g) && AllFrames(frames) && frames != []
    ensures FeedAll([], g + Flat(frames)) == ([], frames)
  {
    hide Feed, IsFrame;
    GarbageLeaves(g);
    FeedJoins([], g, Flat(frames));
    FramesFound(frames);
    if g != [] {
      var x := g[|g| - 1];
      StaleStart(x, frames[0]);
      FeedJoins(Restart(x), frames[0], Flat(frames[1..]));
      FeedJoins([], frames[0], Flat(frames[1..]));
    }
    assert [] + frames == frames;
  }

  // What the sender seals is a frame with a good CRC, whose command and payload
  // read back.
  lemma SealedReads(h1: octet, h2: octet, cmd: nat, payload: seq<octet>)
    requires HeaderPair(h1, h2) && cmd < 0x1_0000 && |payload| <= RX_MAX
    ensures var raw := Sealed(h1, h2, cmd, payload);
      IsFrame(raw) && CrcGood(raw) && Pair(raw[2], raw[3]) == cmd && raw[6..|raw| - 2] == payload
  {
    hide FrameCrc;
    var raw, body := Sealed(h1, h2, cmd, payload), Body(h1, h2, cmd, payload);
    assert |body| == 6 + |payload| && body[6..] == payload;
    Split(body, Lo(FrameCrc(body)), Hi(FrameCrc(body)));
    PairBack(FrameCrc(body));
    PairBack(cmd);
    PairBack(|payload|);
  }

  lemma Split(body: seq<octet>, a: octet, b: octet)
    requires |body| >= 6
    ensures var raw := body + [a, b];
      && |raw| == |body| + 2 && raw[..|raw| - 2] == body && raw[6..|raw| - 2] == body[6..]
      && raw[|raw| - 2] == a && raw[|raw| - 1] == b
      && raw[0] == body[0] && raw[1] == body[1] && raw[2] == body[2] && raw[3] == body[3]
      && raw[4] == body[4] && raw[5] == body[5]
  {
  }

  // bwm_frame_build
  method FrameBuild(cmd: nat, payload: seq<octet>, out: array<octet>) returns (n: nat)
    requires cmd < 0x1_0000 && |payload| < 0x1_0000
    modifies out
    ensures n == if out.Length < 8 + |payload| then 0 else 8 + |payload|
    ensures n > 0 ==> out[..n] == Sealed(HOST_1, HOST_2, cmd, payload)
    ensures n == 0 ==> out[..] == old(out[..])
  {
    hide CrcOver;
    if out.Length < 8 + |payload| {
      return 0;
    }
    out[0], out[1], out[2], out[3] := HOST_1, HOST_2, Lo(cmd), Hi(cmd);
    out[4], out[5] := Lo(|payload|), Hi(|payload|);
    forall i | 0 <= i < |payload| {
      out[6 + i] := payload[i];
    }
    n := 6 + |payload|;
    assert out[..n] == Body(HOST_1, HOST_2, cmd, payload);
    var crc := Crc16(out[..n], 0xFFFF);
    ghost var body := out[..n];
    out[n], out[n + 1] := Lo(Value(crc)), Hi(Value(crc));
    n := n + 2;
    assert out[..n] == body + [Lo(Value(crc)), Hi(Value(crc))];
  }

  // ---- what a frame does

  datatype Effect =
    | Forward(payload: seq<octet>)
    | ForwardAck
    | ForwardError
    | BaudAck
    | GetBaudAck
    | LinkState(ble: octet, wifi: octet)
    | Nothing

  function EffectOf(raw: seq<octet>): Effect
    requires IsFrame(raw)
  {
    if CrcGood(raw) then Effected(raw[0] == BCAST_1, Pair(raw[2], raw[3]), raw[6..|raw| - 2]) else Nothing
  }

  function Effected(bcast: bool, cmd: nat, payload: seq<octet>): Effect {
    if bcast && cmd == DATA_FORWARD then Forward(payload)
    else if !bcast && cmd == SEND_FORWARD_DATA then ForwardAck
    else if bcast && cmd == CMD_ERROR && |payload| >= 2 && Pair(payload[0], payload[1]) == SEND_FORWARD_DATA then ForwardError
    else if !bcast && cmd == SET_UART_BAUD then BaudAck
    else if !bcast && cmd == GET_UART_BAUD then GetBaudAck
    else if bcast && cmd == LINK_STATE && |payload| >= 2 then LinkState(payload[0], payload[1])
    else Nothing
  }

  // ---- the payload ring

  // Of a queue of at most FIFO_SZ - 1 bytes, what does not fit is dropped.
  function Enqueued(q: seq<octet>, bs: seq<octet>): seq<octet> {
    if |q + bs| < FIFO_SZ then q + bs else (q + bs)[..FIFO_SZ - 1]
  }

  class Ring {
    const fifo: array<octet>
    var head: nat                    // write
    var tail: nat                    // read
    ghost var contents: seq<octet>

    ghost predicate Valid()
      reads this, fifo
    {
      && fifo.Length == FIFO_SZ && head < FIFO_SZ && tail < FIFO_SZ
      && |contents| < FIFO_SZ
      && head == (if tail + |contents| < FIFO_SZ then tail + |contents| else tail + |contents| - FIFO_SZ)
      && forall k :: 0 <= k < |contents| ==>
        contents[k] == fifo[if tail + k < FIFO_SZ then tail + k else tail + k - FIFO_SZ]
    }

    constructor ()
      ensures Valid() && fresh(fifo) && contents == []
    {
      fifo := new octet[FIFO_SZ];
      head, tail, contents := 0, 0, [];
    }

    // fifo_count
    function Count(): (n: nat)
      requires Valid()
      reads this, fifo
      ensures n == |contents|
    {
      if head >= tail then head - tail else head - tail + FIFO_SZ
    }

    // fifo_push
    method Push(b: octet)
      requires Valid()
      modifies this, fifo
      ensures Valid() && contents == Enqueued(old(contents), [b])
    {
      var next := if head + 1 == FIFO_SZ then 0 else head + 1;
      if next != tail {
        fifo[head] := b;
        head := next;
        contents := contents + [b];
      } else {
        assert (contents + [b])[..FIFO_SZ - 1] == contents;
      }
    }

    // fifo_pop; the callers look at the count first
    method Pop() returns (b: octet)
      requires Valid() && contents != []
      modifies this`tail, this`contents
      ensures Valid() && [b] + contents == old(contents)
    {
      b := fifo[tail];
      tail := if tail + 1 == FIFO_SZ then 0 else tail + 1;
      contents := contents[1..];
    }

    method PushAll(payload: seq<octet>)
      requires Valid()
      modifies this, fifo
      ensures Valid() && contents == Enqueued(old(contents), payload)
    {
      var i := 0;
      assert payload[..0] == [];
      while i < |payload|
        invariant i <= |payload| && Valid() && contents == Enqueued(old(contents), payload[..i])
      {
        EnqueuedOn(old(contents), payload[..i], payload[i]);
        assert payload[..i] + [payload[i]] == payload[..i + 1];
        Push(payload[i]);
        i := i + 1;
      }
      assert payload[..i] == payload;
    }
  }

  lemma EnqueuedOn(q: seq<octet>, bs: seq<octet>, b: octet)
    requires |q| < FIFO_SZ
    ensures |Enqueued(q, bs)| < FIFO_SZ
    ensures Enqueued(Enqueued(q, bs), [b]) == Enqueued(q, bs + [b])
  {
    assert q + bs + [b] == q + (bs + [b]);
  }

  // A payload survives the ring exactly when it fits behind what is waiting.
  // One of the largest allowed length never does.
  lemma Survives(q: seq<octet>, payload: seq<octet>)
    requires |q| < FIFO_SZ
    ensures Enqueued(q, payload) == q + payload <==> |q| + |payload| < FIFO_SZ
    ensures |payload| == RX_MAX ==> Enqueued(q, payload) != q + payload
  {
  }

  // ---- whole streams

  function PayloadOf(raw: seq<octet>): seq<octet>
    requires IsFrame(raw)
  {
    var e := EffectOf(raw);
    if e.Forward? then e.payload else []
  }

  // What the frames forward, in order.
  ghost function Payloads(frames: seq<seq<octet>>): seq<octet>
    requires AllFrames(frames)
  {
    if frames == [] then [] else Payloads(frames[..|frames| - 1]) + PayloadOf(frames[|frames| - 1])
  }

  lemma {:induction false} FoundFrames(raw: seq<octet>, bs: seq<octet>)
    requires Partial(raw)
    ensures AllFrames(FeedAll(raw, bs).1)
    decreases |bs|
  {
    hide Partial, IsFrame;
    if bs != [] {
      FoundFrames(Feed(raw, bs[0]).0, bs[1..]);
    }
  }

  ghost function Forwarded(raw: seq<octet>, bs: seq<octet>): seq<octet>
    requires Partial(raw)
  {
    FoundFrames(raw, bs);
    Payloads(FeedAll(raw, bs).1)
  }

  lemma EnqueuedTwice(q: seq<octet>, a: seq<octet>, b: seq<octet>)
    requires |q| < FIFO_SZ
    ensures |Enqueued(q, a)| < FIFO_SZ
    ensures Enqueued(Enqueued(q, a), b) == Enqueued(q, a + b)
  {
    assert q + a + b == q + (a + b);
  }

  // One more byte forwards what the frame it completes forwards.
  lemma ForwardedOn(raw: seq<octet>, bs: seq<octet>, b: octet)
    requires Partial(raw)
    ensures var (r, done) := FeedAll(raw, bs);
      var (r', fs) := Feed(r, b);
      && FeedAll(raw, bs + [b]) == (r', done + fs)
      && Forwarded(raw, bs + [b]) == Forwarded(raw, bs) + if fs == [] then [] else PayloadOf(fs[0])
  {
    hide Feed, Partial, IsFrame, PayloadOf;
    var (r, done) := FeedAll(raw, bs);
    FeedOne(r, b);
    FeedJoins(raw, bs, [b]);
    var fs := Feed(r, b).1;
    FoundFrames(raw, bs);
    FoundFrames(raw, bs + [b]);
    if fs == [] {
      assert done + fs == done;
    } else {
      assert (done + fs)[..|done|] == done && fs == [fs[0]];
    }
  }

  // ---- the parser the firmware runs

  datatype PState = IdleS | Hdr2 | CmdLo | CmdHi | LenLo | LenHi | Payload | CrcLo | CrcHi

  function StateOf(raw: seq<octet>): PState
    requires Partial(raw)
  {
    if raw == [] then IdleS
    else if |raw| == 1 then Hdr2
    else if |raw| == 2 then CmdLo
    else if |raw| == 3 then CmdHi
    else if |raw| == 4 then LenLo
    else if |raw| == 5 then LenHi
    else if |raw| < 6 + LenOf(raw) then Payload
    else if |raw| == 6 + LenOf(raw) then CrcLo
    else CrcHi
  }

  class Parser {
    var state: PState
    var hdr1: octet
    var isBcast: bool
    var cmd: nat
    var len: nat
    var got: nat
    var crcCalc: bv16
    var crcRecv: nat
    const payload: array<octet>
    const ring: Ring
    ghost var raw: seq<octet>

    // Every field is what the bytes of the frame so far say.
    ghost predicate Fields()
      reads this, payload
    {
      && payload.Length == RX_MAX && Partial(raw) && state == StateOf(raw)
      && (|raw| >= 1 ==> hdr1 == raw[0] && isBcast == (raw[0] == BCAST_1))
      && (|raw| == 3 ==> cmd == raw[2])
      && (|raw| >= 4 ==> cmd == Pair(raw[2], raw[3]))
      && (|raw| == 5 ==> len == raw[4])
      && (|raw| >= 6 ==>
        && len == LenOf(raw)
        && got == (if |raw| < 6 + len then |raw| - 6 else len)
        && payload[..got] == raw[6..6 + got])
      && (2 <= |raw| <= 6 ==> crcCalc == CrcOver(raw, 0xFFFF))
      && (|raw| > 6 ==> crcCalc == CrcOver(raw[..6 + got], 0xFFFF))
      && (|raw| >= 6 && |raw| == 7 + len ==> crcRecv == raw[|raw| - 1])
    }

    ghost predicate Valid()
      reads this, payload, ring, ring.fifo
    {
      Fields() && ring.Valid() && payload != ring.fifo
    }

    constructor ()
      ensures Valid() && raw == [] && ring.contents == []
    {
      payload := new octet[RX_MAX];
      ring := new Ring();
      state, raw := IdleS, [];
    }

    // bwm_feed_byte
    method FeedByte(b: octet) returns (e: Effect)
      requires Valid()
      modifies this, payload, ring, ring.fifo
      ensures Valid()
      ensures raw == Feed(old(raw), b).0
      ensures e == if Feed(old(raw), b).1 == [] then Nothing else EffectOf(Feed(old(raw), b).1[0])
      ensures ring.contents == if e.Forward? then Enqueued(old(ring.contents), e.payload) else old(ring.contents)
    {
      hide Feed, StateOf, Partial, LenOf, IsFrame, Effected, CrcOver, EffectOf, Enqueued;
      e := Nothing;
      match state {
        case IdleS => Start(b);
        case Hdr2 => Second(b);
        case CmdLo => CommandLow(b);
        case CmdHi => CommandHigh(b);
        case LenLo => LengthLow(b);
        case LenHi => LengthHigh(b);
        case Payload => Data(b);
        case CrcLo => CrcLow(b);
        case CrcHi => e := Close(b);
      }
    }

    // bwm_pump over the bytes at hand: what the frames in them forward enters
    // the ring in order, as far as there is room.
    method FeedBytes(bs: seq<octet>)
      requires Valid()
      modifies this, payload, ring, ring.fifo
      ensures Valid() && raw == FeedAll(old(raw), bs).0
      ensures ring.contents == Enqueued(old(ring.contents), Forwarded(old(raw), bs))
    {
      hide Feed, IsFrame, EffectOf, Enqueued;
      ghost var r0, q0 := raw, ring.contents;
      var i := 0;
      assert bs[..0] == [] && q0 + [] == q0;
      NothingFed(r0, q0);
      while i < |bs|
        invariant i <= |bs| && Valid() && Partial(r0) && |q0| < FIFO_SZ
        invariant raw == FeedAll(r0, bs[..i]).0
        invariant ring.contents == Enqueued(q0, Forwarded(r0, bs[..i]))
      {
        ghost var before := Forwarded(r0, bs[..i]);
        ForwardedOn(r0, bs[..i], bs[i]);
        assert bs[..i] + [bs[i]] == bs[..i + 1];
        ghost var fs := Feed(raw, bs[i]).1;
        var e := FeedByte(bs[i]);
        if e.Forward? {
          EnqueuedTwice(q0, before, e.payload);
        } else {
          assert before + [] == before;
        }
        i := i + 1;
      }
      assert bs[..i] == bs;
    }

    method Start(b: octet)
      requires Fields() && state == IdleS
      modifies this
      ensures Fields() && Feed(old(raw), b) == (raw, [])
    {
      Look(b);
    }

    method CrcLow(b: octet)
      requires Fields() && state == CrcLo
      modifies this
      ensures Fields() && Feed(old(raw), b) == (raw, [])
    {
      hide CrcOver;
      crcRecv, state, raw := b, CrcHi, raw + [b];
      assert raw[..6 + got] == old(raw)[..6 + got] == old(raw);
      assert raw[6..6 + got] == old(raw)[6..6 + got];
    }

    method Look(b: octet)
      requires Fields() && raw == []
      modifies this
      ensures Fields() && raw == Restart(b) && Feed([], b) == (raw, [])
    {
      if StartsFrame(b) {
        hdr1, isBcast, state := b, b == BCAST_1, Hdr2;
        raw := [b];
      }
    }

    // A header mismatch looks at the same byte again as a possible start.
    method Second(b: octet)
      requires Fields() && state == Hdr2
      modifies this
      ensures Fields() && Feed(old(raw), b) == (raw, [])
    {
      hide CrcByte;
      var ok := if isBcast then b == BCAST_2 else b == RESP_2;
      if !ok {
        state, raw := IdleS, [];
        Look(b);
        return;
      }
      crcCalc := Crc16([hdr1, b], 0xFFFF);
      state, raw := CmdLo, raw + [b];
      assert raw == [hdr1, b];
    }

    // crc_step
    method Crc(b: octet)
      modifies this`crcCalc
      ensures crcCalc == CrcByte(old(crcCalc), b)
    {
      crcCalc := Crc16([b], crcCalc);
      assert [b][..0] == [];
    }

    method CommandLow(b: octet)
      requires Fields() && state == CmdLo
      modifies this
      ensures Fields() && Feed(old(raw), b) == (raw, [])
    {
      hide CrcByte;
      CrcGrows(raw, b);
      Crc(b);
      cmd, state, raw := b, CmdHi, raw + [b];
    }

    method CommandHigh(b: octet)
      requires Fields() && state == CmdHi
      modifies this
      ensures Fields() && Feed(old(raw), b) == (raw, [])
    {
      hide CrcByte;
      CrcGrows(raw, b);
      Crc(b);
      cmd, state, raw := Pair(cmd, b), LenLo, raw + [b];
    }

    method LengthLow(b: octet)
      requires Fields() && state == LenLo
      modifies this
      ensures Fields() && Feed(old(raw), b) == (raw, [])
    {
      hide CrcByte;
      CrcGrows(raw, b);
      Crc(b);
      len, state, raw := b, LenHi, raw + [b];
    }

    method LengthHigh(b: octet)
      requires Fields() && state == LenHi
      modifies this
      ensures Fields() && Feed(old(raw), b) == (raw, [])
    {
      hide CrcByte, CrcOver, HeaderPair, StartsFrame;
      CrcGrows(raw, b);
      Crc(b);
      len, got := Pair(len, b), 0;
      if len > RX_MAX {
        state, raw := IdleS, [];
      } else {
        state, raw := if len == 0 then CrcLo else Payload, raw + [b];
      }
    }

    method Data(b: octet)
      requires Fields() && state == Payload
      modifies this, payload
      ensures Fields() && Feed(old(raw), b) == (raw, [])
    {
      hide CrcByte, CrcOver, HeaderPair, StartsFrame;
      assert raw[..6 + got] == raw;
      CrcGrows(raw, b);
      payload[got] := b;
      got := got + 1;
      Crc(b);
      raw := raw + [b];
      if got >= len {
        state := CrcLo;
      }
      assert raw[..6 + got] == raw;
      assert raw[6..6 + got] == old(raw[6..6 + got]) + [b];
    }

    // The last byte: act on the frame if its CRC is right, then resync.
    method Close(b: octet) returns (e: Effect)
      requires Valid() && state == CrcHi
      modifies this, ring, ring.fifo
      ensures Valid() && raw == [] && Feed(old(raw), b) == (raw, [old(raw) + [b]]) && e == EffectOf(old(raw) + [b])
      ensures ring.contents == if e.Forward? then Enqueued(old(ring.contents), e.payload) else old(ring.contents)
    {
      hide CrcOver;
      ghost var whole := raw + [b];
      crcRecv := Pair(crcRecv, b);
      assert whole[..|whole| - 2] == raw[..6 + got];
      assert whole[6..|whole| - 2] == payload[..len];
      e := Nothing;
      if crcRecv == Value(crcCalc) {
        e := Act();
      }
      state, raw := IdleS, [];
      if e.Forward? {
        ring.PushAll(e.payload);
      }
    }

    method Act() returns (e: Effect)
      requires payload.Length == RX_MAX && len <= RX_MAX
      ensures e == Effected(isBcast, cmd, payload[..len])
    {
      if isBcast && cmd == DATA_FORWARD {
        e := Forward(payload[..len]);
      } else if !isBcast && cmd == SEND_FORWARD_DATA {
        e := ForwardAck;
      } else if isBcast && cmd == CMD_ERROR && len >= 2 && Pair(payload[0], payload[1]) == SEND_FORWARD_DATA {
        e := ForwardError;
      } else if !isBcast && cmd == SET_UART_BAUD {
        e := BaudAck;
      } else if !isBcast && cmd == GET_UART_BAUD {
        e := GetBaudAck;
      } else if isBcast && cmd == LINK_STATE && len >= 2 {
        e := LinkState(payload[0], payload[1]);
      } else {
        e := Nothing;
      }
    }
  }

  lemma CrcGrows(raw: seq<octet>, b: octet)
    ensures CrcOver(raw + [b], 0xFFFF) == CrcByte(CrcOver(raw, 0xFFFF), b)
  {
    assert (raw + [b])[..|raw|] == raw;
  }

  lemma NothingFed(raw: seq<octet>, q: seq<octet>)
    requires Partial(raw) && |q| < FIFO_SZ
    ensures FeedAll(raw, []).0 == raw && Enqueued(q, Forwarded(raw, [])) == q
  {
  }

  // ---- reading

  // The parser after the first n pieces, and what they brought into a ring that
  // was empty each time.
  ghost function After(raw: seq<octet>, pieces: seq<seq<octet>>, n: nat): (r: seq<octet>)
    requires Partial(raw) && n <= |pieces|
    ensures Partial(r)
  {
    if n == 0 then raw else FeedAll(After(raw, pieces, n - 1), pieces[n - 1]).0
  }

  ghost function Arrived(raw: seq<octet>, pieces: seq<seq<octet>>, n: nat): seq<octet>
    requires Partial(raw) && n <= |pieces|
  {
    if n == 0 then [] else
      Arrived(raw, pieces, n - 1) + Enqueued([], Forwarded(After(raw, pieces, n - 1), pieces[n - 1]))
  }

  // bwm_read_ng: take what the ring holds, pump when it is empty, give up when
  // the pieces stop coming.  What is read and what stays in the ring are exactly
  // what was there and what arrived, in order.
  method ReadNg(p: Parser, n: nat, pieces: seq<seq<octet>>) returns (data: seq<octet>, pumped: nat)
    requires p.Valid()
    modifies p, p.payload, p.ring, p.ring.fifo
    ensures p.Valid() && pumped <= |pieces| && |data| <= n
    ensures p.raw == After(old(p.raw), pieces, pumped)
    ensures data + p.ring.contents == old(p.ring.contents) + Arrived(old(p.raw), pieces, pumped)
    ensures |data| < n ==> pumped == |pieces| && p.ring.contents == []
  {
    hide Partial, FeedAll, Forwarded, Enqueued;
    data, pumped := [], 0;
    ghost var r0, q0 := p.raw, p.ring.contents;
    while |data| < n
      invariant p.Valid() && pumped <= |pieces| && |data| <= n && Partial(r0)
      invariant p.raw == After(r0, pieces, pumped)
      invariant data + p.ring.contents == q0 + Arrived(r0, pieces, pumped)
      decreases |pieces| - pumped, n - |data|
    {
      if p.ring.Count() > 0 {
        ghost var q := p.ring.contents;
        var b := p.ring.Pop();
        assert data + q == (data + [b]) + p.ring.contents;
        data := data + [b];
      } else if pumped == |pieces| {
        return;
      } else {
        assert p.ring.contents == [] && data + [] == data;
        p.FeedBytes(pieces[pumped]);
        pumped := pumped + 1;
        assert q0 + Arrived(r0, pieces, pumped) == (q0 + Arrived(r0, pieces, pumped - 1)) + p.ring.contents;
      }
    }
  }
}
