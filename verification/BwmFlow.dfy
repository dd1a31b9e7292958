// The byte window of armsrc/bwm_forward.c: forward frames sent and not yet
// acknowledged, against an ESP that acknowledges in order.
module BwmFlow {
  const FC_BYTES := 11264
  const FC_MAX_FRAMES := 64
  const ESP_RING := 12288
  const TX_OVERHEAD := 8
  const TX_MAX_PAYLOAD := 4128
  const MAX_FRAME := TX_MAX_PAYLOAD + TX_OVERHEAD

  // A payload too long is cut.
  function FrameLen(payload: nat): (len: nat)
    ensures TX_OVERHEAD <= len <= MAX_FRAME
  {
    (if payload > TX_MAX_PAYLOAD then TX_MAX_PAYLOAD else payload) + TX_OVERHEAD
  }

  function Sum(w: seq<nat>): nat {
    if w == [] then 0 else w[0] + Sum(w[1..])
  }

  lemma {:induction false} SumSnoc(w: seq<nat>, x: nat)
    ensures Sum(w + [x]) == Sum(w) + x
  {
    if w != [] {
      assert (w + [x])[1..] == w[1..] + [x];
      SumSnoc(w[1..], x);
    }
  }

  lemma {:induction false} SumSuffix(w: seq<nat>, n: nat)
    requires n <= |w|
    ensures Sum(w[n..]) <= Sum(w)
    decreases n
  {
    if n > 0 {
      SumSuffix(w[1..], n - 1);
      assert w[1..][n - 1..] == w[n..];
    } else {
      assert w[0..] == w;
    }
  }

  // The gate's test: no room for `need` more bytes, or for one more frame.
  predicate Full(w: seq<nat>, need: nat) {
    |w| >= FC_MAX_FRAMES || Sum(w) + need > FC_BYTES
  }

  // fc_pop, which does nothing to an empty window
  function Popped(w: seq<nat>): seq<nat> { if w == [] then [] else w[1..] }

  function PoppedBy(w: seq<nat>, n: nat): seq<nat> { if n >= |w| then [] else w[n..] }

  // A timeout gives up on just enough of the oldest frames.
  function Forgotten(w: seq<nat>, need: nat): (r: seq<nat>)
    ensures |r| <= |w| && Sum(r) <= Sum(w)
    ensures need <= FC_BYTES ==> !Full(r, need)
  {
    if w == [] || !Full(w, need) then w else Forgotten(w[1..], need)
  }

  // The gate with `acks[i]` acknowledgements picked up by its i-th pump and the
  // timeout after the last of them.
  function Gated(w: seq<nat>, need: nat, acks: seq<nat>): (r: seq<nat>)
    ensures need <= FC_BYTES ==> !Full(r, need)
    decreases |acks|
  {
    if !Full(w, need) then w
    else if acks == [] then Forgotten(w, need)
    else Gated(PoppedBy(w, acks[0]), need, acks[1..])
  }

  // ---- the ring of lengths

  class Window {
    const lens: array<nat>
    var head: nat
    var count: nat
    var bytes: nat
    ghost var queue: seq<nat>

    ghost predicate Valid()
      reads this, lens
    {
      && lens.Length == FC_MAX_FRAMES && head < FC_MAX_FRAMES
      && count == |queue| <= FC_MAX_FRAMES && bytes == Sum(queue)
      && forall k :: 0 <= k < count ==> queue[k] == lens[Slot(head, k)]
    }

    static function Slot(head: nat, k: nat): nat
      requires head < FC_MAX_FRAMES && k <= FC_MAX_FRAMES
    {
      if head + k < FC_MAX_FRAMES then head + k else head + k - FC_MAX_FRAMES
    }

    constructor ()
      ensures Valid() && queue == []
    {
      lens := new nat[FC_MAX_FRAMES];
      head, count, bytes, queue := 0, 0, 0, [];
    }

    // fc_reset
    method Reset()
      requires Valid()
      modifies this
      ensures Valid() && queue == []
    {
      head, count, bytes, queue := 0, 0, 0, [];
    }

    // fc_push
    method Push(len: nat)
      requires Valid() && count < FC_MAX_FRAMES
      modifies this, lens
      ensures Valid() && queue == old(queue) + [len]
    {
      SumSnoc(queue, len);
      lens[Slot(head, count)] := len;
      count := count + 1;
      bytes := bytes + len;
      queue := queue + [len];
    }

    // fc_pop
    method Pop()
      requires Valid()
      modifies this
      ensures Valid() && queue == Popped(old(queue))
    {
      if count == 0 {
        return;
      }
      bytes := bytes - lens[Slot(head, 0)];
      head := Slot(head, 1);
      count := count - 1;
      queue := queue[1..];
    }

    // bwm_pump, as far as the acknowledgements in it reach
    method Pump(acks: nat)
      requires Valid()
      modifies this
      ensures Valid() && queue == PoppedBy(old(queue), acks)
    {
      var i := 0;
      while i < acks
        invariant i <= acks && Valid() && queue == PoppedBy(old(queue), i)
      {
        Pop();
        i := i + 1;
      }
    }

    method Forget(need: nat)
      requires Valid()
      modifies this
      ensures Valid() && queue == Forgotten(old(queue), need)
    {
      while count > 0 && (count >= FC_MAX_FRAMES || bytes + need > FC_BYTES)
        invariant Valid() && Forgotten(queue, need) == Forgotten(old(queue), need)
        decreases count
      {
        Pop();
      }
    }

    // The gate of bwm_fwd_writebuffer_sync and the push behind it.
    method Send(payload: nat, acks: seq<nat>) returns (len: nat)
      requires Valid()
      modifies this, lens
      ensures len == FrameLen(payload)
      ensures Valid() && queue == Gated(old(queue), len, acks) + [len]
      ensures bytes <= FC_BYTES && count <= FC_MAX_FRAMES
    {
      len := FrameLen(payload);
      var i := 0;
      assert acks[0..] == acks;
      while count >= FC_MAX_FRAMES || bytes + len > FC_BYTES
        invariant i <= |acks| && Valid() && Gated(queue, len, acks[i..]) == Gated(old(queue), len, acks)
        decreases |acks| - i
      {
        if i == |acks| {
          Forget(len);
          break;
        }
        Pump(acks[i]);
        assert acks[i..][1..] == acks[i + 1..];
        i := i + 1;
      }
      SumSnoc(queue, len);
      Push(len);
    }
  }

  // ---- both parties

  // Every frame sent so far, the window, how many frames the ESP has taken out
  // of its ring, the acknowledgements on their way, those lost and those that
  // found the window empty, and the frames given up with their bytes.
  datatype System = System(sent: seq<nat>, w: seq<nat>, taken: nat, inAir: nat, lost: nat, wasted: nat, forgotten: nat, given: nat)

  const START := System([], [], 0, 0, 0, 0, 0, 0)

  // The ESP takes a frame and acknowledges it (or reports that it could not be
  // delivered, which counts the same); an acknowledgement arrives or is lost; a
  // frame that fits is sent; or the gate times out on one that does not, gives
  // up what it must and sends it, all at once.
  datatype Event = Take | Ack | LoseAck | Send(payload: nat) | Timeout(payload: nat)

  function Step(s: System, e: Event): System {
    match e
    case Take => if s.taken < |s.sent| then s.(taken := s.taken + 1, inAir := s.inAir + 1) else s
    case Ack =>
      if s.inAir == 0 then s
      else s.(inAir := s.inAir - 1, w := Popped(s.w), wasted := if s.w == [] then s.wasted + 1 else s.wasted)
    case LoseAck => if s.inAir > 0 then s.(inAir := s.inAir - 1, lost := s.lost + 1) else s
    case Send(payload) =>
      var len := FrameLen(payload);
      if !Full(s.w, len) then s.(sent := s.sent + [len], w := s.w + [len]) else s
    case Timeout(payload) =>
      var len := FrameLen(payload);
      var w := Forgotten(s.w, len);
      if !Full(s.w, len) then s
      else s.(sent := s.sent + [len], w := w + [len], forgotten := s.forgotten + |s.w| - |w|, given := s.given + Sum(s.w) - Sum(w))
  }

  function Run(es: seq<Event>): System {
    if es == [] then START else Step(Run(es[..|es| - 1]), es[|es| - 1])
  }

  // What the ESP has not taken yet.
  function Queue(s: System): seq<nat>
    requires s.taken <= |s.sent|
  {
    s.sent[s.taken..]
  }

  // The window is what was sent last.
  ghost predicate Tail(sent: seq<nat>, w: seq<nat>) {
    |w| <= |sent| && w == sent[|sent| - |w|..]
  }

  ghost predicate Framed(sent: seq<nat>) {
    forall i :: 0 <= i < |sent| ==> TX_OVERHEAD <= sent[i] <= MAX_FRAME
  }

  ghost predicate Inv(s: System) {
    && s.taken <= |s.sent| && s.inAir + s.lost + s.wasted <= s.taken && s.wasted <= s.forgotten
    && |s.w| <= FC_MAX_FRAMES && Sum(s.w) <= FC_BYTES
    && Tail(s.sent, s.w) && Framed(s.sent)
    && |s.w| + s.forgotten == |s.sent| - s.taken + s.inAir + s.lost + s.wasted
  }

  lemma StepKeeps(s: System, e: Event)
    requires Inv(s)
    ensures Inv(Step(s, e))
  {
    hide Sum, Tail, Framed;
    match e {
      case Ack => if s.w != [] { FrontGone(s.sent, s.w); }
      case Timeout(payload) =>
        var w := Forgotten(s.w, FrameLen(payload));
        FrontsGone(s.sent, s.w, FrameLen(payload));
        BackGrown(s.sent, w, FrameLen(payload));
      case Send(payload) => BackGrown(s.sent, s.w, FrameLen(payload));
      case _ =>
    }
  }

  lemma FrontGone(sent: seq<nat>, w: seq<nat>)
    requires w != [] && Tail(sent, w)
    ensures Tail(sent, w[1..]) && Sum(w[1..]) <= Sum(w)
  {
    SumSuffix(w, 1);
  }

  lemma {:induction false} FrontsGone(sent: seq<nat>, w: seq<nat>, need: nat)
    requires Tail(sent, w)
    ensures Tail(sent, Forgotten(w, need))
    decreases |w|
  {
    hide Sum, Tail, Full;
    if w != [] && Full(w, need) {
      FrontGone(sent, w);
      FrontsGone(sent, w[1..], need);
    }
  }

  lemma BackGrown(sent: seq<nat>, w: seq<nat>, x: nat)
    requires Tail(sent, w) && Framed(sent) && TX_OVERHEAD <= x <= MAX_FRAME
    ensures Tail(sent + [x], w + [x]) && Framed(sent + [x]) && Sum(w + [x]) == Sum(w) + x
  {
    SumSnoc(w, x);
  }

  lemma {:induction false} RunKeeps(es: seq<Event>)
    ensures Inv(Run(es))
  {
    hide Sum;
    if es != [] {
      RunKeeps(es[..|es| - 1]);
      StepKeeps(Run(es[..|es| - 1]), es[|es| - 1]);
    } else {
      assert START.sent[0..] == [];
      Sums(0);
    }
  }

  // n frames more bytes than a suffix: at least the overhead of each, at most
  // the largest frame for each.
  lemma {:induction false} SumBetween(w: seq<nat>, n: nat)
    requires n <= |w| && Framed(w)
    ensures Sum(w[n..]) + n * TX_OVERHEAD <= Sum(w) <= Sum(w[n..]) + n * MAX_FRAME
    decreases n
  {
    if n > 0 {
      SumBetween(w[1..], n - 1);
      assert w[1..][n - 1..] == w[n..];
    } else {
      assert w[0..] == w;
    }
  }

  // The window never holds more than its bytes or its frames, through any
  // timeouts and losses.  It covers what the ESP has not taken exactly as long
  // as no more frames were given up than acknowledgements are outstanding, were
  // lost or came to nothing; and whatever was given up, the ESP holds at most
  // that many of the largest frames beyond it.  With as many given up as lost or
  // wasted, none to begin with, it is what the ESP holds and what it has taken
  // without the acknowledgement having arrived.
  lemma WindowCovers(es: seq<Event>)
    ensures var s := Run(es);
      && Sum(s.w) <= FC_BYTES && |s.w| <= FC_MAX_FRAMES && s.taken <= |s.sent|
      && (Sum(Queue(s)) <= Sum(s.w) <==> s.forgotten <= s.inAir + s.lost + s.wasted)
      && Sum(Queue(s)) <= FC_BYTES + s.forgotten * MAX_FRAME
      && (s.forgotten == s.lost + s.wasted ==> s.inAir <= s.taken && s.w == s.sent[s.taken - s.inAir..])
      && (s.forgotten == s.inAir + s.lost + s.wasted ==> s.w == Queue(s))
  {
    hide Sum, Run;
    RunKeeps(es);
    var s := Run(es);
    Compare(s.sent, s.taken, |s.sent| - |s.w|, s.forgotten);
  }

  // What is behind t against what is behind u.
  lemma Compare(sent: seq<nat>, t: nat, u: nat, k: nat)
    requires t <= |sent| && u <= |sent| && u <= t + k
    requires Framed(sent)
    ensures Sum(sent[t..]) <= Sum(sent[u..]) <==> u <= t
    ensures Sum(sent[t..]) <= Sum(sent[u..]) + k * MAX_FRAME
  {
    hide Sum;
    if u <= t {
      SumSuffix(sent[u..], t - u);
      assert sent[u..][t - u..] == sent[t..];
    } else {
      assert sent[t..][u - t..] == sent[u..];
      Beyond(sent[t..], u - t, k);
    }
  }

  lemma Beyond(q: seq<nat>, n: nat, k: nat)
    requires 0 < n <= |q| && n <= k && Framed(q)
    ensures Sum(q[n..]) < Sum(q) <= Sum(q[n..]) + k * MAX_FRAME
  {
    hide Sum;
    SumBetween(q, n);
  }

  // With nothing given up, what the ESP holds fits its ring.
  lemma NothingGivenUp(es: seq<Event>)
    requires Run(es).forgotten == 0
    ensures Run(es).taken <= |Run(es).sent| && Sum(Queue(Run(es))) < ESP_RING
  {
    hide Run, Sum;
    WindowCovers(es);
  }

  // Giving frames up heals: once every frame sent has been acknowledged, the
  // window is empty exactly when as many frames were given up as
  // acknowledgements were lost or came to nothing; so always, when none was lost.
  lemma WindowDrains(es: seq<Event>)
    ensures var s := Run(es);
      && (s.taken == |s.sent| && s.inAir == 0 ==> (s.w == [] <==> s.forgotten == s.lost + s.wasted))
      && (s.taken == |s.sent| && s.inAir == 0 && s.lost == 0 ==> s.w == [])
  {
    RunKeeps(es);
    var s := Run(es);
    assert |s.w| == 0 <==> s.w == [];
  }

  lemma RunOn(es: seq<Event>, e: Event)
    ensures Run(es + [e]) == Step(Run(es), e)
  {
    assert (es + [e])[..|es|] == es;
  }

  lemma RunNone()
    ensures Run([]) == START
  {
  }

  lemma Sums(x: nat)
    ensures Sum([]) == 0 && Sum([x]) == x && Sum([x, x]) == 2 * x && Sum([x, x, x]) == 3 * x
  {
    SumSnoc([], x);
    SumSnoc([x], x);
    SumSnoc([x, x], x);
  }

  lemma FiveSums(x: nat, y: nat, z: nat)
    ensures var w := [x, x, x, x, x];
      Sum(w) == 5 * x && Sum([z] + w) == z + 5 * x && Sum([x, x, x, x, y]) == 4 * x + y && Sum(w + [y, x]) == 6 * x + y
  {
    hide Sum;
    var w := [x, x, x, x, x];
    Sums(x);
    SumSnoc([x, x, x], x);
    SumSnoc([x, x, x, x], x);
    SumFront(z, w);
    SumSnoc([x, x, x, x], y);
    SumSnoc(w, y);
    SumSnoc(w + [y], x);
    assert [x, x, x] + [x] == [x, x, x, x] && [x, x, x, x] + [x] == w;
    assert [x, x, x, x] + [y] == [x, x, x, x, y] && w + [y] + [x] == w + [y, x];
  }

  lemma SumFront(x: nat, w: seq<nat>)
    ensures Sum([x] + w) == x + Sum(w)
  {
    assert ([x] + w)[1..] == w;
  }

  // One more frame goes out of a gate that is open.
  lemma SendOne(es: seq<Event>, payload: nat, s: System)
    requires Run(es) == s && !Full(s.w, FrameLen(payload))
    ensures Run(es + [Send(payload)]) == s.(sent := s.sent + [FrameLen(payload)], w := s.w + [FrameLen(payload)])
  {
    hide Run, Full;
    RunOn(es, Send(payload));
  }

  // A short frame and five long ones.
  lemma FillUp() returns (es: seq<Event>)
    ensures var w := [20, 2068, 2068, 2068, 2068, 2068]; Run(es) == START.(sent := w, w := w)
  {
    hide Run;
    var B: nat := 2068;
    RunNone();
    es := [];
    var w: seq<nat> := [];
    assert Sum(w) == 0;
    SendOne(es, 12, START);
    es, w := es + [Send(12)], [20];
    assert [] + [20] == w;
    for i := 0 to 5
      invariant |w| == i + 1 && w == [20] + seq(i, _ => B) && Sum(w) == 20 + i * B
      invariant Run(es) == START.(sent := w, w := w)
    {
      SendOne(es, 2060, START.(sent := w, w := w));
      SumSnoc(w, B);
      es, w := es + [Send(2060)], w + [B];
    }
    assert w == [20, B, B, B, B, B];
  }

  // The gate times out on one frame more; the short one is enough to give up.
  lemma GiveUpShort() returns (es: seq<Event>)
    ensures var w := [2068, 2068, 2068, 2068, 2068, 905];
      Run(es) == System([20] + w, w, 0, 0, 0, 0, 1, 20)
  {
    hide Run, Sum;
    var w: seq<nat>, first: seq<nat> := [2068, 2068, 2068, 2068, 2068], [20];
    FiveSums(2068, 905, 20);
    es := FillUp();
    assert first + w == [20, 2068, 2068, 2068, 2068, 2068];
    assert (first + w)[1..] == w;
    assert Forgotten(first + w, 905) == w;
    RunOn(es, Timeout(897));
    es := es + [Timeout(897)];
    assert w + [905] == [2068, 2068, 2068, 2068, 2068, 905];
    assert first + w + [905] == first + (w + [905]);
  }

  // One frame given up, of twenty bytes, is enough to outrun the ESP's ring: its
  // acknowledgement then stands for a frame a hundred times as long.
  lemma TimeoutOverflows() returns (es: seq<Event>)
    ensures var s := Run(es);
      s.forgotten == 1 && s.given == 20 && s.taken <= |s.sent| && Sum(Queue(s)) > ESP_RING > FC_BYTES + s.given
  {
    hide Run, Sum;
    var w: seq<nat> := [2068, 2068, 2068, 2068, 2068, 905];
    var later: seq<nat>, first: seq<nat> := [2068, 2068, 2068, 2068, 905], [20];
    FiveSums(2068, 905, 20);
    es := GiveUpShort();
    RunOn(es, Take);
    es := es + [Take];
    RunOn(es, Ack);
    es := es + [Ack];
    assert w[1..] == later;
    assert Run(es) == System(first + w, later, 1, 0, 0, 0, 1, 20);
    SendOne(es, 2060, System(first + w, later, 1, 0, 0, 0, 1, 20));
    es := es + [Send(2060)];
    assert Queue(Run(es)) == [2068, 2068, 2068, 2068, 2068] + [905, 2068];
  }
}
