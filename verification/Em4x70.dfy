// Receiving from an EM4x70 tag (em4x70_receive of armsrc/em4x70.c): Manchester
// code read back from the time between edges.
module Em4x70 {
  const HALF_PERIOD := 192
  const TOLERANCE := 96
  const PULSES_TO_SEARCH := 16
  const TIMEOUT_HALVES := 8          // four full periods

  datatype Edge = Rising | Falling

  // ---- the waveform, half a bit period at a time

  // A 1 is high then low, a 0 low then high.
  function Coded(bits: seq<bool>): (r: seq<bool>)
    ensures |r| == 2 * |bits|
  {
    seq(2 * |bits|, k requires 0 <= k < 2 * |bits| => bits[k / 2] == (k % 2 == 0))
  }

  // How far the level v lasts from pos on, but not past `end`.
  function Lasts(levels: seq<bool>, v: bool, pos: nat, end: nat): (r: nat)
    requires pos <= end <= |levels|
    ensures pos <= r <= end
    ensures forall k :: pos <= k < r ==> levels[k] == v
    ensures r < end ==> levels[r] != v
    decreases end - pos
  {
    if pos == end || levels[pos] != v then pos else Lasts(levels, v, pos + 1, end)
  }

  function Deadline(levels: seq<bool>, pos: nat): (r: nat)
    requires pos <= |levels|
    ensures pos <= r <= |levels|
  {
    if pos + TIMEOUT_HALVES <= |levels| then pos + TIMEOUT_HALVES else |levels|
  }

  // Where the pulse that is measured from pos starts and ends; no pulse when
  // the time is up first.
  datatype Pulse = NoPulse | Pulse(start: nat, end: nat)

  function PulseFrom(levels: seq<bool>, up: bool, pos: nat): Pulse
    requires pos <= |levels|
  {
    var d := Deadline(levels, pos);
    var a := Lasts(levels, !up, pos, d);
    if a == d then NoPulse else
      var b := Lasts(levels, up, a, d);
      if b == d then NoPulse else
        var c := Lasts(levels, !up, b, d);
        if c == d then NoPulse else Pulse(a, c)
  }

  // check_pulse_length
  predicate IsLong(ticks: int, halves: nat) {
    halves * HALF_PERIOD - TOLERANCE <= ticks <= halves * HALF_PERIOD + TOLERANCE
  }

  // How far off the measured length of a pulse is.
  ghost predicate Steady(noise: nat -> int) {
    forall i: nat :: -TOLERANCE < noise(i) < TOLERANCE
  }

  class Receiver {
    const levels: seq<bool>
    const noise: nat -> int
    var pos: nat                     // where in the waveform
    var measured: nat                // how many pulses so far

    constructor (levels: seq<bool>, noise: nat -> int, pos: nat)
      ensures this.levels == levels && this.noise == noise && this.pos == pos && measured == 0
    {
      this.levels, this.noise, this.pos, measured := levels, noise, pos, 0;
    }

    // get_rising_pulse_length and get_falling_pulse_length
    method PulseLength(edge: Edge) returns (ticks: int)
      requires pos <= |levels|
      modifies this
      ensures pos <= |levels| && measured == old(measured) + 1
      ensures var p := PulseFrom(levels, edge.Rising?, old(pos));
        if p.NoPulse? then ticks == 0
        else ticks == (p.end - p.start) * HALF_PERIOD + noise(old(measured)) && pos == p.end
    {
      var up := edge.Rising?;
      var d := Deadline(levels, pos);
      measured := measured + 1;
      ticks := 0;
      Wait(!up, d);
      if pos == d {
        return;
      }
      var start := pos;
      Wait(up, d);
      if pos == d {
        return;
      }
      Wait(!up, d);
      if pos == d {
        return;
      }
      ticks := (pos - start) * HALF_PERIOD + noise(measured - 1);
    }

    method Wait(v: bool, end: nat)
      requires pos <= end <= |levels|
      modifies this`pos
      ensures pos == Lasts(levels, v, old(pos), end)
    {
      while pos < end && levels[pos] == v
        invariant old(pos) <= pos <= end && Lasts(levels, v, pos, end) == Lasts(levels, v, old(pos), end)
      {
        pos := pos + 1;
      }
    }
  }

  // ---- one pulse after bit i - 1

  // The edge in the middle of bit i - 1 is the one the next pulse starts from.
  ghost predicate At(bits: seq<bool>, edge: Edge, i: nat, pos: nat) {
    && 0 < i <= |bits| && (pos == 2 * i - 2 || pos == 2 * i - 1)
    && bits[i - 1] == edge.Falling?
  }

  lemma Level(bits: seq<bool>, i: nat)
    requires i < |bits|
    ensures Coded(bits)[2 * i] == bits[i] && Coded(bits)[2 * i + 1] == !bits[i]
  {
  }

  function Flip(edge: Edge): Edge { if edge.Rising? then Falling else Rising }

  // Which bits the pulse stands for: the next one repeats the last, or the next
  // one differs and the one after it decides.
  lemma NextPulse(bits: seq<bool>, edge: Edge, i: nat, pos: nat)
    requires At(bits, edge, i, pos) && i + 1 < |bits|
    ensures var p, v := PulseFrom(Coded(bits), edge.Rising?, pos), edge.Falling?;
      && p.Pulse? && p.start == 2 * i - 1
      && (bits[i] == v ==> p.end == p.start + 2 && At(bits, edge, i + 1, p.end))
      && (bits[i] != v && bits[i + 1] != v ==> p.end == p.start + 3 && At(bits, Flip(edge), i + 2, p.end))
      && (bits[i] != v && bits[i + 1] == v ==> p.end == p.start + 4 && At(bits, edge, i + 2, p.end))
  {
    hide Coded;
    Level(bits, i - 1);
    Level(bits, i);
    Level(bits, i + 1);
    var levels, up, d := Coded(bits), edge.Rising?, Deadline(Coded(bits), pos);
    var last := if bits[i] == edge.Falling? then 2 * i else 2 * i + 1;
    LastsTo(levels, !up, pos, d, 2 * i - 1);
    LastsTo(levels, up, 2 * i - 1, d, last);
    LastsTo(levels, !up, last, d, if bits[i] == edge.Falling? then 2 * i + 1 else if bits[i + 1] != edge.Falling? then 2 * i + 2 else 2 * i + 3);
  }

  lemma LastsTo(levels: seq<bool>, v: bool, pos: nat, end: nat, r: nat)
    requires pos <= r < end <= |levels| && levels[r] != v
    requires forall k :: pos <= k < r ==> levels[k] == v
    ensures Lasts(levels, v, pos, end) == r
    decreases r - pos
  {
    if pos < r {
      LastsTo(levels, v, pos + 1, end, r);
    }
  }

  // While the header's 1s last, rising edges are one period apart; the first 0
  // makes it one and a half.
  lemma HeaderPulse(bits: seq<bool>, i: nat, pos: nat)
    requires i + 1 < |bits| && bits[i] && (pos == 2 * i || (pos + 1 == 2 * i && bits[i - 1]))
    ensures var p := PulseFrom(Coded(bits), true, pos);
      && p.Pulse? && p.start == 2 * i
      && (bits[i + 1] ==> p.end == p.start + 2)
      && (!bits[i + 1] ==> p.end == p.start + 3 && At(bits, Rising, i + 2, p.end))
  {
    hide Coded;
    if i > 0 {
      Level(bits, i - 1);
    }
    Level(bits, i);
    Level(bits, i + 1);
    var levels, d := Coded(bits), Deadline(Coded(bits), pos);
    LastsTo(levels, false, pos, d, 2 * i);
    LastsTo(levels, true, 2 * i, d, 2 * i + 1);
    LastsTo(levels, false, 2 * i + 1, d, if bits[i + 1] then 2 * i + 2 else 2 * i + 3);
  }

  // ---- receiving

  // What a tag sends: what is left of the header's 1s, four 0s, and the answer.
  function Frame(ones: nat, message: seq<bool>, more: seq<bool>): seq<bool> {
    seq(ones, _ => true) + [false, false, false, false] + message + more
  }

  // The receiver starts on a half-bit boundary among at most 16 leading 1s, and
  // at least one more coded bit follows the message.
  ghost predicate Sends(r: Receiver, pos: nat, message: seq<bool>, ones: nat, more: seq<bool>) {
    && r.levels == Coded(Frame(ones, message, more)) && Steady(r.noise)
    && pos < ones <= PULSES_TO_SEARCH && pos <= 1 && more != []
  }

  lemma FrameBits(ones: nat, message: seq<bool>, more: seq<bool>)
    ensures var b := Frame(ones, message, more);
      && |b| == ones + 4 + |message| + |more|
      && (forall k :: 0 <= k < ones ==> b[k])
      && (forall k :: ones <= k < ones + 4 ==> !b[k])
      && (forall k :: 0 <= k < |message| ==> b[ones + 4 + k] == message[k])
  {
  }

  lemma Measured(ticks: int, halves: nat, noise: int)
    requires ticks == halves * HALF_PERIOD + noise && -TOLERANCE < noise < TOLERANCE
    ensures forall h: nat {:trigger IsLong(ticks, h)} :: IsLong(ticks, h) <==> h == halves
  {
  }

  // Waiting for the change from 1s to 0s.
  method FindHeader(r: Receiver, ghost message: seq<bool>, ghost ones: nat, ghost more: seq<bool>) returns (found: bool)
    requires r.pos <= |r.levels|
    modifies r
    ensures r.pos <= |r.levels|
    ensures old(Sends(r, r.pos, message, ones, more)) ==>
      found && At(Frame(ones, message, more), Rising, ones + 1, r.pos)
  {
    ghost var sent, bits, first := Sends(r, r.pos, message, ones, more), Frame(ones, message, more), r.pos;
    FrameBits(ones, message, more);
    found := false;
    var i := 0;
    while i < PULSES_TO_SEARCH && !found
      invariant i <= PULSES_TO_SEARCH && r.pos <= |r.levels|
      invariant sent && !found ==> first + i < ones && (r.pos == 2 * (first + i) || (i == 0 && first == 1 && r.pos == 1))
      invariant sent && found ==> At(bits, Rising, ones + 1, r.pos)
    {
      ghost var pos, count := r.pos, r.measured;
      if sent {
        HeaderPulse(bits, first + i, pos);
      }
      var ticks := r.PulseLength(Rising);
      if sent {
        Measured(ticks, if first + i + 1 < ones then 2 else 3, r.noise(count));
      }
      found := IsLong(ticks, 3);
      i := i + 1;
    }
  }

  // The three 0s left of the header.
  method SkipZeros(r: Receiver, ghost message: seq<bool>, ghost ones: nat, ghost more: seq<bool>, ghost first: nat) returns (ok: bool)
    requires r.pos <= |r.levels|
    modifies r
    ensures r.pos <= |r.levels|
    ensures Sends(r, first, message, ones, more) && old(At(Frame(ones, message, more), Rising, ones + 1, r.pos)) ==>
      ok && At(Frame(ones, message, more), Rising, ones + 4, r.pos)
  {
    ghost var bits := Frame(ones, message, more);
    ghost var sent := Sends(r, first, message, ones, more) && At(bits, Rising, ones + 1, r.pos);
    FrameBits(ones, message, more);
    ok := true;
    var i := 0;
    while i < 3 && ok
      invariant i <= 3 && r.pos <= |r.levels|
      invariant sent ==> ok && At(bits, Rising, ones + 1 + i, r.pos)
    {
      ghost var pos, count := r.pos, r.measured;
      if sent {
        NextPulse(bits, Rising, ones + 1 + i, pos);
      }
      var ticks := r.PulseLength(Rising);
      if sent {
        Measured(ticks, 2, r.noise(count));
      }
      ok := IsLong(ticks, 2);
      i := i + 1;
    }
  }

  // em4x70_receive: of any message sent as the tag sends it, however unevenly
  // the edges come within the tolerance, exactly its bits are read.
  method Receive(r: Receiver, bits: array<bool>, ghost message: seq<bool>, ghost ones: nat, ghost more: seq<bool>) returns (n: nat)
    requires r.pos <= |r.levels|
    modifies r, bits
    ensures n <= bits.Length
    ensures old(Sends(r, r.pos, message, ones, more)) && |message| == bits.Length ==>
      n == bits.Length && bits[..] == message
  {
    ghost var first := r.pos;
    ghost var sent := Sends(r, first, message, ones, more) && |message| == bits.Length;
    var found := FindHeader(r, message, ones, more);
    if !found {
      return 0;
    }
    var zeros := SkipZeros(r, message, ones, more, first);
    if !zeros {
      return 0;
    }
    n := ReadBits(r, bits, message, ones, more, first);
    assert n == bits.Length ==> bits[..n] == bits[..];
  }

  // Where the reading stands once n bits are in.
  ghost predicate Reading(r: Receiver, bits: array<bool>, n: nat, edge: Edge, message: seq<bool>, ones: nat, more: seq<bool>)
    reads r, bits
  {
    && n <= bits.Length == |message| && bits[..n] == message[..n]
    && (n < |message| ==> At(Frame(ones, message, more), edge, ones + 4 + n, r.pos))
  }

  method ReadBits(r: Receiver, bits: array<bool>, ghost message: seq<bool>, ghost ones: nat, ghost more: seq<bool>, ghost first: nat) returns (n: nat)
    requires r.pos <= |r.levels|
    modifies r, bits
    ensures n <= bits.Length
    ensures Sends(r, first, message, ones, more) && old(At(Frame(ones, message, more), Rising, ones + 4, r.pos)) && |message| == bits.Length ==>
      n == bits.Length && bits[..n] == message
  {
    ghost var sent := Sends(r, first, message, ones, more) && |message| == bits.Length
      && At(Frame(ones, message, more), Rising, ones + 4, r.pos);
    var edge := Rising;
    var more' := true;
    n := 0;
    while n < bits.Length && more'
      invariant n <= bits.Length && r.pos <= |r.levels|
      invariant sent ==> more' && Reading(r, bits, n, edge, message, ones, more)
      decreases bits.Length - n, more'
    {
      edge, n, more' := ReadPulse(r, bits, n, edge, message, ones, more, first);
    }
  }

  // One pulse: one bit, or two.
  method ReadPulse(r: Receiver, bits: array<bool>, n: nat, edge: Edge,
                   ghost message: seq<bool>, ghost ones: nat, ghost more: seq<bool>, ghost first: nat)
    returns (edge': Edge, n': nat, ok: bool)
    requires r.pos <= |r.levels| && n < bits.Length
    modifies r, bits
    ensures r.pos <= |r.levels| && n <= n' <= bits.Length && (ok ==> n < n')
    ensures Sends(r, first, message, ones, more) && old(Reading(r, bits, n, edge, message, ones, more)) ==>
      ok && Reading(r, bits, n', edge', message, ones, more)
  {
    hide PulseFrom, Coded, Frame, Fresh, At;
    ghost var pos, count, was := r.pos, r.measured, bits[..n];
    ghost var sent := Sends(r, first, message, ones, more) && Reading(r, bits, n, edge, message, ones, more);
    ghost var p := PulseFrom(r.levels, edge.Rising?, pos);
    if sent {
      PulseReads(message, ones, more, n, edge, pos);
    }
    var ticks := r.PulseLength(edge);
    if sent {
      Measured(ticks, p.end - p.start, r.noise(count));
    }
    var last := edge.Falling?;
    var xs: seq<bool>;
    if IsLong(ticks, 2) {
      edge', xs := edge, [last];
    } else if IsLong(ticks, 3) {
      edge', xs := Flip(edge), [!last, !last];
    } else if IsLong(ticks, 4) {
      edge', xs := edge, [!last, last];
    } else {
      return edge, n, false;
    }
    ok := true;
    n' := Place(bits, n, xs);
    if sent {
      Grown(message, was, xs, n, n');
    }
  }

  // The bits are the message's next ones, as far as it goes.
  ghost predicate Fresh(message: seq<bool>, n: nat, xs: seq<bool>) {
    forall k :: 0 <= k < |xs| && n + k < |message| ==> xs[k] == message[n + k]
  }

  lemma Grown(message: seq<bool>, was: seq<bool>, xs: seq<bool>, n: nat, n': nat)
    requires n < |message| && was == message[..n] && Fresh(message, n, xs)
    requires n' == if n + |xs| <= |message| then n + |xs| else |message|
    ensures was + xs[..n' - n] == message[..n']
  {
  }

  // The next pulse's length, the bits it stands for, and where it ends.
  lemma PulseReads(message: seq<bool>, ones: nat, more: seq<bool>, n: nat, edge: Edge, pos: nat)
    requires n < |message| && more != [] && At(Frame(ones, message, more), edge, ones + 4 + n, pos)
    ensures var b, v := Frame(ones, message, more), edge.Falling?;
      var p := PulseFrom(Coded(b), edge.Rising?, pos);
      && p.Pulse? && 2 <= p.end - p.start <= 4
      && (p.end - p.start == 2 ==> Fresh(message, n, [v]) && (n + 1 < |message| ==> At(b, edge, ones + 4 + n + 1, p.end)))
      && (p.end - p.start == 3 ==> Fresh(message, n, [!v, !v]) && (n + 2 < |message| ==> At(b, Flip(edge), ones + 4 + n + 2, p.end)))
      && (p.end - p.start == 4 ==> Fresh(message, n, [!v, v]) && (n + 2 < |message| ==> At(b, edge, ones + 4 + n + 2, p.end)))
  {
    hide PulseFrom, Coded, Frame, At;
    FrameBits(ones, message, more);
    NextPulse(Frame(ones, message, more), edge, ones + 4 + n, pos);
  }

  // Bits go in as far as there is room.
  method Place(bits: array<bool>, n: nat, xs: seq<bool>) returns (n': nat)
    requires n < bits.Length && 1 <= |xs| <= 2
    modifies bits
    ensures n' == if n + |xs| <= bits.Length then n + |xs| else bits.Length
    ensures bits[..n'] == old(bits[..n]) + xs[..n' - n]
  {
    bits[n] := xs[0];
    n' := n + 1;
    if |xs| == 2 && n' < bits.Length {
      bits[n'] := xs[1];
      n' := n' + 1;
    }
  }
}
