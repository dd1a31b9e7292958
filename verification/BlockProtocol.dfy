// The block protocol of ISO/IEC 14443-4 as the simulated card runs it
// (armsrc/desfiresim.c), against a reader that follows sections 7.5.3 and 7.5.4
// over a half-duplex link that may lose any frame.
module BlockProtocol {
  import opened Wrappers

  type Bit = b: nat | b < 2

  function Flip(b: Bit): Bit { 1 - b }

  // An information block, and the two receive-ready blocks R(ACK) and R(NAK).
  datatype Block<A> = I(num: Bit, inf: A) | Ack(num: Bit) | Nak(num: Bit)

  // The application behind the card: its answer to the last of the APDUs it
  // has been given since RATS.
  type App<!A> = seq<A> -> A

  // ---- the card

  datatype CardState<A> = CardState(expected: Bit, picc: Bit, last: Option<Block<A>>, executed: seq<A>)

  function Fresh<A>(): CardState<A> { CardState(0, 1, None, []) }

  function Receive<A>(app: App<A>, c: CardState<A>, b: Block<A>): (r: (CardState<A>, Option<Block<A>>)) {
    match b
    case I(num, inf) =>
      if num != c.expected then (c, Some(Nak(c.expected)))
      else
        var executed := c.executed + [inf];
        var answer := I(Flip(c.picc), app(executed));
        (CardState(Flip(c.expected), Flip(c.picc), Some(answer), executed), Some(answer))
    case Ack(num) => (c, if num == c.picc then c.last else None)
    case Nak(num) => (c, if num == c.picc && c.last.Some? then c.last else Some(Ack(c.picc)))
  }

  // The card as the loop keeps it: block numbers, the last answer, and the
  // APDUs it has acted on.
  class Card<A(==)> {
    const app: App<A>
    var expectedPcdBlock: Bit
    var piccBlock: Bit
    var lastAnswer: Option<Block<A>>
    var executed: seq<A>

    ghost function State(): CardState<A>
      reads this
    {
      CardState(expectedPcdBlock, piccBlock, lastAnswer, executed)
    }

    constructor (app: App<A>)
      ensures State() == Fresh() && this.app == app
    {
      this.app := app;
      expectedPcdBlock, piccBlock, lastAnswer, executed := 0, 1, None, [];
    }

    method OnBlock(b: Block<A>) returns (reply: Option<Block<A>>)
      modifies this
      ensures (State(), reply) == Receive(app, old(State()), b)
    {
      match b {
        case Ack(num) =>
          reply := if num == piccBlock then lastAnswer else None;
        case Nak(num) =>
          reply := if num == piccBlock && lastAnswer.Some? then lastAnswer else Some(Ack(piccBlock));
        case I(num, inf) =>
          if num != expectedPcdBlock {
            return Some(Nak(expectedPcdBlock));
          }
          expectedPcdBlock := Flip(expectedPcdBlock);
          piccBlock := Flip(piccBlock);
          executed := executed + [inf];
          var answer := I(piccBlock, app(executed));
          lastAnswer := Some(answer);
          reply := Some(answer);
      }
    }
  }

  predicate Paired<A>(c: CardState<A>) { c.picc == Flip(c.expected) }

  // Whatever blocks arrive, in any order: the two numbers stay opposite, only
  // an I-block executes, and the same I-block twice in a row executes once.
  lemma AnyReader<A>(app: App<A>, c: CardState<A>, b: Block<A>)
    requires Paired(c)
    ensures var (c', _) := Receive(app, c, b);
      && Paired(c') && c.executed <= c'.executed && |c'.executed| <= |c.executed| + 1
      && (c'.executed != c.executed ==> b.I? && b.num == c.expected)
      && Receive(app, c', b).0.executed == c'.executed
  {
  }

  // ---- the reader

  datatype Reader<A> = Reader(pcd: Bit, current: Option<A>, accepted: seq<A>)

  function Started<A>(): Reader<A> { Reader(0, None, []) }

  // A block has arrived while an answer is awaited.  The block sent in turn.
  function Accept<A>(r: Reader<A>, b: Block<A>): (s: (Reader<A>, Option<Block<A>>)) {
    if r.current.None? then (r, None)
    else match b
      case I(num, inf) =>
        if num == r.pcd then (Reader(Flip(r.pcd), None, r.accepted + [inf]), None)
        else (r, Some(Nak(r.pcd)))
      case Ack(num) =>
        if num != r.pcd then (r, Some(I(r.pcd, r.current.value))) else (r, Some(Nak(r.pcd)))
      case Nak(_) => (r, Some(Nak(r.pcd)))
  }

  // ---- the link: at most one frame in the air

  datatype Air<A> = Quiet | ToCard(block: Block<A>) | ToReader(block: Block<A>)

  datatype System<A> = System(reader: Reader<A>, card: CardState<A>, air: Air<A>, requests: seq<A>)

  function Initial<A>(): System<A> { System(Started(), Fresh(), Quiet, []) }

  // The reader starts a request, the frame in the air arrives or is lost, or
  // the reader has waited long enough with nothing in the air.
  datatype Event<A> = Issue(apdu: A) | Deliver | Lose | Timeout

  function Sent<A>(b: Option<Block<A>>, card: bool): Air<A> {
    match b
    case None => Quiet
    case Some(x) => if card then ToReader(x) else ToCard(x)
  }

  function Step<A>(app: App<A>, s: System<A>, e: Event<A>): System<A> {
    match e
    case Issue(apdu) =>
      if s.reader.current.Some? || !s.air.Quiet? then s
      else s.(reader := s.reader.(current := Some(apdu)), air := ToCard(I(s.reader.pcd, apdu)),
              requests := s.requests + [apdu])
    case Deliver =>
      (match s.air
       case Quiet => s
       case ToCard(b) => var (c, reply) := Receive(app, s.card, b); s.(card := c, air := Sent(reply, true))
       case ToReader(b) => var (r, reply) := Accept(s.reader, b); s.(reader := r, air := Sent(reply, false)))
    case Lose => s.(air := Quiet)
    case Timeout =>
      if s.reader.current.Some? && s.air.Quiet? then s.(air := ToCard(Nak(s.reader.pcd))) else s
  }

  function Run<A>(app: App<A>, s: System<A>, es: seq<Event<A>>): System<A> {
    if es == [] then s else Step(app, Run(app, s, es[..|es| - 1]), es[|es| - 1])
  }

  // ---- what every run keeps

  // The card's answers to the first n requests, one after the other.
  ghost predicate Answers<A>(app: App<A>, requests: seq<A>, accepted: seq<A>) {
    && |accepted| <= |requests|
    && forall k :: 0 <= k < |accepted| ==> accepted[k] == app(requests[..k + 1])
  }

  ghost predicate Idle<A>(s: System<A>) {
    && s.reader.current.None? && |s.reader.accepted| == |s.requests|
    && s.card.executed == s.requests && s.card.expected == s.reader.pcd
    && s.air.Quiet?
  }

  // The current request has not reached the card.
  ghost predicate Pending<A>(s: System<A>) {
    && s.requests != [] && s.reader.current == Some(s.requests[|s.requests| - 1])
    && |s.reader.accepted| == |s.requests| - 1
    && s.card.executed == s.requests[..|s.requests| - 1] && s.card.expected == s.reader.pcd
    && (s.air.Quiet? || s.air == ToCard(I(s.reader.pcd, s.requests[|s.requests| - 1]))
        || s.air == ToCard(Nak(s.reader.pcd)) || s.air == ToReader(Ack(s.card.picc)))
  }

  // It has been executed, and its answer is held for as long as it takes.
  ghost predicate Answered<A>(app: App<A>, s: System<A>) {
    && s.requests != [] && s.reader.current == Some(s.requests[|s.requests| - 1])
    && |s.reader.accepted| == |s.requests| - 1
    && s.card.executed == s.requests && s.card.picc == s.reader.pcd
    && s.card.last == Some(I(s.reader.pcd, app(s.requests)))
    && (s.air.Quiet? || s.air == ToCard(Nak(s.reader.pcd)) || s.air == ToReader(I(s.reader.pcd, app(s.requests))))
  }

  ghost predicate Inv<A>(app: App<A>, s: System<A>) {
    && Paired(s.card) && Answers(app, s.requests, s.reader.accepted)
    && (Idle(s) || Pending(s) || Answered(app, s))
  }

  lemma AnswersStand<A>(app: App<A>, requests: seq<A>, apdu: A, accepted: seq<A>)
    requires Answers(app, requests, accepted)
    ensures Answers(app, requests + [apdu], accepted)
  {
    forall k | 0 <= k < |accepted| ensures accepted[k] == app((requests + [apdu])[..k + 1]) {
      assert (requests + [apdu])[..k + 1] == requests[..k + 1];
    }
  }

  lemma StepKeeps<A>(app: App<A>, s: System<A>, e: Event<A>)
    requires Inv(app, s)
    ensures Inv(app, Step(app, s, e))
  {
    match e {
      case Issue(apdu) =>
        assert (s.requests + [apdu])[..|s.requests|] == s.requests;
        AnswersStand(app, s.requests, apdu, s.reader.accepted);
      case Deliver =>
        if s.requests != [] {
          assert s.requests[..|s.requests| - 1] + [s.requests[|s.requests| - 1]] == s.requests;
          assert s.requests[..|s.requests|] == s.requests;
        }
      case _ =>
    }
  }

  lemma {:induction false} RunKeeps<A>(app: App<A>, es: seq<Event<A>>)
    ensures Inv(app, Run(app, Initial(), es))
  {
    if es != [] {
      RunKeeps(app, es[..|es| - 1]);
      StepKeeps(app, Run(app, Initial(), es[..|es| - 1]), es[|es| - 1]);
    }
  }

  // In every run, whatever is lost: each request is executed at most once and
  // in order, and every answer the reader has accepted is the card's answer to
  // the request it was waiting for.
  lemma Safety<A>(app: App<A>, es: seq<Event<A>>)
    ensures var s := Run(app, Initial(), es);
      && s.card.executed <= s.requests && |s.requests| <= |s.card.executed| + 1
      && |s.reader.accepted| <= |s.card.executed| && |s.requests| <= |s.reader.accepted| + 1
      && forall k :: 0 <= k < |s.reader.accepted| ==> s.reader.accepted[k] == app(s.requests[..k + 1])
  {
    RunKeeps(app, es);
  }

  // And once the link stops losing frames a waiting reader gets its answer,
  // with one timeout and at most four frames.
  lemma Recovers<A>(app: App<A>, es: seq<Event<A>>)
    requires var s := Run(app, Initial(), es); s.reader.current.Some? && s.air.Quiet?
    ensures var s := Run(app, Initial(), es);
      var s' := Step(app, Step(app, Step(app, Step(app, Step(app, s, Timeout), Deliver), Deliver), Deliver), Deliver);
      && s'.reader.current.None? && s'.requests == s.requests && s'.card.executed == s.requests
      && s'.reader.accepted == s.reader.accepted + [app(s.requests)]
  {
    var s := Run(app, Initial(), es);
    RunKeeps(app, es);
    assert s.requests[..|s.requests| - 1] + [s.requests[|s.requests| - 1]] == s.requests;
    var s1 := Step(app, s, Timeout);
    var s2 := Step(app, s1, Deliver);
    if Pending(s) {
      assert s2.air == ToReader(Ack(s.card.picc));
      var s3 := Step(app, s2, Deliver);
      assert s3.air == ToCard(I(s.reader.pcd, s.requests[|s.requests| - 1]));
      var s4 := Step(app, s3, Deliver);
      assert s4.card.executed == s.requests;
      assert s4.air == ToReader(I(s.reader.pcd, app(s.requests)));
    } else {
      assert s2.air == ToReader(I(s.reader.pcd, app(s.requests)));
      var s3 := Step(app, s2, Deliver);
      assert s3.reader.current.None? && s3.air.Quiet?;
    }
  }
}
