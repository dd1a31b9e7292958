// The outer loop of the simulated card (SimulateDesfireTag of
// armsrc/desfiresim.c): the activation states of ISO/IEC 14443-3 type A, and
// what of a session may exist in each.
module Activation {
  import opened Wrappers
  import BlockProtocol

  type Bit = BlockProtocol.Bit

  function Flip(b: Bit): Bit { BlockProtocol.Flip(b) }

  datatype PState = NoField | PowerIdle | Ready1 | Ready2 | Active | Iso4 | Halted

  // A command frame, as far as it moves the application layer.  The verdicts
  // the image or the ciphers give are part of the input; `ok` says that the
  // status is not an error.
  datatype Apdu =
    | IsoSelect(found: Option<nat>)            // an ISO 7816 SELECT of a DF
    | IsoOther                                 // every other ISO 7816 command
    | AuthStart(cmd: nat, accepted: bool)      // 0x0A, 0x1A, 0xAA
    | Additional(proves: bool, master: bool, more: bool, ok: bool) // 0xAF
    | SelectApplication(found: Option<nat>)
    | DeleteApplication(found: Option<nat>, freely: bool)
    | FormatPicc(allowed: bool)
    | Chaining(more: bool, ok: bool)           // GetVersion, GetDFNames, the reads
    | Writing(more: bool, ok: bool)            // the commands gathered over several frames
    | Clearing(ok: bool)                       // the key commands that end the session themselves
    | Other(ok: bool)

  datatype Input =
    | FieldLost
    | Poll(wupa: bool)
    | Anticollision(level: nat)
    | Select(level: nat, mine: bool)
    | Rats
    | Pps
    | Halt
    | Garbled
    | Deselect
    | ReceiveReady
    | Information(num: nat, apdu: Apdu)

  // The application layer: desfire_sim_state_t without image and ciphers.
  // `chained`: an answer is being handed out over several frames; `gathering`: a
  // write is being taken in.  The rest is in no field of the code: `authApp` is
  // the application the handshake in flight, or the session, began under, and
  // an Origin where the chain or the gathering began.
  datatype Session = Session(selected: nat, chained: bool, gathering: bool, authCmd: nat, authenticated: bool, keyno0: bool,
                             authApp: nat, chain: Origin, gather: Origin)

  // The application selected, and whether in a session.
  datatype Origin = Origin(app: nat, authenticated: bool)

  const POWERED_UP := Session(0, false, false, 0, false, false, 0, Origin(0, false), Origin(0, false))

  function Here(s: Session): Origin { Origin(s.selected, s.authenticated) }

  // desfire_sim_auth_clear
  function AuthClear(s: Session): Session {
    s.(authCmd := 0, authenticated := false, keyno0 := false)
  }

  // desfire_sim_reset, which leaves a write that is being gathered alone
  function Reset(s: Session): Session {
    AuthClear(s.(selected := 0, chained := false))
  }

  // What every command but 0xAF does first: the chain ends, and so does a
  // handshake unless another one begins, and a gathering unless a write comes.
  function Begun(s: Session, apdu: Apdu): Session {
    if apdu.Additional? then s
    else s.(chained := false, authCmd := if apdu.AuthStart? then s.authCmd else 0, gathering := s.gathering && apdu.Writing?)
  }

  predicate MasterKey(s: Session) { s.authenticated && s.keyno0 }

  // desfire_sim_command: the new state, and whether the status is an error.
  function Command(s0: Session, apdu: Apdu): (Session, bool) {
    var s := Begun(s0, apdu);
    match apdu
    case AuthStart(cmd, accepted) =>
      if !accepted || cmd == 0 then (s, true) else (AuthClear(s).(authCmd := cmd, authApp := s.selected), false)
    case Additional(proves, master, more, ok) =>
      if s.authCmd != 0 then
        if proves then (s.(authenticated := true, keyno0 := master, authCmd := 0), false) else (AuthClear(s), true)
      else if s.gathering then (s.(gathering := more && ok), !ok)
      else if s.chained then (s.(chained := more), false)
      else (s, !ok)
    case SelectApplication(found) =>
      if found.None? then (s, true) else (AuthClear(s.(selected := found.value)), false)
    case DeleteApplication(found, freely) =>
      if found.None? then (s, true)
      else if !(MasterKey(s) && (s.selected == 0 || (s.selected == found.value && freely))) then (s, true)
      else if s.selected == found.value then (AuthClear(s.(selected := 0)), false)
      else (s, false)
    case FormatPicc(allowed) =>
      if MasterKey(s) && s.selected == 0 && allowed then (s.(selected := 0, chained := false), false) else (s, true)
    case Chaining(more, ok) => if ok then (s.(chained := more, chain := Here(s)), false) else (s, true)
    case Writing(more, ok) => (s.(gathering := more && ok, gather := if s.gathering then s.gather else Here(s)), !ok)
    case Clearing(ok) => (AuthClear(s), !ok)
    case Other(ok) => (s, !ok)
    case IsoSelect(_) => (s, false)
    case IsoOther => (s, false)
  }

  // desfire_sim_apdu: an error ends the session, except on the ISO 7816 path.
  function Serve(s: Session, apdu: Apdu): Session {
    match apdu
    case IsoSelect(found) => if found.None? then s else AuthClear(s.(selected := found.value))
    case IsoOther => s
    case _ => var (t, error) := Command(s, apdu); if error then AuthClear(t) else t
  }

  // ---- the loop

  // `long`: the UID takes two cascade levels.  `log` is every APDU acted on.
  datatype Picc = Picc(long: bool, p: PState, expected: Bit, picc: Bit, answered: bool, s: Session)

  function PowerUp(long: bool): Picc { Picc(long, PowerIdle, 0, 1, false, POWERED_UP) }

  predicate Polled(p: PState) { p.PowerIdle? || p.Ready1? || p.Ready2? }

  function Step(c0: Picc, input: Input): Picc {
    if input.FieldLost? then
      if c0.p.NoField? then c0 else c0.(p := NoField, s := Reset(c0.s))
    else
      var c := if c0.p.NoField? then c0.(p := PowerIdle) else c0;
      match input
      case Poll(wupa) => if Polled(c.p) || (wupa && c.p.Halted?) then c.(s := Reset(c.s), p := Ready1) else c
      case Select(level, mine) =>
        if mine && level == 1 && c.p.Ready1? then c.(p := if c.long then Ready2 else Active)
        else if mine && level == 2 && c.p.Ready2? then c.(p := Active)
        else c
      case Rats => if c.p.Active? then c.(p := Iso4, expected := 0, picc := 1, answered := false) else c
      case Halt => c.(s := Reset(c.s), p := Halted)
      case Deselect =>
        if c.p.Iso4? then c.(s := Reset(c.s), p := Active, expected := 0, picc := 1, answered := false) else c
      case Information(num, apdu) =>
        if c.p.Iso4? && num == c.expected
        then c.(expected := Flip(c.expected), picc := Flip(c.picc), answered := true, s := Serve(c.s, apdu))
        else c
      case _ => c
  }

  // The card object the loop keeps.
  class Loop {
    const long: bool
    var fieldOn: bool
    var pstate: PState
    var expectedPcdBlock: Bit
    var piccBlock: Bit
    var answered: bool
    var session: Session

    ghost predicate Valid()
      reads this
    {
      fieldOn <==> !pstate.NoField?
    }

    ghost function State(): Picc
      reads this
    {
      Picc(long, pstate, expectedPcdBlock, piccBlock, answered, session)
    }

    constructor (long: bool)
      ensures Valid() && State() == PowerUp(long)
    {
      this.long := long;
      fieldOn, pstate := true, PowerIdle;
      expectedPcdBlock, piccBlock, answered, session := 0, 1, false, POWERED_UP;
    }

    method Receive(input: Input)
      requires Valid()
      modifies this
      ensures Valid() && State() == Step(old(State()), input)
    {
      if input.FieldLost? {
        if fieldOn {
          fieldOn, pstate := false, NoField;
          session := Reset(session);
        }
        return;
      }
      if !fieldOn {
        fieldOn, pstate := true, PowerIdle;
      }
      match input {
        case Poll(wupa) =>
          if Polled(pstate) || (wupa && pstate.Halted?) {
            session, pstate := Reset(session), Ready1;
          }
        case Select(level, mine) =>
          if mine && level == 1 && pstate.Ready1? {
            pstate := if long then Ready2 else Active;
          } else if mine && level == 2 && pstate.Ready2? {
            pstate := Active;
          }
        case Rats =>
          if pstate.Active? {
            pstate, expectedPcdBlock, piccBlock, answered := Iso4, 0, 1, false;
          }
        case Halt =>
          session, pstate := Reset(session), Halted;
        case Deselect =>
          if pstate.Iso4? {
            session, pstate := Reset(session), Active;
            expectedPcdBlock, piccBlock, answered := 0, 1, false;
          }
        case Information(num, apdu) =>
          if pstate.Iso4? && num == expectedPcdBlock {
            expectedPcdBlock, piccBlock, answered := Flip(expectedPcdBlock), Flip(piccBlock), true;
            session := Serve(session, apdu);
          }
        case _ =>
      }
    }
  }

  function Run(long: bool, inputs: seq<Input>): Picc {
    if inputs == [] then PowerUp(long) else Step(Run(long, inputs[..|inputs| - 1]), inputs[|inputs| - 1])
  }

  // ---- what every run keeps

  // A handshake in flight excludes a session, and either belongs to the
  // application still selected.
  ghost predicate Bound(s: Session) {
    && (s.authCmd != 0 ==> !s.authenticated)
    && (s.authenticated || s.authCmd != 0 ==> s.authApp == s.selected)
    && (s.authCmd != 0 ==> !s.chained && !s.gathering) && !(s.chained && s.gathering)
  }

  predicate Blank(s: Session) {
    !s.authenticated && s.authCmd == 0 && s.selected == 0 && !s.chained
  }

  ghost predicate Inv(c: Picc) {
    Bound(c.s) && (!c.p.Iso4? ==> Blank(c.s)) && c.picc == Flip(c.expected)
  }

  lemma ServeKeeps(s: Session, apdu: Apdu)
    requires Bound(s)
    ensures Bound(Serve(s, apdu))
    // a session only ever comes out of a proven handshake
    ensures Serve(s, apdu).authenticated && !s.authenticated ==> apdu.Additional? && apdu.proves && s.authCmd != 0
  {
  }

  lemma {:induction false} RunKeeps(long: bool, inputs: seq<Input>)
    ensures Inv(Run(long, inputs)) && Run(long, inputs).long == long
  {
    hide Serve, Polled;
    if inputs != [] {
      RunKeeps(long, inputs[..|inputs| - 1]);
      var c, input := Run(long, inputs[..|inputs| - 1]), inputs[|inputs| - 1];
      if input.Information? {
        ServeKeeps(c.s, input.apdu);
      }
    }
  }

  // ---- what a continuing frame continues

  // The chain, or the write being gathered, began in the application that is
  // selected and in the session that is open, if one was: a new session takes a
  // handshake, which ends both.
  predicate Belongs(s: Session) {
    (s.chained ==> s.chain == Here(s)) && (s.gathering ==> s.gather == Here(s))
  }

  predicate Elsewhere(s: Session, app: nat) { app != s.selected || s.authenticated }

  // An ISO 7816 SELECT of another application, or in a session, cuts neither
  // off; and what resets the card does not cut off a write.
  predicate Strays(c: Picc, input: Input) {
    match input
    case Information(num, IsoSelect(Some(app))) =>
      c.p.Iso4? && num == c.expected && (c.s.chained || c.s.gathering) && Elsewhere(c.s, app)
    case FieldLost => c.s.gathering && Elsewhere(c.s, 0)
    case Halt => c.s.gathering && Elsewhere(c.s, 0)
    case Deselect => c.p.Iso4? && c.s.gathering && Elsewhere(c.s, 0)
    case _ => false
  }

  lemma ServeBelongs(s: Session, apdu: Apdu)
    requires Bound(s) && Belongs(s)
    ensures Belongs(Serve(s, apdu)) <==>
      !(apdu.IsoSelect? && apdu.found.Some? && (s.chained || s.gathering) && Elsewhere(s, apdu.found.value))
  {
  }

  lemma StepBelongs(c: Picc, input: Input)
    requires Inv(c) && Belongs(c.s)
    ensures Belongs(Step(c, input).s) <==> !Strays(c, input)
  {
    hide Serve;
    if input.Information? {
      ServeBelongs(c.s, input.apdu);
    }
  }

  // In every run, whatever is continued belongs to the session and application
  // it began in if and only if no input strayed.
  lemma {:induction false} RunBelongs(long: bool, inputs: seq<Input>)
    ensures (forall n :: 0 <= n <= |inputs| ==> Belongs(Run(long, inputs[..n]).s))
      <==> (forall n :: 0 <= n < |inputs| ==> !Strays(Run(long, inputs[..n]), inputs[n]))
  {
    hide Step, Belongs, Strays, Inv, Run;
    if inputs != [] {
      var k := |inputs| - 1;
      var front := inputs[..k];
      RunBelongs(long, front);
      RunKeeps(long, front);
      assert forall n :: 0 <= n <= k ==> front[..n] == inputs[..n];
      assert inputs[..|inputs|] == inputs;
      RunSnoc(long, inputs);
      if Belongs(Run(long, front).s) {
        StepBelongs(Run(long, front), inputs[k]);
      }
    } else {
      NothingYetBelongs(long);
      assert inputs[..0] == [];
    }
  }

  lemma RunSnoc(long: bool, inputs: seq<Input>)
    requires inputs != []
    ensures Run(long, inputs) == Step(Run(long, inputs[..|inputs| - 1]), inputs[|inputs| - 1])
  {
  }

  lemma NothingYetBelongs(long: bool)
    ensures Belongs(Run(long, []).s)
  {
  }

  // The card is activated and application 1 selected.
  const UP := [Poll(false), Select(1, true), Rats, Information(0, SelectApplication(Some(1)))]

  lemma Activated()
    ensures Run(false, UP) == Picc(false, Iso4, 1, 0, true, POWERED_UP.(selected := 1))
  {
    assert UP[..3] == [Poll(false), Select(1, true), Rats] && UP[..2] == UP[..3][..2] && UP[..1] == UP[..3][..2][..1];
    RunSnoc(false, UP);
    RunSnoc(false, UP[..3]);
    RunSnoc(false, UP[..2]);
    RunSnoc(false, UP[..1]);
    assert UP[..1][..0] == [];
  }

  lemma RunOn(long: bool, inputs: seq<Input>, input: Input)
    ensures Run(long, inputs + [input]) == Step(Run(long, inputs), input)
  {
    assert (inputs + [input])[..|inputs|] == inputs;
  }

  // A read begun in application 1 goes on after an ISO 7816 SELECT of
  // application 2,
  lemma ReadStrays()
    ensures var s := Run(false, UP + [Information(1, Chaining(true, true)), Information(0, IsoSelect(Some(2)))]).s;
      s.chained && s.chain.app == 1 && s.selected == 2
  {
    Activated();
    var read, select := Information(1, Chaining(true, true)), Information(0, IsoSelect(Some(2)));
    RunOn(false, UP, read);
    RunOn(false, UP + [read], select);
    assert UP + [read] + [select] == UP + [read, select];
  }

  // and a write begun there goes on after the field was lost and found again.
  lemma WriteStrays()
    ensures var s := Run(false, UP + [Information(1, Writing(true, true)), FieldLost]).s;
      s.gathering && s.gather.app == 1 && s.selected == 0
  {
    Activated();
    var write := Information(1, Writing(true, true));
    RunOn(false, UP, write);
    RunOn(false, UP + [write], FieldLost);
    assert UP + [write] + [FieldLost] == UP + [write, FieldLost];
  }

  // ---- an APDU is only ever acted on after the whole activation, in order

  predicate Resets(input: Input) { input.FieldLost? || input.Halt? }

  // Where in the run the activation that is still in force was made: the poll,
  // the SELECTs with the card's own UID, the RATS.
  datatype Trail = Trail(poll: nat, first: nat, second: nat, rats: nat)

  predicate Reached(p: PState, least: nat) {
    match p
    case Ready1 => least <= 1
    case Ready2 => least <= 2
    case Active => least <= 3
    case Iso4 => least <= 4
    case _ => least <= 0
  }

  ghost predicate Ordered(inputs: seq<Input>, long: bool, p: PState, t: Trail) {
    && (Reached(p, 1) ==>
      && t.poll < |inputs| && inputs[t.poll].Poll?
      && forall k :: t.poll < k < |inputs| ==> !Resets(inputs[k]))
    && (Reached(p, 2) ==> t.poll < t.first < |inputs| && inputs[t.first] == Select(1, true))
    && (Reached(p, 3) && long ==> t.first < t.second < |inputs| && inputs[t.second] == Select(2, true))
    && (Reached(p, 4) ==> t.first < t.rats < |inputs| && inputs[t.rats].Rats? && (long ==> t.second < t.rats))
  }

  function NextTrail(p: PState, p': PState, input: Input, t: Trail, n: nat): Trail {
    if input.Poll? && p'.Ready1? then t.(poll := n)
    else if input == Select(1, true) && p.Ready1? then t.(first := n)
    else if input == Select(2, true) && p.Ready2? then t.(second := n)
    else if input.Rats? && p.Active? then t.(rats := n)
    else t
  }

  // The states the input can lead to, on their own.
  lemma Moves(c: Picc, input: Input)
    ensures var p, p' := c.p, Step(c, input).p;
      && (Resets(input) ==> !Reached(p', 1))
      && (Reached(p', 1) && !(input.Poll? && p'.Ready1?) ==> Reached(p, 1))
      && (Reached(p', 2) ==> Reached(p, 2) || (input == Select(1, true) && p.Ready1?))
      && (Reached(p', 3) && c.long ==> Reached(p, 3) || (input == Select(2, true) && p.Ready2?))
      && (p'.Iso4? ==> p.Iso4? || (input.Rats? && p.Active?))
      && (p'.Ready2? ==> p.Ready2? || c.long)
  {
    hide Serve, Reset;
  }

  lemma OrderedStep(inputs: seq<Input>, input: Input, c: Picc, t: Trail)
    requires Ordered(inputs, c.long, c.p, t) && (c.p.Ready2? ==> c.long)
    ensures Ordered(inputs + [input], c.long, Step(c, input).p, NextTrail(c.p, Step(c, input).p, input, t, |inputs|))
  {
    hide Serve, Reset, Step;
    Moves(c, input);
  }

  lemma {:induction false} ActivationOrdered(long: bool, inputs: seq<Input>) returns (t: Trail)
    ensures Ordered(inputs, long, Run(long, inputs).p, t)
    ensures Run(long, inputs).p.Ready2? ==> long
  {
    hide Step, Ordered;
    t := Trail(0, 0, 0, 0);
    if inputs == [] {
      NothingYet(long, t);
    } else {
      var n := |inputs| - 1;
      RunKeeps(long, inputs[..n]);
      t := ActivationOrdered(long, inputs[..n]);
      var c := Run(long, inputs[..n]);
      Moves(c, inputs[n]);
      OrderedStep(inputs[..n], inputs[n], c, t);
      assert inputs[..n] + [inputs[n]] == inputs;
      t := NextTrail(c.p, Step(c, inputs[n]).p, inputs[n], t, n);
    }
  }

  lemma NothingYet(long: bool, t: Trail)
    ensures Ordered([], long, PowerIdle, t)
  {
  }
}
