// Gathering a write command over several frames (desfire_sim_write_gather of
// armsrc/desfiresim.c): nothing is acted on until the command has as many bytes
// as its own header says.
module WriteGather {
  import opened Wrappers
  import opened Bytes
  import opened Cbc
  import opened Cmac
  import opened SecureSession
  import opened Unwrapping

  const E_PERMISSION_DENIED: byte := 0x9D
  const E_AUTHENTICATION_ERROR: byte := 0xAE
  const E_FILE_NOT_FOUND: byte := 0xF0

  // What the card looks up: the live files of the selected application and, for
  // each, the mode a read, a write or a Credit would run in, None when the rights
  // refuse it; and the session.
  datatype FileModes = FileModes(read: Option<Comm>, write: Option<Comm>, credit: Option<Comm>)

  datatype Env = Env(files: map<byte, FileModes>, authenticated: bool, legacy: bool, kbs: nat)

  function ModeOf(env: Env, num: byte, cmd: byte): Option<Comm>
    requires num in env.files
  {
    if cmd == CREDIT then env.files[num].credit else env.files[num].write
  }

  datatype Size = Unsized | Refusal(status: byte) | Total(n: nat)

  // The data length a write states in its own header.
  function DataLength(cmd: byte, buf: bytes): nat
    requires |buf| >= HdrLen(cmd)
  {
    if HdrLen(cmd) == 7 then Le24(buf[4..])
    else if HdrLen(cmd) == 10 then Le24(buf[7..])
    else 4
  }

  function Secured(env: Env, cmd: byte, comm: Comm, n: nat): Size {
    if !env.authenticated then Total(HdrLen(cmd) + n)
    else match comm
      case Full =>
        var kbs := if env.legacy then 8 else env.kbs;
        if kbs == 0 then Refusal(E_AUTHENTICATION_ERROR)
        else Total(HdrLen(cmd) + PaddedDataLength(n + if env.legacy then 2 else 4, kbs))
      case Maced => Total(HdrLen(cmd) + n + if env.legacy then 4 else 8)
      case Plain => Total(HdrLen(cmd) + n)
  }

  // How many bytes the command will be, as soon as its header is in.
  function SizeOf(env: Env, cmd: byte, buf: bytes): Size
    requires MacsRequest(cmd)
  {
    if |buf| < HdrLen(cmd) then Unsized
    else if buf[0] !in env.files then Refusal(E_FILE_NOT_FOUND)
    else if ModeOf(env, buf[0], cmd).None? then Refusal(E_PERMISSION_DENIED)
    else
      var s := Secured(env, cmd, ModeOf(env, buf[0], cmd).value, DataLength(cmd, buf));
      if s.Total? && s.n > WRITE_MAX then Refusal(E_LENGTH) else s
  }

  lemma SizeBounded(env: Env, cmd: byte, buf: bytes)
    requires MacsRequest(cmd) && SizeOf(env, cmd, buf).Total?
    ensures SizeOf(env, cmd, buf).n <= WRITE_MAX
  {
    hide Secured;
  }

  // One frame's answer: ask for more, refuse, or act on the whole command.
  datatype Outcome = More | Refuse(status: byte) | Complete(cmd: byte, comm: Comm, message: bytes)

  class Gather {
    const wbuf: array<byte>
    var wlen: nat
    var wexpect: nat
    var wcmd: byte

    constructor ()
      ensures Valid() && wcmd == 0
    {
      wbuf := new byte[WRITE_MAX];
      wlen, wexpect, wcmd := 0, 0, 0;
    }

    ghost predicate Valid()
      reads this
    {
      && wbuf.Length == WRITE_MAX && wlen <= WRITE_MAX && wexpect <= WRITE_MAX
      && (wcmd != 0 ==> MacsRequest(wcmd))
    }

    function Got(): bytes
      requires Valid()
      reads this, wbuf
    {
      wbuf[..wlen]
    }

    ghost function State(): Held
      requires Valid()
      reads this, wbuf
    {
      if wcmd == 0 then Idle else Held(wcmd, Got(), wexpect)
    }

    method Frame(env: Env, cmd: byte, input: bytes) returns (o: Outcome)
      requires Valid() && MacsRequest(cmd)
      modifies this, wbuf
      ensures Valid()
      ensures (State(), o) == Gathered(env, old(State()), cmd, input)
    {
      hide SizeOf, Accept;
      if wcmd == 0 {
        wcmd, wlen, wexpect := cmd, 0, 0;
      }
      if wlen + |input| > wbuf.Length {
        wcmd, wlen := 0, 0;
        return Refuse(E_LENGTH);
      }
      Append(input);
      if wexpect == 0 {
        var size := SizeOf(env, cmd, Got());
        if size.Unsized? {
          return More;
        }
        if size.Refusal? {
          wcmd, wlen := 0, 0;
          return Refuse(size.status);
        }
        SizeBounded(env, cmd, Got());
        wexpect := size.n;
      }
      if wlen < wexpect {
        return More;
      }
      o := Finish(env);
    }

    method Finish(env: Env) returns (o: Outcome)
      requires Valid()
      modifies this
      ensures Valid() && wcmd == 0 && o == Accept(env, old(wcmd), old(Got()))
    {
      hide Accept;
      var done, message := wcmd, Got();
      wcmd, wlen, wexpect := 0, 0, 0;
      o := Accept(env, done, message);
    }

    method Append(input: bytes)
      requires Valid() && wlen + |input| <= WRITE_MAX
      modifies this`wlen, wbuf
      ensures wlen == old(wlen) + |input| && wbuf[..wlen] == old(Got()) + input
    {
      forall k | 0 <= k < |input| {
        wbuf[wlen + k] := input[k];
      }
      wlen := wlen + |input|;
    }
  }

  // The file is looked up once more before the command is unwrapped.
  function Accept(env: Env, cmd: byte, message: bytes): Outcome {
    if |message| < 1 then Refuse(E_LENGTH)
    else if message[0] !in env.files then Refuse(E_FILE_NOT_FOUND)
    else match ModeOf(env, message[0], cmd)
      case None => Refuse(E_PERMISSION_DENIED)
      case Some(comm) => Complete(cmd, comm, message)
  }

  datatype Held = Idle | Held(cmd: byte, got: bytes, need: nat)

  function Gathered(env: Env, h: Held, cmd: byte, input: bytes): (r: (Held, Outcome))
    requires MacsRequest(cmd)
  {
    var (wcmd, got, need) := if h.Idle? then (cmd, [], 0) else (h.cmd, h.got, h.need);
    if |got| + |input| > WRITE_MAX then (Idle, Refuse(E_LENGTH))
    else
      var all := got + input;
      var size := if need == 0 then SizeOf(env, cmd, all) else Total(need);
      match size
      case Unsized => (Held(wcmd, all, 0), More)
      case Refusal(status) => (Idle, Refuse(status))
      case Total(n) => if |all| < n then (Held(wcmd, all, n), More) else (Idle, Accept(env, wcmd, all))
  }

  // ---- any split of a complete command

  function Joined(frames: seq<bytes>): bytes {
    if frames == [] then [] else frames[0] + Joined(frames[1..])
  }

  function Run(env: Env, h: Held, cmd: byte, frames: seq<bytes>): (r: (Held, seq<Outcome>))
    requires MacsRequest(cmd)
    ensures |r.1| == |frames|
    decreases |frames|
  {
    if frames == [] then (h, []) else
      var (h', o) := Gathered(env, h, cmd, frames[0]);
      var (h'', os) := Run(env, h', cmd, frames[1..]);
      (h'', [o] + os)
  }

  // A command of exactly the length its header states.
  predicate CompleteCommand(env: Env, cmd: byte, message: bytes) {
    MacsRequest(cmd) && SizeOf(env, cmd, message) == Total(|message|)
  }

  // After a proper prefix the card holds it, and its size once the header is in.
  function Holding(env: Env, cmd: byte, message: bytes, n: nat): Held
    requires CompleteCommand(env, cmd, message) && n < |message|
  {
    Held(cmd, message[..n], if n < HdrLen(cmd) then 0 else |message|)
  }

  lemma PrefixSize(env: Env, cmd: byte, message: bytes, n: nat)
    requires CompleteCommand(env, cmd, message) && n <= |message|
    ensures SizeOf(env, cmd, message[..n]) == if n < HdrLen(cmd) then Unsized else Total(|message|)
    ensures 0 < |message| <= WRITE_MAX && Accept(env, cmd, message).Complete?
  {
    hide Secured;
    if n >= HdrLen(cmd) {
      var p := message[..n];
      if HdrLen(cmd) == 7 {
        assert p[4..][0] == message[4..][0] && p[4..][1] == message[4..][1] && p[4..][2] == message[4..][2];
      } else if HdrLen(cmd) == 10 {
        assert p[7..][0] == message[7..][0] && p[7..][1] == message[7..][1] && p[7..][2] == message[7..][2];
      }
      assert DataLength(cmd, p) == DataLength(cmd, message);
    }
  }

  // Where a gather stands before byte n of the message.
  predicate Stands(env: Env, cmd: byte, message: bytes, h: Held, n: nat) {
    CompleteCommand(env, cmd, message) && n < |message| && ((n == 0 && h.Idle?) || h == Holding(env, cmd, message, n))
  }

  lemma Continues(env: Env, cmd: byte, message: bytes, h: Held, n: nat, input: bytes)
    requires Stands(env, cmd, message, h, n) && input <= message[n..]
    ensures n + |input| < |message| ==>
      Gathered(env, h, cmd, input) == (Holding(env, cmd, message, n + |input|), More)
    ensures n + |input| == |message| ==> Gathered(env, h, cmd, input) == (Idle, Accept(env, cmd, message))
  {
    hide SizeOf, Accept;
    var got := if h.Idle? then [] else h.got;
    assert got + input == message[..n + |input|];
    PrefixSize(env, cmd, message, n + |input|);
    PrefixSize(env, cmd, message, n);
    assert message[..|message|] == message;
  }

  // Any split of a complete command whose last frame is not empty: every frame
  // but the last is answered ADDITIONAL_FRAME, the last one hands on exactly
  // the whole command, and the card is idle again.
  predicate Splits(frames: seq<bytes>, message: bytes) {
    frames != [] && frames[|frames| - 1] != [] && Joined(frames) == message
  }

  ghost predicate AppliedOnce(env: Env, cmd: byte, message: bytes, r: (Held, seq<Outcome>)) {
    && r.0 == Idle && r.1 != []
    && (forall k :: 0 <= k < |r.1| - 1 ==> r.1[k] == More)
    && r.1[|r.1| - 1] == Accept(env, cmd, message)
    && Accept(env, cmd, message).Complete? && Accept(env, cmd, message).message == message
  }

  lemma {:induction false} RestGathers(env: Env, cmd: byte, message: bytes, h: Held, n: nat, frames: seq<bytes>)
    requires Stands(env, cmd, message, h, n) && Splits(frames, message[n..])
    ensures AppliedOnce(env, cmd, message, Run(env, h, cmd, frames))
    decreases |frames|
  {
    hide SizeOf, Gathered, Accept, AppliedOnce, Run, Secured;
    PrefixSize(env, cmd, message, n);
    Continues(env, cmd, message, h, n, frames[0]);
    AcceptsWhole(env, cmd, message);
    RunFront(env, h, cmd, frames);
    var next := n + |frames[0]|;
    if |frames| == 1 {
      assert Joined(frames[1..]) == [];
      assert frames[0] == message[n..];
      OnlyFrame(env, cmd, message);
    } else {
      assert Joined(frames[1..]) == message[next..];
      LastJoined(frames[1..]);
      RestGathers(env, cmd, message, Holding(env, cmd, message, next), next, frames[1..]);
      OneMore(env, cmd, message, Run(env, Holding(env, cmd, message, next), cmd, frames[1..]));
    }
  }

  lemma RunFront(env: Env, h: Held, cmd: byte, frames: seq<bytes>)
    requires MacsRequest(cmd) && frames != []
    ensures var g := Gathered(env, h, cmd, frames[0]);
      var r := Run(env, g.0, cmd, frames[1..]);
      Run(env, h, cmd, frames) == (r.0, [g.1] + r.1)
    ensures |frames| == 1 ==> (
      var g := Gathered(env, h, cmd, frames[0]);
      Run(env, h, cmd, frames) == (g.0, [g.1]))
  {
    hide Gathered;
    if |frames| == 1 {
      var g := Gathered(env, h, cmd, frames[0]);
      assert frames[1..] == [];
      assert [g.1] + Run(env, g.0, cmd, frames[1..]).1 == [g.1];
    }
  }

  lemma OnlyFrame(env: Env, cmd: byte, message: bytes)
    requires Accept(env, cmd, message).Complete? && Accept(env, cmd, message).message == message
    ensures AppliedOnce(env, cmd, message, (Idle, [Accept(env, cmd, message)]))
  {
    hide Accept;
  }

  lemma OneMore(env: Env, cmd: byte, message: bytes, r: (Held, seq<Outcome>))
    requires AppliedOnce(env, cmd, message, r)
    ensures AppliedOnce(env, cmd, message, (r.0, [More] + r.1))
  {
    hide Accept;
  }

  lemma AcceptsWhole(env: Env, cmd: byte, message: bytes)
    requires CompleteCommand(env, cmd, message)
    ensures Accept(env, cmd, message).Complete? && Accept(env, cmd, message).message == message
  {
    PrefixSize(env, cmd, message, 0);
  }

  lemma {:induction false} LastJoined(frames: seq<bytes>)
    requires frames != [] && frames[|frames| - 1] != []
    ensures Joined(frames) != []
    decreases |frames|
  {
    if |frames| > 1 {
      LastJoined(frames[1..]);
    }
  }

  lemma AnySplit(env: Env, cmd: byte, message: bytes, frames: seq<bytes>)
    requires CompleteCommand(env, cmd, message) && Splits(frames, message)
    ensures AppliedOnce(env, cmd, message, Run(env, Idle, cmd, frames))
  {
    PrefixSize(env, cmd, message, 0);
    assert message[0..] == message;
    RestGathers(env, cmd, message, Idle, 0, frames);
  }

  // So however a reader cuts the command, what is acted on is what one frame
  // would have brought.
  lemma SplitsAgree(env: Env, cmd: byte, message: bytes, frames: seq<bytes>)
    requires CompleteCommand(env, cmd, message) && Splits(frames, message)
    ensures var (h, os) := Run(env, Idle, cmd, frames);
      (h, os[|os| - 1]) == Gathered(env, Idle, cmd, message)
  {
    AnySplit(env, cmd, message, frames);
    PrefixSize(env, cmd, message, 0);
    Continues(env, cmd, message, Idle, 0, message);
  }

  // What an honest reader sends fills the gather exactly, in every mode.
  lemma WireIsComplete(env: Env, c: BlockCipher, iv: bytes, cmd: byte, comm: Comm, hdr: bytes, data: bytes)
    requires |iv| == c.kbs == env.kbs && env.authenticated && !env.legacy
    requires MacsRequest(cmd) && |hdr| == HdrLen(cmd) && DataLength(cmd, hdr) == |data|
    requires hdr[0] in env.files && ModeOf(env, hdr[0], cmd) == Some(comm)
    requires |ReaderWire(c, iv, cmd, comm, hdr, data)| <= WRITE_MAX
    ensures CompleteCommand(env, cmd, ReaderWire(c, iv, cmd, comm, hdr, data))
  {
    hide Secured, ReaderWire, DataLength;
    WireLength(env, c, iv, cmd, comm, hdr, data);
    HeaderLength(cmd, hdr, ReaderWire(c, iv, cmd, comm, hdr, data));
  }

  lemma WireLength(env: Env, c: BlockCipher, iv: bytes, cmd: byte, comm: Comm, hdr: bytes, data: bytes)
    requires |iv| == c.kbs == env.kbs && env.authenticated && !env.legacy && |hdr| == HdrLen(cmd)
    ensures hdr <= ReaderWire(c, iv, cmd, comm, hdr, data)
    ensures Secured(env, cmd, comm, |data|) == Total(|ReaderWire(c, iv, cmd, comm, hdr, data)|)
  {
    hide PaddedDataLength, Send, Mac;
    if comm.Full? {
      assert |SealedCommand(c.kbs, cmd, hdr, data)| == PaddedDataLength(|data| + 4, c.kbs);
    }
  }

  lemma HeaderLength(cmd: byte, hdr: bytes, wire: bytes)
    requires |hdr| >= HdrLen(cmd) && hdr <= wire
    ensures DataLength(cmd, hdr) == DataLength(cmd, wire)
  {
    if HdrLen(cmd) == 7 {
      assert hdr[4..][0] == wire[4..][0] && hdr[4..][1] == wire[4..][1] && hdr[4..][2] == wire[4..][2];
    } else if HdrLen(cmd) == 10 {
      assert hdr[7..][0] == wire[7..][0] && hdr[7..][1] == wire[7..][1] && hdr[7..][2] == wire[7..][2];
    }
  }

  // The size is settled by the header alone.
  lemma SameSize(env: Env, cmd: byte, front: bytes, message: bytes)
    requires MacsRequest(cmd) && |front| >= HdrLen(cmd) && front <= message
    ensures SizeOf(env, cmd, front) == SizeOf(env, cmd, message)
  {
    hide Secured, DataLength;
    HeaderLength(cmd, front, message);
  }

  // From the reader's cipher to the card's parameters: however an honest
  // command is cut, it comes off whole, the card's IV ends where the reader's
  // does, and the parameters are the reader's -- in full mode exactly when no
  // shorter front of them carries its own CRC.
  lemma HonestWriteArrives(env: Env, c: BlockCipher, iv: bytes, iv': bytes, cmd: byte, comm: Comm, hdr: bytes, data: bytes,
                           frames: seq<bytes>, u: Unwrapped)
    requires |iv| == c.kbs == env.kbs && env.authenticated && !env.legacy
    requires MacsRequest(cmd) && |hdr| == HdrLen(cmd) && DataLength(cmd, hdr) == |data|
    requires hdr[0] in env.files && ModeOf(env, hdr[0], cmd) == Some(comm)
    requires |ReaderWire(c, iv, cmd, comm, hdr, data)| <= WRITE_MAX
    requires Splits(frames, ReaderWire(c, iv, cmd, comm, hdr, data))
    requires Unwraps(c, true, false, iv, iv', cmd, comm, ReaderWire(c, iv, cmd, comm, hdr, data), u)
    ensures var wire := ReaderWire(c, iv, cmd, comm, hdr, data);
      && AppliedOnce(env, cmd, wire, Run(env, Idle, cmd, frames))
      && Accept(env, cmd, wire) == Complete(cmd, comm, wire)
      && iv' == ReaderIv(c, iv, cmd, comm, hdr, data)
      && u.Parameters?
      && (u.plain == hdr + data <==> (comm.Full? ==> NoShorterFit(c.kbs, cmd, hdr, data)))
  {
    hide Unwraps, ReaderIv, AppliedOnce, Splits, NoShorterFit, Secured, DataLength;
    WireIsComplete(env, c, iv, cmd, comm, hdr, data);
    AnySplit(env, cmd, ReaderWire(c, iv, cmd, comm, hdr, data), frames);
    HonestUnwraps(c, iv, iv', cmd, comm, hdr, data, u);
    WireLength(env, c, iv, cmd, comm, hdr, data);
  }

  // A size is only ever known once bytes are held.
  predicate Tidy(h: Held) { h.Held? && h.got == [] ==> h.need == 0 }

  // A frame is taken as the start of its own command exactly when nothing was
  // being gathered, or only the bare opcode of the same command; otherwise it
  // goes behind what is there, whatever command it names.
  lemma StartsAfresh(env: Env, h: Held, cmd: byte, input: bytes)
    requires MacsRequest(cmd) && Tidy(h) && Gathered(env, h, cmd, input).1 == More
    ensures var g := Gathered(env, h, cmd, input);
      && g.0.Held? && Tidy(g.0)
      && (g == Gathered(env, Idle, cmd, input) <==> h.Idle? || (h.got == [] && h.cmd == cmd))
  {
    hide Secured;
    if h.Held? && h.got != [] {
      assert |h.got + input| > |input|;
    }
    assert [] + input == input;
  }

  // A WriteData frame of three bytes, then the first of a WriteRecord: both are
  // held as one WriteData.
  lemma TakenForMore(env: Env)
    ensures var h := Gathered(env, Idle, WRITE_DATA, [1, 2, 3]).0;
      Gathered(env, h, WRITE_RECORD, [4, 5]) == (Held(WRITE_DATA, [1, 2, 3, 4, 5], 0), More)
  {
    var a: bytes, b: bytes, ab: bytes := [1, 2, 3], [4, 5], [1, 2, 3, 4, 5];
    assert [] + a == a && a + b == ab;
  }
}
