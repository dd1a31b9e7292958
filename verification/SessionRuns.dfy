// A whole EV1 session between the card and an honest reader: one that secures
// every command and checks every joined answer in order, as the client does in
// client/src/mifare/desfiresecurechan.c.  Both sides are functions of the bytes
// that pass between them; SessionCode has the card's code for its half.
module SessionRuns {
  import opened Wrappers
  import opened Bytes
  import opened Cbc
  import opened Cmac
  import opened SecureSession
  import opened Unwrapping
  import opened ReadChain
  import opened ReaderSide
  import Crc
  import Octets
  import W = WriteGather
  import CF = CreateFile
  import I = Image
  import T = Transactions
  import TC = TransactionCommands

  const E_AUTHENTICATION_ERROR: byte := 0xAE
  const E_PERMISSION_DENIED: byte := 0x9D
  const E_INTEGRITY: byte := 0x1E

  function AsBytes(s: seq<Octets.octet>): (r: bytes)
    ensures |r| == |s|
  {
    seq(|s|, i requires 0 <= i < |s| => s[i] as byte)
  }

  function AsOctets(b: bytes): (r: seq<Octets.octet>)
    ensures |r| == |b|
  {
    seq(|b|, i requires 0 <= i < |b| => b[i] as int)
  }

  // ---- the card

  // The session's cipher, what the rights make of each file, and the application
  // selected: none of them changes while a session lasts.
  datatype World = World(c: BlockCipher, env: W.Env, app: nat)

  datatype Card = Card(iv: bytes, open: bool, store: T.Store)

  // What passes between two points where both sides are at rest.  Where the card
  // looks at more than its files here, what it has to say is part of the input.
  datatype Exchange =
    // a command answered whole
    | Single(cmd: byte, params: bytes, status: byte, data: bytes, comm: Comm)
    // one answered over several frames: GetVersion, GetDFNames, ReadRecords
    | Chained(cmd: byte, params: bytes, status: byte, data: bytes, comm: Comm)
    // ReadData
    | Read(cmd: byte, hdr: bytes, comm: Comm)
    // WriteData, cut into frames of these sizes and a rest
    | Write(cmd: byte, hdr: bytes, data: bytes, comm: Comm, sizes: seq<nat>)
    // every other gathered command: records, credits and debits
    | Command(cmd: byte, hdr: bytes, data: bytes, comm: Comm, sizes: seq<nat>,
              verdict: (T.Store, bytes) -> byte, effect: (T.Store, bytes) -> T.Store)

  predicate Gathers(x: Exchange) { x.Write? || x.Command? }

  // The parameters of ReadData and WriteData: file number, offset, length.
  function Num(hdr: bytes): nat
    requires |hdr| >= 7
  {
    hdr[0] as nat
  }

  function Off(hdr: bytes): nat
    requires |hdr| >= 7
  {
    Le24(hdr[1..])
  }

  function Len(hdr: bytes): nat
    requires |hdr| >= 7
  {
    Le24(hdr[4..])
  }

  function StatusOf(a: TC.Answer): byte {
    match a
    case Done => OPERATION_OK
    case FileNotFound => E_FILE_NOT_FOUND
    case Refused => E_PERMISSION_DENIED
    case LengthError => SecureSession.E_LENGTH
    case BoundaryError => E_BOUNDARY
  }

  ghost predicate Ready(w: World, k: Card) {
    |k.iv| == w.c.kbs && T.Aligned(k.store) && w.env.authenticated && !w.env.legacy && w.env.kbs == w.c.kbs
  }

  // An answer of the card: its new state, the status of the last frame, and the
  // joined payload.
  datatype Answered = Answered(card: Card, status: byte, payload: bytes)

  // An error ends the session.
  function Drops(k: Card, status: byte): Answered { Answered(k.(open := false), status, []) }

  function CommandMac(c: BlockCipher, iv: bytes, cmd: byte, params: bytes): (r: bytes)
    requires |iv| == c.kbs
    ensures |r| == c.kbs
  {
    Mac(c, iv, [cmd] + params)
  }

  // An answer over several frames, joined.
  ghost function Streamed(w: World, k: Card, iv: bytes, comm: Comm, data: bytes): Answered
    requires Ready(w, k) && |iv| == w.c.kbs
  {
    if comm.Full? then
      var y := Send(w.c, Encypher, iv, Sealed(w.c.kbs, data, OPERATION_OK));
      Answered(k.(iv := Carry(w.c.kbs, iv, y)), OPERATION_OK, y)
    else
      var mac := Mac(w.c, iv, data + [OPERATION_OK]);
      Answered(k.(iv := mac), OPERATION_OK, data + mac[..CMAC_LENGTH])
  }

  ghost function SingleActs(w: World, k: Card, x: Exchange, wire: bytes): Answered
    requires Ready(w, k) && x.Single?
  {
    var iv := CommandMac(w.c, k.iv, x.cmd, wire);
    if !NoError(x.status) then Drops(k, x.status)
    else if x.comm.Full? then
      var stream := Sealed(w.c.kbs, x.data, x.status);
      if MAX_RESP < |stream| + 1 then Drops(k, SecureSession.E_LENGTH)
      else Answered(k.(iv := Carry(w.c.kbs, iv, Send(w.c, Encypher, iv, stream))), x.status, Send(w.c, Encypher, iv, stream))
    else
      var mac := Mac(w.c, iv, x.data + [x.status]);
      Answered(k.(iv := mac), x.status, x.data + mac[..CMAC_LENGTH])
  }

  ghost function ChainedActs(w: World, k: Card, x: Exchange, wire: bytes): Answered
    requires Ready(w, k) && x.Chained?
  {
    if x.status != OPERATION_OK then Drops(k, x.status)
    else Streamed(w, k, CommandMac(w.c, k.iv, x.cmd, wire), x.comm, x.data)
  }

  // The mode the rights give a read of the file, if any.
  function ReadMode(w: World, hdr: bytes): Option<Comm>
    requires |hdr| >= 7
  {
    if hdr[0] in w.env.files then w.env.files[hdr[0]].read else None
  }

  function ReadVerdict(w: World, store: T.Store, hdr: bytes): TC.Answer
    requires |hdr| >= 7
  {
    TC.ReadAnswer(store, w.app, Num(hdr), Off(hdr), Len(hdr), ReadMode(w, hdr).Some?)
  }

  // What a read comes to, in the bytes of the file as committed.
  function ServedBytes(w: World, k: Card, hdr: bytes): bytes
    requires T.Aligned(k.store) && |hdr| >= 7 && ReadVerdict(w, k.store, hdr) == TC.Done
  {
    AsBytes(TC.Served(k.store, CF.FirstFile(k.store.files, w.app, Num(hdr), 0), Off(hdr), Len(hdr)))
  }

  lemma DoneIsAllowed(w: World, store: T.Store, hdr: bytes)
    requires |hdr| >= 7 && ReadVerdict(w, store, hdr) == TC.Done
    ensures ReadMode(w, hdr).Some?
  {
  }

  ghost function ReadActs(w: World, k: Card, x: Exchange, wire: bytes): Answered
    requires Ready(w, k) && x.Read?
  {
    if |wire| < 7 then Drops(k, SecureSession.E_LENGTH)
    else
      var a := ReadVerdict(w, k.store, wire);
      if a != TC.Done then Drops(k, StatusOf(a))
      else
        DoneIsAllowed(w, k.store, wire);
        Streamed(w, k, CommandMac(w.c, k.iv, x.cmd, wire), ReadMode(w, wire).value, ServedBytes(w, k, wire))
  }

  // The reader's frames.
  function Cut(wire: bytes, sizes: seq<nat>): (r: seq<bytes>)
    ensures r != []
    decreases |sizes|
  {
    if sizes == [] || sizes[0] >= |wire| then [wire] else [wire[..sizes[0]]] + Cut(wire[sizes[0]..], sizes[1..])
  }

  // The reader stops at the first frame that is not answered ADDITIONAL_FRAME.
  function Fed(env: W.Env, h: W.Held, cmd: byte, frames: seq<bytes>): W.Outcome
    requires MacsRequest(cmd)
    decreases |frames|
  {
    if frames == [] then W.More else
      var (h', o) := W.Gathered(env, h, cmd, frames[0]);
      if o != W.More then o else Fed(env, h', cmd, frames[1..])
  }

  // desfire_sim_unwrap in an EV1 session: what is accepted, and the IV.
  ghost function UnwrapOf(c: BlockCipher, iv: bytes, cmd: byte, comm: Comm, buf: bytes): (r: (Unwrapped, bytes))
    requires |iv| == c.kbs
    ensures |r.1| == c.kbs
  {
    var h := HdrLen(cmd);
    if comm.Full? then
      if |buf| <= h || !Whole(c.kbs, |buf| - h) then (Refused, iv)
      else (Settled(Crc32Over(cmd, buf[..h]), buf[..h], Receive(c, Decypher, iv, buf[h..]), 0), Carry(c.kbs, iv, buf[h..]))
    else if comm.Maced? && MacsRequest(cmd) then
      if |buf| < CMAC_LENGTH then (Refused, iv)
      else
        var plain, mac := buf[..|buf| - CMAC_LENGTH], buf[|buf| - CMAC_LENGTH..];
        var iv' := Mac(c, iv, [cmd] + plain);
        (if iv'[..CMAC_LENGTH] == mac then Parameters(plain) else Refused, iv')
    else (Parameters(buf), Mac(c, iv, [cmd] + buf))
  }

  // The files with these octets written where the header says.
  function Wrote(w: World, store: T.Store, hdr: bytes, data: bytes): (r: T.Store)
    requires T.Aligned(store) && |hdr| >= 7
    requires TC.WriteAnswer(store.files, w.app, Num(hdr), Off(hdr), |data|, |data|) == TC.Done
    ensures T.Aligned(r)
  {
    T.Written(store, CF.FirstFile(store.files, w.app, Num(hdr), 0), Off(hdr), AsOctets(data))
  }

  // desfire_sim_write_apply: what the parameters are answered,
  function Verdict(w: World, x: Exchange, store: T.Store, p: bytes): byte
    requires Gathers(x)
  {
    if x.Command? then x.verdict(store, p)
    else if |p| < 7 then SecureSession.E_LENGTH
    else StatusOf(TC.WriteAnswer(store.files, w.app, Num(p), Off(p), Len(p), |p| - 7))
  }

  // and what they do to the files.
  function Effect(w: World, x: Exchange, store: T.Store, p: bytes): T.Store
    requires Gathers(x) && T.Aligned(store) && Verdict(w, x, store, p) == OPERATION_OK
  {
    if x.Command? then x.effect(store, p) else Wrote(w, store, p, p[7..7 + Len(p)])
  }

  ghost function Applies(w: World, k: Card, x: Exchange, iv: bytes, p: bytes): Answered
    requires Ready(w, k) && |iv| == w.c.kbs && Gathers(x)
  {
    if Verdict(w, x, k.store, p) != OPERATION_OK then Drops(k, Verdict(w, x, k.store, p))
    else
      var mac := Mac(w.c, iv, [OPERATION_OK]);
      Answered(Card(mac, true, Effect(w, x, k.store, p)), OPERATION_OK, mac[..CMAC_LENGTH])
  }

  ghost function WriteActs(w: World, k: Card, x: Exchange, wire: bytes): Answered
    requires Ready(w, k) && Gathers(x) && MacsRequest(x.cmd)
  {
    match Fed(w.env, W.Idle, x.cmd, Cut(wire, x.sizes))
    case More => Answered(k, ADDITIONAL_FRAME, [])
    case Refuse(status) => Drops(k, status)
    case Complete(cmd, comm, message) =>
      var (u, iv) := UnwrapOf(w.c, k.iv, cmd, comm, message);
      if u.Refused? then Drops(k, E_INTEGRITY) else Applies(w, k, x, iv, u.plain)
  }

  // The card's half of any exchange.
  ghost function Acts(w: World, k: Card, x: Exchange, wire: bytes): Answered
    requires Ready(w, k) && Honest(w, x)
  {
    if !k.open then Drops(k, E_AUTHENTICATION_ERROR)
    else match x
      case Single(_, _, _, _, _) => SingleActs(w, k, x, wire)
      case Chained(_, _, _, _, _) => ChainedActs(w, k, x, wire)
      case Read(_, _, _) => ReadActs(w, k, x, wire)
      case _ => WriteActs(w, k, x, wire)
  }

  // ---- the reader

  // The four statuses that are not errors.
  predicate NoError(status: byte) { status in {OPERATION_OK, ADDITIONAL_FRAME, 0x0C, 0x90} }

  // Every command answers OK or an error, refuses parameters shorter than its
  // own, and leaves files as files.
  ghost predicate Orderly(x: Exchange)
    requires x.Command?
  {
    && (forall s: T.Store, p: bytes :: x.verdict(s, p) == OPERATION_OK || !NoError(x.verdict(s, p)))
    && (forall s: T.Store, p: bytes :: x.hdr <= p && |p| < |x.hdr + x.data| ==> x.verdict(s, p) != OPERATION_OK)
    && (forall s: T.Store, p: bytes :: T.Aligned(s) ==> T.Aligned(x.effect(s, p)))
  }

  // Its requests are well formed, and it knows the mode the rights give it.
  ghost predicate Honest(w: World, x: Exchange) {
    match x
    case Single(_, _, _, _, _) => true
    case Chained(_, _, status, _, _) => status == OPERATION_OK || !NoError(status)
    case Read(_, hdr, comm) => |hdr| == 7 && (ReadMode(w, hdr).Some? ==> ReadMode(w, hdr) == Some(comm))
    case Write(cmd, _, _, _, _) => cmd in {WRITE_DATA, WRITE_DATA2} && Sized(w, x)
    case Command(cmd, _, _, _, _, _, _) => MacsRequest(cmd) && cmd !in {WRITE_DATA, WRITE_DATA2} && Sized(w, x) && Orderly(x)
  }

  ghost predicate Sized(w: World, x: Exchange)
    requires Gathers(x)
  {
    && |x.hdr| == HdrLen(x.cmd) > 0 && W.DataLength(x.cmd, x.hdr) == |x.data|
    && (x.hdr[0] in w.env.files && W.ModeOf(w.env, x.hdr[0], x.cmd).Some? ==> W.ModeOf(w.env, x.hdr[0], x.cmd) == Some(x.comm))
  }

  ghost function Request(w: World, riv: bytes, x: Exchange): bytes
    requires |riv| == w.c.kbs
  {
    if Gathers(x) then ReaderWire(w.c, riv, x.cmd, x.comm, x.hdr, x.data) else if x.Read? then x.hdr else x.params
  }

  // Its IV once the request is out.
  ghost function Requested(w: World, riv: bytes, x: Exchange): (r: bytes)
    requires |riv| == w.c.kbs
    ensures |r| == w.c.kbs
  {
    if Gathers(x) then ReaderIv(w.c, riv, x.cmd, x.comm, x.hdr, x.data)
    else CommandMac(w.c, riv, x.cmd, if x.Read? then x.hdr else x.params)
  }

  // The answer to a gathered command is checked like a plain one.
  function AnswerMode(x: Exchange): Comm { if Gathers(x) then Plain else x.comm }

  ghost function Takes(w: World, riv: bytes, x: Exchange, status: byte, payload: bytes): (r: Taken)
    requires |riv| == w.c.kbs
    ensures |r.iv| == w.c.kbs
  {
    Take(w.c, Requested(w, riv, x), AnswerMode(x), status, payload)
  }

  // ---- what an exchange should come to

  // Exactly when the card stays in the session: the answer is no error and fits;
  // the read is allowed; the gathered command fits, is taken off whole, and is
  // allowed.
  ghost predicate Keeps(w: World, k: Card, x: Exchange)
    requires Ready(w, k) && Honest(w, x)
  {
    match x
    case Single(_, _, status, data, comm) => NoError(status) && (comm.Full? ==> |Sealed(w.c.kbs, data, status)| < MAX_RESP)
    case Chained(_, _, status, _, _) => status == OPERATION_OK
    case Read(_, hdr, _) => ReadVerdict(w, k.store, hdr) == TC.Done
    case _ =>
      && W.SizeOf(w.env, x.cmd, x.hdr).Total?
      && (x.comm.Full? ==> NoShorterFit(w.c.kbs, x.cmd, x.hdr, x.data))
      && Verdict(w, x, k.store, x.hdr + x.data) == OPERATION_OK
  }

  // What the answer is to tell the reader.
  ghost function Meant(w: World, k: Card, x: Exchange): bytes
    requires Ready(w, k) && Honest(w, x) && Keeps(w, k, x)
  {
    if Gathers(x) then [] else if x.Read? then ServedBytes(w, k, x.hdr) else x.data
  }

  // Exactly when the reader can read it: in full mode its search has to come
  // out at the end of the data.
  ghost predicate Legible(w: World, k: Card, x: Exchange)
    requires Ready(w, k) && Honest(w, x) && Keeps(w, k, x)
  {
    var status := if x.Single? then x.status else OPERATION_OK;
    AnswerMode(x).Full? ==>
      var stream := Sealed(w.c.kbs, Meant(w, k, x), status); stream != [] && Findable(stream, |Meant(w, k, x)|, status)
  }

  // The files after it.
  ghost function StoreAfter(w: World, k: Card, x: Exchange): T.Store
    requires Ready(w, k) && Honest(w, x) && Keeps(w, k, x)
  {
    if Gathers(x) then Effect(w, x, k.store, x.hdr + x.data) else k.store
  }

  // ---- one exchange

  ghost predicate Follows(w: World, k: Card, x: Exchange, a: Answered)
    requires Ready(w, k) && Honest(w, x)
  {
    && Ready(w, a.card)
    && (a.card.open <==> Keeps(w, k, x))
    && (Keeps(w, k, x) ==>
      var t := Takes(w, k.iv, x, a.status, a.payload);
      && a.card.iv == t.iv
      && a.card.store == StoreAfter(w, k, x)
      && (t.ok && t.says == Meant(w, k, x) <==> Legible(w, k, x)))
  }

  lemma SingleFollows(w: World, k: Card, x: Exchange)
    requires Ready(w, k) && Honest(w, x) && x.Single?
    requires k.open
    ensures Follows(w, k, x, SingleActs(w, k, x, Request(w, k.iv, x)))
  {
    hide Mac, Send, Sealed, Findable, Take;
    var iv := CommandMac(w.c, k.iv, x.cmd, x.params);
    if x.comm.Full? {
      TakesFull(w.c, iv, x.status, x.data);
    } else {
      TakesMaced(w.c, iv, x.status, x.data, x.comm);
    }
  }

  // However many frames it came in, the reader takes the joined answer like a
  // whole one.
  lemma StreamTaken(w: World, k: Card, iv: bytes, comm: Comm, data: bytes)
    requires Ready(w, k) && |iv| == w.c.kbs
    ensures var a := Streamed(w, k, iv, comm, data);
      var t := Take(w.c, iv, comm, OPERATION_OK, a.payload);
      && a.status == OPERATION_OK && a.card == k.(iv := t.iv)
      && var x := Sealed(w.c.kbs, data, OPERATION_OK);
      (t.ok && t.says == data <==> (comm.Full? ==> x != [] && Findable(x, |data|, OPERATION_OK)))
  {
    hide Mac, Send, Sealed, Findable, Take;
    if comm.Full? {
      TakesFull(w.c, iv, OPERATION_OK, data);
    } else {
      TakesMaced(w.c, iv, OPERATION_OK, data, comm);
    }
  }

  lemma ChainedFollows(w: World, k: Card, x: Exchange)
    requires Ready(w, k) && Honest(w, x) && x.Chained?
    requires k.open
    ensures Follows(w, k, x, ChainedActs(w, k, x, Request(w, k.iv, x)))
  {
    hide Mac, Send, Sealed, Findable, Take, Streamed;
    StreamTaken(w, k, CommandMac(w.c, k.iv, x.cmd, x.params), x.comm, x.data);
  }

  lemma ReadFollows(w: World, k: Card, x: Exchange)
    requires Ready(w, k) && Honest(w, x) && x.Read?
    requires k.open
    ensures Follows(w, k, x, ReadActs(w, k, x, Request(w, k.iv, x)))
  {
    hide Mac, Send, Sealed, Findable, Take, ReadVerdict, ServedBytes, Streamed;
    if Keeps(w, k, x) {
      DoneIsAllowed(w, k.store, x.hdr);
      StreamTaken(w, k, CommandMac(w.c, k.iv, x.cmd, x.hdr), x.comm, ServedBytes(w, k, x.hdr));
    }
  }

  // ---- a write, from the reader's frames to the files

  lemma {:induction false} CutJoins(wire: bytes, sizes: seq<nat>)
    requires wire != []
    ensures W.Splits(Cut(wire, sizes), wire)
    decreases |sizes|
  {
    var frames := Cut(wire, sizes);
    if sizes == [] || sizes[0] >= |wire| {
      assert frames[1..] == [];
      assert W.Joined(frames) == wire + W.Joined([]);
    } else {
      CutJoins(wire[sizes[0]..], sizes[1..]);
      assert frames[1..] == Cut(wire[sizes[0]..], sizes[1..]);
    }
  }

  lemma {:induction false} FedToLast(env: W.Env, h: W.Held, cmd: byte, frames: seq<bytes>)
    requires MacsRequest(cmd) && frames != []
    requires var os := W.Run(env, h, cmd, frames).1;
      (forall k :: 0 <= k < |os| - 1 ==> os[k] == W.More) && os[|os| - 1] != W.More
    ensures var os := W.Run(env, h, cmd, frames).1;
      Fed(env, h, cmd, frames) == os[|os| - 1]
    decreases |frames|
  {
    hide W.Gathered, W.Run;
    W.RunFront(env, h, cmd, frames);
    var g := W.Gathered(env, h, cmd, frames[0]);
    var os, rest := W.Run(env, h, cmd, frames).1, W.Run(env, g.0, cmd, frames[1..]).1;
    if |frames| > 1 {
      assert g.1 == os[0] == W.More;
      assert forall k :: 0 <= k < |rest| ==> rest[k] == os[k + 1];
      FedToLast(env, g.0, cmd, frames[1..]);
    }
  }

  lemma FedWhole(env: W.Env, cmd: byte, message: bytes, sizes: seq<nat>)
    requires W.CompleteCommand(env, cmd, message)
    ensures Fed(env, W.Idle, cmd, Cut(message, sizes)) == W.Accept(env, cmd, message)
  {
    hide W.Run, W.SizeOf, W.Splits, Cut, W.Accept;
    W.PrefixSize(env, cmd, message, 0);
    CutJoins(message, sizes);
    W.AnySplit(env, cmd, message, Cut(message, sizes));
    FedToLast(env, W.Idle, cmd, Cut(message, sizes));
  }

  // A write whose header settles on a refusal is refused, however it is cut.
  lemma {:induction false} FedRefused(env: W.Env, cmd: byte, message: bytes, h: W.Held, n: nat, frames: seq<bytes>)
    requires MacsRequest(cmd) && W.SizeOf(env, cmd, message).Refusal?
    requires n < HdrLen(cmd) && n <= |message| && W.Joined(frames) == message[n..]
    requires (n == 0 && h == W.Idle) || h == W.Held(cmd, message[..n], 0)
    ensures Fed(env, h, cmd, frames).Refuse?
    decreases |frames|
  {
    hide W.SizeOf, W.Accept;
    assert |message| >= HdrLen(cmd) by { SizedMessage(env, cmd, message); }
    assert frames != [];
    var m := n + |frames[0]|;
    var got := if h.Idle? then [] else h.got;
    assert got + frames[0] == message[..m];
    if m < HdrLen(cmd) {
      Unsized(env, cmd, message[..m]);
      assert W.Joined(frames[1..]) == message[m..];
      FedRefused(env, cmd, message, W.Held(cmd, message[..m], 0), m, frames[1..]);
    } else {
      W.SameSize(env, cmd, message[..m], message);
    }
  }

  lemma SizedMessage(env: W.Env, cmd: byte, message: bytes)
    requires MacsRequest(cmd) && W.SizeOf(env, cmd, message).Refusal?
    ensures |message| >= HdrLen(cmd)
  {
  }

  lemma Unsized(env: W.Env, cmd: byte, front: bytes)
    requires MacsRequest(cmd) && |front| < HdrLen(cmd)
    ensures W.SizeOf(env, cmd, front) == W.Unsized
  {
  }

  lemma UnwrapOfUnwraps(c: BlockCipher, iv: bytes, cmd: byte, comm: Comm, buf: bytes)
    requires |iv| == c.kbs
    ensures Unwraps(c, true, false, iv, UnwrapOf(c, iv, cmd, comm, buf).1, cmd, comm, buf, UnwrapOf(c, iv, cmd, comm, buf).0)
  {
    hide Settled, Settles, Mac, Receive;
    var h := HdrLen(cmd);
    if comm.Full? && h < |buf| && Whole(c.kbs, |buf| - h) {
      SettledSettles(Crc32Over(cmd, buf[..h]), buf[..h], Receive(c, Decypher, iv, buf[h..]), 0);
    }
  }

  // What the header of the parameters says is what the reader's header says.
  lemma SameHeader(hdr: bytes, p: bytes)
    requires |hdr| == 7 && hdr <= p
    ensures Num(p) == Num(hdr) && Off(p) == Off(hdr) && Len(p) == Len(hdr)
  {
    assert p[1..][0] == hdr[1..][0] && p[1..][1] == hdr[1..][1] && p[1..][2] == hdr[1..][2];
    assert p[4..][0] == hdr[4..][0] && p[4..][1] == hdr[4..][1] && p[4..][2] == hdr[4..][2];
  }

  // Parameters taken off whole do what they were sent for; any shorter are
  // refused.
  lemma HonestApplies(w: World, k: Card, x: Exchange, iv: bytes, p: bytes)
    requires Ready(w, k) && Honest(w, x) && Gathers(x) && |iv| == w.c.kbs
    requires x.hdr <= p && |p| <= |x.hdr + x.data| && (|p| == |x.hdr + x.data| ==> p == x.hdr + x.data)
    ensures var a := Applies(w, k, x, iv, p);
      if p == x.hdr + x.data && Verdict(w, x, k.store, p) == OPERATION_OK
      then a == Answered(Card(Mac(w.c, iv, [OPERATION_OK]), true, Effect(w, x, k.store, p)), OPERATION_OK, Mac(w.c, iv, [OPERATION_OK])[..CMAC_LENGTH])
      else a == Drops(k, a.status)
  {
    hide Mac, Effect, Verdict;
    if p != x.hdr + x.data {
      ShortRefused(w, k.store, x, p);
    }
  }

  lemma ShortRefused(w: World, store: T.Store, x: Exchange, p: bytes)
    requires Honest(w, x) && Gathers(x) && x.hdr <= p && |p| < |x.hdr + x.data|
    ensures Verdict(w, x, store, p) != OPERATION_OK
  {
    hide Num, Off, Le24;
    if x.Write? {
      SameHeader(x.hdr, p);
      ShortWrite(store.files, w.app, Num(p), Off(p), Len(p), |p| - 7);
    }
  }

  lemma ShortWrite(files: seq<I.File>, app: nat, num: nat, off: nat, n: nat, len: nat)
    requires len < n
    ensures TC.WriteAnswer(files, app, num, off, n, len) != TC.Done
  {
  }

  lemma WireSize(w: World, riv: bytes, x: Exchange)
    requires |riv| == w.c.kbs == w.env.kbs && w.env.authenticated && !w.env.legacy && Honest(w, x) && Gathers(x)
    ensures var wire := ReaderWire(w.c, riv, x.cmd, x.comm, x.hdr, x.data);
      && W.SizeOf(w.env, x.cmd, wire) == W.SizeOf(w.env, x.cmd, x.hdr)
      && (W.SizeOf(w.env, x.cmd, x.hdr).Total? ==>
        && W.CompleteCommand(w.env, x.cmd, wire)
        && W.Accept(w.env, x.cmd, wire) == W.Complete(x.cmd, x.comm, wire))
      && (!W.SizeOf(w.env, x.cmd, x.hdr).Total? ==> W.SizeOf(w.env, x.cmd, wire).Refusal?)
  {
    hide W.Secured, ReaderWire, W.DataLength, Orderly;
    var wire := ReaderWire(w.c, riv, x.cmd, x.comm, x.hdr, x.data);
    W.WireLength(w.env, w.c, riv, x.cmd, x.comm, x.hdr, x.data);
    W.SameSize(w.env, x.cmd, x.hdr, wire);
    assert wire[0] == x.hdr[0];
    NeverUnsized(w.env, x.comm, x.cmd, |x.data|);
  }

  lemma NeverUnsized(env: W.Env, comm: Comm, cmd: byte, n: nat)
    ensures !W.Secured(env, cmd, comm, n).Unsized?
  {
    hide PaddedDataLength;
  }

  lemma WriteFollows(w: World, k: Card, x: Exchange)
    requires Ready(w, k) && Honest(w, x) && Gathers(x)
    requires k.open
    ensures Follows(w, k, x, WriteActs(w, k, x, Request(w, k.iv, x)))
  {
    hide Mac, Take, Applies, UnwrapOf, NoShorterFit, ReaderIv, W.SizeOf, W.Accept, Fed, Cut, ReaderWire, Effect, Verdict, Receive;
    hide Unwraps, Sized, Orderly;
    var wire := ReaderWire(w.c, k.iv, x.cmd, x.comm, x.hdr, x.data);
    WireSize(w, k.iv, x);
    if W.SizeOf(w.env, x.cmd, x.hdr).Total? {
      FedWhole(w.env, x.cmd, wire, x.sizes);
      var (u, iv) := UnwrapOf(w.c, k.iv, x.cmd, x.comm, wire);
      UnwrapOfUnwraps(w.c, k.iv, x.cmd, x.comm, wire);
      HeaderWhole(w, x);
      HonestUnwraps(w.c, k.iv, iv, x.cmd, x.comm, x.hdr, x.data, u);
      HonestApplies(w, k, x, iv, u.plain);
      EffectReady(w, k, x);
      TakesMaced(w.c, iv, OPERATION_OK, [], Plain);
      assert [] + [OPERATION_OK] == [OPERATION_OK];
      var mac := Mac(w.c, iv, [OPERATION_OK])[..CMAC_LENGTH];
      assert [] + mac == mac;
    } else {
      CutWhole(wire, x.sizes);
      FedRefused(w.env, x.cmd, wire, W.Idle, 0, Cut(wire, x.sizes));
    }
  }

  lemma HeaderWhole(w: World, x: Exchange)
    requires Honest(w, x) && Gathers(x)
    ensures |x.hdr| == HdrLen(x.cmd) && MacsRequest(x.cmd)
  {
  }

  lemma EffectReady(w: World, k: Card, x: Exchange)
    requires Ready(w, k) && Honest(w, x) && Gathers(x)
    ensures Verdict(w, x, k.store, x.hdr + x.data) == OPERATION_OK ==> T.Aligned(Effect(w, x, k.store, x.hdr + x.data))
  {
  }

  // Data that begins with the checksum of the header alone costs an enciphered
  // write its session: the card takes it for a write of nothing.
  lemma ShorterFitDrops(w: World, k: Card, x: Exchange, rest: bytes)
    requires Ready(w, k) && Honest(w, x) && k.open && Gathers(x) && x.comm.Full?
    requires x.data == Crc.Crc32([x.cmd] + x.hdr) + rest
    ensures !WriteActs(w, k, x, Request(w, k.iv, x)).card.open
  {
    hide WriteActs, Request, NoShorterFit, Takes, StoreAfter, Meant, Legible, Crc.Crc32, Verdict, Orderly, Sized;
    EmptyFrontFits(w.c.kbs, x.cmd, x.hdr, rest);
    WriteFollows(w, k, x);
  }

  lemma CutWhole(wire: bytes, sizes: seq<nat>)
    ensures W.Joined(Cut(wire, sizes)) == wire[0..]
  {
    if wire != [] {
      CutJoins(wire, sizes);
    } else {
      assert Cut(wire, sizes) == [wire];
    }
    assert wire[0..] == wire;
  }

  // ---- every run

  lemma ActsFollow(w: World, k: Card, x: Exchange)
    requires Ready(w, k) && Honest(w, x) && k.open
    ensures Follows(w, k, x, Acts(w, k, x, Request(w, k.iv, x)))
  {
    hide Follows, SingleActs, ChainedActs, ReadActs, WriteActs;
    match x
    case Single(_, _, _, _, _) => SingleFollows(w, k, x);
    case Chained(_, _, _, _, _) => ChainedFollows(w, k, x);
    case Read(_, _, _) => ReadFollows(w, k, x);
    case _ => WriteFollows(w, k, x);
  }

  // Both sides after some exchanges, and what the reader took each to be.
  datatype Joint = Joint(card: Card, riv: bytes, log: seq<Taken>)

  ghost predicate Fine(w: World, j: Joint) {
    Ready(w, j.card) && |j.riv| == w.c.kbs
  }

  // Card and reader act on the bytes the other one sends, and on nothing else.
  ghost function Step(w: World, j: Joint, x: Exchange): Joint
    requires Fine(w, j) && Honest(w, x)
  {
    var a := Acts(w, j.card, x, Request(w, j.riv, x));
    var t := Takes(w, j.riv, x, a.status, a.payload);
    Joint(a.card, t.iv, j.log + [t])
  }

  lemma ActsReady(w: World, k: Card, x: Exchange, wire: bytes)
    requires Ready(w, k) && Honest(w, x)
    ensures Ready(w, Acts(w, k, x, wire).card)
    ensures !k.open ==> !Acts(w, k, x, wire).card.open
  {
    hide Mac, Send, UnwrapOf, Fed, Sealed, ServedBytes, TC.ReadAnswer;
  }

  ghost predicate AllHonest(w: World, xs: seq<Exchange>) {
    forall i :: 0 <= i < |xs| ==> Honest(w, xs[i])
  }

  ghost function Run(w: World, j: Joint, xs: seq<Exchange>): (r: Joint)
    requires Fine(w, j) && AllHonest(w, xs)
    ensures Fine(w, r) && |r.log| == |j.log| + |xs|
  {
    if xs == [] then j else
      var before := Run(w, j, xs[..|xs| - 1]);
      ActsReady(w, before.card, xs[|xs| - 1], Request(w, before.riv, xs[|xs| - 1]));
      Step(w, before, xs[|xs| - 1])
  }

  // The card is in the session and holds the reader's IV.
  ghost predicate InStep(j: Joint) {
    j.card.open && j.card.iv == j.riv
  }

  // No exchange of the run made the card leave the session.
  ghost predicate AllKeep(w: World, j: Joint, xs: seq<Exchange>)
    requires Fine(w, j) && AllHonest(w, xs)
  {
    forall i :: 0 <= i < |xs| ==> KeepsAt(w, j, xs, i)
  }

  ghost predicate KeepsAt(w: World, j: Joint, xs: seq<Exchange>, i: nat)
    requires Fine(w, j) && AllHonest(w, xs) && i < |xs|
  {
    Keeps(w, Run(w, j, xs[..i]).card, xs[i])
  }

  // What the reader took exchange i to be: it ended on the card's IV, and it
  // was satisfied and read what was meant exactly when that was legible.
  ghost predicate TakenAsMeant(w: World, j: Joint, xs: seq<Exchange>, i: nat, t: Taken)
    requires Fine(w, j) && AllHonest(w, xs) && i < |xs| && KeepsAt(w, j, xs, i)
  {
    var k := Run(w, j, xs[..i]).card;
    && t.iv == Run(w, j, xs[..i + 1]).card.iv
    && Run(w, j, xs[..i + 1]).card.store == StoreAfter(w, k, xs[i])
    && (t.ok && t.says == Meant(w, k, xs[i]) <==> Legible(w, k, xs[i]))
  }

  lemma StepFollows(w: World, b: Joint, x: Exchange)
    requires Fine(w, b) && Honest(w, x)
    ensures var r := Step(w, b, x);
      && |r.log| == |b.log| + 1 && r.log[..|b.log|] == b.log
      && (!b.card.open ==> !r.card.open)
      && (InStep(b) ==>
        && (r.card.open <==> Keeps(w, b.card, x))
        && (Keeps(w, b.card, x) ==>
          var t := r.log[|b.log|];
          && InStep(r) && t.iv == r.card.iv
          && r.card.store == StoreAfter(w, b.card, x)
          && (t.ok && t.says == Meant(w, b.card, x) <==> Legible(w, b.card, x))))
  {
    hide Keeps, Honest, Acts, Meant, Legible, StoreAfter, Takes, Request;
    ActsReady(w, b.card, x, Request(w, b.riv, x));
    if InStep(b) {
      ActsFollow(w, b.card, x);
    }
  }

  lemma LastStep(w: World, j: Joint, xs: seq<Exchange>)
    requires Fine(w, j) && AllHonest(w, xs) && xs != [] && j.log == []
    ensures var n := |xs| - 1;
      var b, r := Run(w, j, xs[..n]), Run(w, j, xs);
      && |b.log| == n && r.log[..n] == b.log
      && (!b.card.open ==> !r.card.open)
      && (InStep(b) ==>
        && (r.card.open <==> Keeps(w, b.card, xs[n]))
        && (Keeps(w, b.card, xs[n]) ==> InStep(r) && TakenAsMeant(w, j, xs, n, r.log[n])))
  {
    hide Keeps, Honest, Step, Meant, Legible, StoreAfter;
    var n := |xs| - 1;
    StepFollows(w, Run(w, j, xs[..n]), xs[n]);
    assert xs[..n + 1] == xs;
  }

  lemma KeepsBefore(w: World, j: Joint, xs: seq<Exchange>, i: nat)
    requires Fine(w, j) && AllHonest(w, xs) && i < |xs| - 1
    ensures KeepsAt(w, j, xs[..|xs| - 1], i) == KeepsAt(w, j, xs, i)
  {
    hide Keeps, Honest, Run;
    var front := xs[..|xs| - 1];
    assert front[..i] == xs[..i] && front[i] == xs[i];
  }

  lemma AllKeepSnoc(w: World, j: Joint, xs: seq<Exchange>)
    requires Fine(w, j) && AllHonest(w, xs) && xs != []
    ensures AllKeep(w, j, xs) <==> AllKeep(w, j, xs[..|xs| - 1]) && KeepsAt(w, j, xs, |xs| - 1)
  {
    hide Keeps, Honest, Run, KeepsAt;
    var n, front := |xs| - 1, xs[..|xs| - 1];
    if AllKeep(w, j, xs) {
      forall i | 0 <= i < n ensures KeepsAt(w, j, front, i) {
        KeepsBefore(w, j, xs, i);
      }
    } else if AllKeep(w, j, front) && KeepsAt(w, j, xs, n) {
      forall i | 0 <= i < |xs| ensures KeepsAt(w, j, xs, i) {
        if i < n {
          KeepsBefore(w, j, xs, i);
        }
      }
    }
  }

  lemma TakenBefore(w: World, j: Joint, xs: seq<Exchange>, i: nat, t: Taken)
    requires Fine(w, j) && AllHonest(w, xs) && i < |xs| - 1
    requires KeepsAt(w, j, xs, i) && KeepsAt(w, j, xs[..|xs| - 1], i)
    requires TakenAsMeant(w, j, xs[..|xs| - 1], i, t)
    ensures TakenAsMeant(w, j, xs, i, t)
  {
    hide Keeps, Honest, Run, Meant, Legible, StoreAfter;
    var front := xs[..|xs| - 1];
    assert front[..i] == xs[..i] && front[..i + 1] == xs[..i + 1] && front[i] == xs[i];
  }

  // In every run of a session opened in step, the two sides are in step at its
  // end if and only if every exchange was one the card keeps the session for;
  // and then after each of them the IVs agreed, and the reader took it as meant
  // exactly when it was legible.
  lemma {:induction false} RunInStep(w: World, j: Joint, xs: seq<Exchange>)
    requires Fine(w, j) && AllHonest(w, xs) && InStep(j) && j.log == []
    ensures InStep(Run(w, j, xs)) <==> AllKeep(w, j, xs)
    ensures !InStep(Run(w, j, xs)) ==> !Run(w, j, xs).card.open
    ensures AllKeep(w, j, xs) ==> forall i :: 0 <= i < |xs| ==> TakenAsMeant(w, j, xs, i, Run(w, j, xs).log[i])
    decreases |xs|
  {
    hide Keeps, Step, Honest, TakenAsMeant;
    if xs != [] {
      var n := |xs| - 1;
      RunInStep(w, j, xs[..n]);
      LastStep(w, j, xs);
      AllKeepSnoc(w, j, xs);
      if AllKeep(w, j, xs) {
        var log, front := Run(w, j, xs).log, Run(w, j, xs[..n]).log;
        forall i | 0 <= i < |xs| ensures TakenAsMeant(w, j, xs, i, log[i]) {
          if i < n {
            KeepsBefore(w, j, xs, i);
            assert TakenAsMeant(w, j, xs[..n], i, front[i]);
            assert log[i] == log[..n][i];
            TakenBefore(w, j, xs, i, log[i]);
          }
        }
      }
    }
  }
}
