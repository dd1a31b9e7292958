// The card's code for the exchanges of a session, put together from the pieces
// of armsrc/desfiresim.c: each method does what SessionRuns says the card does.
module SessionCode {
  import opened Wrappers
  import opened Bytes
  import opened Cbc
  import opened Cmac
  import opened SecureSession
  import opened Unwrapping
  import opened ReadChain
  import opened SessionRuns
  import Octets
  import W = WriteGather
  import CF = CreateFile
  import I = Image
  import T = Transactions
  import TC = TransactionCommands

  // The session as the card keeps it, against the card it should be.
  ghost predicate Holds(s: Session, w: World, store: T.Store)
    reads s, s.pend
  {
    s.Valid() && s.authenticated && !s.legacy && s.c == w.c && Ready(w, Card(s.iv, true, store))
  }

  ghost predicate Left(s: Session, k: Card)
    reads s, s.pend
  {
    s.Valid() && s.authenticated == k.open && (k.open ==> s.iv == k.iv)
  }

  // desfire_sim_dispatch: an error ends the session.
  method Dispatched(s: Session, status: byte)
    requires s.Valid()
    modifies s`authenticated
    ensures s.Valid() && s.authenticated == (old(s.authenticated) && NoError(status))
  {
    if !NoError(status) {
      s.authenticated := false;
    }
  }

  // An answer as desfire_sim_respond leaves it, against what the card should say.
  ghost predicate Said(a: Answered, iv: bytes, out: bytes) {
    && out != [] && out[0] == a.status && out[1..] == a.payload
    && a.card.open == NoError(a.status) && (a.card.open ==> iv == a.card.iv)
  }

  lemma EncipheredSaid(w: World, k: Card, x: Exchange, wire: bytes, iv: bytes, iv': bytes, out: bytes)
    requires Ready(w, k) && k.open && x.Single? && NoError(x.status) && x.comm.Full?
    requires iv == CommandMac(w.c, k.iv, x.cmd, wire)
    requires Enciphers(w.c, iv, iv', Sealed(w.c.kbs, x.data, x.status), x.status, out)
    ensures Said(SingleActs(w, k, x, wire), iv', out)
  {
    hide Mac, Send, Sealed;
  }

  lemma MacedSaid(w: World, k: Card, x: Exchange, wire: bytes, iv: bytes, iv': bytes, out: bytes)
    requires Ready(w, k) && k.open && x.Single? && NoError(x.status) && !x.comm.Full?
    requires iv == CommandMac(w.c, k.iv, x.cmd, wire)
    requires |iv'| == w.c.kbs && iv' == Mac(w.c, iv, x.data + [x.status]) && out == [x.status] + x.data + iv'[..CMAC_LENGTH]
    ensures Said(SingleActs(w, k, x, wire), iv', out)
  {
    hide Mac, Send, Sealed;
    ReadChain.Payload(out, x.status, x.data, iv'[..CMAC_LENGTH]);
  }

  lemma RefusedSingle(w: World, k: Card, x: Exchange, wire: bytes)
    requires Ready(w, k) && x.Single? && !NoError(x.status)
    ensures SingleActs(w, k, x, wire) == Drops(k, x.status)
  {
  }

  method ServeSingle(s: Session, w: World, ghost store: T.Store, x: Exchange, wire: bytes) returns (status: byte, payload: bytes)
    requires Holds(s, w, store) && x.Single? && Honest(w, x)
    modifies s`iv, s`pendlen, s`authenticated, s.pend
    ensures var a := SingleActs(w, Card(old(s.iv), true, store), x, wire);
      Left(s, a.card) && status == a.status && payload == a.payload
  {
    hide Mac, Send, Sealed, Enciphers, SingleActs, T.Aligned;
    ghost var k := Card(s.iv, true, store);
    s.CmacCommand(x.cmd, wire);
    ghost var iv := s.iv;
    if !NoError(x.status) {
      RefusedSingle(w, k, x, wire);
      Dispatched(s, x.status);
      return x.status, [];
    }
    var out := s.Respond(x.status, x.data, x.comm);
    if x.comm.Full? {
      EncipheredSaid(w, k, x, wire, iv, s.iv, out);
    } else {
      MacedSaid(w, k, x, wire, iv, s.iv, out);
    }
    status, payload := out[0], out[1..];
    Dispatched(s, status);
  }

  // ---- answers over several frames

  // The joined frames, against what the card should say.
  lemma JoinedSaid(w: World, k: Card, iv: bytes, iv': bytes, comm: Comm, data: bytes, joined: bytes)
    requires Ready(w, k) && k.open && |iv| == w.c.kbs
    requires Delivered(w.c, iv, iv', comm, data, joined)
    ensures var a := Streamed(w, k, iv, comm, data);
      a.card.open && iv' == a.card.iv && a.status == OPERATION_OK && joined == a.payload
  {
    hide Mac, Send, Sealed, After, T.Aligned;
    if comm.Full? {
      AfterIsCarry(w.c, Encypher, iv, StreamOf(w.c.kbs, false, comm, data));
    }
  }

  ghost predicate Delivered(c: BlockCipher, iv: bytes, iv': bytes, comm: Comm, data: bytes, joined: bytes)
    requires |iv| == c.kbs
  {
    var stream := StreamOf(c.kbs, false, comm, data);
    if comm.Full? then Whole(c.kbs, |stream|) && joined == Send(c, Encypher, iv, stream) && iv' == After(c, Encypher, iv, stream)
    else joined == data + Mac(c, iv, data + [OPERATION_OK])[..CMAC_LENGTH] && iv' == Mac(c, iv, data + [OPERATION_OK])
  }

  // desfire_sim_read_start and every frame after it, in an EV1 session
  method ReadWhole(s: Session, t: Transfer, region: bytes, f: File, off: nat, n: nat, comm: Comm) returns (joined: bytes)
    requires s.Valid() && s.authenticated && !s.legacy && t.s == s && 0 < t.chunk && Whole(s.c.kbs, t.chunk)
    requires f.dataoff + f.datalen <= |region|
    modifies t, s`iv, s`pendlen, s.pend
    ensures s.Valid()
    ensures Delivered(s.c, old(s.iv), s.iv, comm, ReadChain.Requested(region, f, off, n), joined)
  {
    hide Mac, Send, Sealed, After, ReadChain.Requested;
    t.Begin(region, f, off, n, comm);
    joined := ReadOn(t);
  }

  // ReadRecords, once its octets are worked out
  method ServeRecords(s: Session, t: Transfer, w: World, ghost store: T.Store, x: Exchange, wire: bytes) returns (status: byte, payload: bytes)
    requires Holds(s, w, store) && x.Chained? && Honest(w, x) && t.s == s && 0 < t.chunk && Whole(s.c.kbs, t.chunk)
    modifies t, s`iv, s`pendlen, s`authenticated, s.pend
    ensures var a := ChainedActs(w, Card(old(s.iv), true, store), x, wire);
      Left(s, a.card) && status == a.status && payload == a.payload
  {
    hide Mac, Send, Sealed, After, T.Aligned, StreamOf, Delivered, Streamed;
    ghost var k := Card(s.iv, true, store);
    s.CmacCommand(x.cmd, wire);
    ghost var iv := s.iv;
    if x.status != OPERATION_OK {
      Dispatched(s, x.status);
      return x.status, [];
    }
    payload := ReadWhole(s, t, x.data, File(0, |x.data|, false), 0, |x.data|, x.comm);
    assert ReadChain.Requested(x.data, File(0, |x.data|, false), 0, |x.data|) == x.data;
    status := OPERATION_OK;
    JoinedSaid(w, k, iv, s.iv, x.comm, x.data, payload);
  }

  // GetVersion and GetDFNames: frames of the card's own making, never
  // enciphered.
  method ServeFrames(s: Session, w: World, ghost store: T.Store, x: Exchange, wire: bytes, frames: seq<bytes>) returns (status: byte, payload: bytes)
    requires Holds(s, w, store) && x.Chained? && x.status == OPERATION_OK && !x.comm.Full?
    requires frames != [] && W.Joined(frames) == x.data
    modifies s`iv, s`pendlen, s`authenticated, s.pend
    ensures var a := ChainedActs(w, Card(old(s.iv), true, store), x, wire);
      Left(s, a.card) && status == a.status && payload == a.payload
  {
    hide Mac, Send, Sealed, After, T.Aligned, StreamOf, Streamed;
    ghost var k := Card(s.iv, true, store);
    s.CmacCommand(x.cmd, wire);
    ghost var iv := s.iv;
    payload := FramesOut(s, x.comm, frames);
    status := OPERATION_OK;
    JoinedSaid(w, k, iv, s.iv, x.comm, x.data, payload);
  }

  // Every frame but the last says that more follow.
  method FramesOut(s: Session, comm: Comm, frames: seq<bytes>) returns (joined: bytes)
    requires s.Valid() && s.authenticated && !s.legacy && !comm.Full? && frames != []
    modifies s`iv, s`pendlen, s.pend
    ensures s.Valid() && Delivered(s.c, old(s.iv), s.iv, comm, W.Joined(frames), joined)
  {
    hide Mac, Send, After, W.Joined, Delivered;
    ghost var iv := s.iv;
    s.CmacReset();
    joined := [];
    var i := 0;
    assert frames[0..] == frames && [] + W.Joined(frames) == W.Joined(frames);
    while i < |frames| - 1
      invariant i < |frames| && s.Valid() && s.Running(comm, iv, joined)
      invariant joined + W.Joined(frames[i..]) == W.Joined(frames)
    {
      var out := s.ChainedAnswer(true, comm, frames[i], iv, joined);
      Moved(frames, i, joined, out);
      joined := joined + out[1..];
      i := i + 1;
    }
    LastOfJoined(frames, joined);
    var out := s.ChainedAnswer(false, comm, frames[i], iv, joined);
    LastFrame(s, comm, iv, joined + frames[i], frames[i], joined, out);
    joined := joined + out[1..];
  }

  lemma Moved(frames: seq<bytes>, i: nat, joined: bytes, out: bytes)
    requires i < |frames| && out == [ADDITIONAL_FRAME] + frames[i]
    ensures out[1..] == frames[i] && joined + W.Joined(frames[i..]) == (joined + frames[i]) + W.Joined(frames[i + 1..])
  {
    assert frames[i..][1..] == frames[i + 1..];
  }

  lemma LastOfJoined(frames: seq<bytes>, joined: bytes)
    requires frames != []
    ensures joined + W.Joined(frames[|frames| - 1..]) == joined + frames[|frames| - 1]
  {
    assert frames[|frames| - 1..][1..] == [];
    assert W.Joined([]) == [];
  }

  lemma LastFrame(s: Session, comm: Comm, iv: bytes, data: bytes, frame: bytes, joined: bytes, out: bytes)
    requires s.Valid() && s.authenticated && !s.legacy && !comm.Full? && |iv| == s.c.kbs && data == joined + frame
    requires out == [OPERATION_OK] + frame + s.Trailer(comm, iv, data) && s.Closed(iv, data)
    ensures Delivered(s.c, iv, s.iv, comm, data, joined + out[1..])
  {
    hide Mac;
    ReadChain.Payload(out, OPERATION_OK, frame, s.Trailer(comm, iv, data));
    ReadChain.Regroups(joined, frame, s.Trailer(comm, iv, data));
  }

  // ---- ReadData

  // A file's committed region is what a read is served from.
  lemma ServedFromRegion(store: T.Store, i: nat, off: nat, len: nat)
    requires T.Aligned(store) && i < |store.files| && off <= store.files[i].w0
    ensures var region := AsBytes(store.data[i]);
      var n := if len == 0 then store.files[i].w0 - off else len;
      && store.files[i].datalen <= |region|
      && ReadChain.Requested(region, File(0, store.files[i].datalen, false), off, n) == AsBytes(TC.Served(store, i, off, len))
  {
  }

  method ServeRead(s: Session, t: Transfer, w: World, store: T.Store, x: Exchange, wire: bytes) returns (status: byte, payload: bytes)
    requires Holds(s, w, store) && x.Read? && Honest(w, x) && t.s == s && 0 < t.chunk && Whole(s.c.kbs, t.chunk)
    modifies t, s`iv, s`pendlen, s`authenticated, s.pend
    ensures var a := ReadActs(w, Card(old(s.iv), true, store), x, wire);
      Left(s, a.card) && status == a.status && payload == a.payload
  {
    hide Mac, Send, Sealed, After, Num, Off, Len, ServedBytes, ReadVerdict, TC.Served, T.Aligned, StreamOf, ReadChain.Requested, ReadActs, Delivered;
    ghost var k := Card(s.iv, true, store);
    s.CmacCommand(x.cmd, wire);
    ghost var iv := s.iv;
    ReadActsWhen(w, k, x, wire);
    if |wire| < 7 {
      Dispatched(s, SecureSession.E_LENGTH);
      return SecureSession.E_LENGTH, [];
    }
    var a := ReadVerdict(w, store, wire);
    if a != TC.Done {
      Dispatched(s, StatusOf(a));
      return StatusOf(a), [];
    }
    DoneIsAllowed(w, store, wire);
    payload := ReadFrom(s, t, w, k, store, wire, ReadMode(w, wire).value);
    status := OPERATION_OK;
    JoinedSaid(w, k, iv, s.iv, ReadMode(w, wire).value, ServedBytes(w, k, wire), payload);
  }

  // An allowed read, from the file's region.
  method ReadFrom(s: Session, t: Transfer, w: World, ghost k: Card, store: T.Store, wire: bytes, comm: Comm) returns (joined: bytes)
    requires s.Valid() && s.authenticated && !s.legacy && t.s == s && 0 < t.chunk && Whole(s.c.kbs, t.chunk)
    requires k.store == store && T.Aligned(store) && |wire| >= 7 && ReadVerdict(w, store, wire) == TC.Done
    modifies t, s`iv, s`pendlen, s.pend
    ensures s.Valid() && Delivered(s.c, old(s.iv), s.iv, comm, ServedBytes(w, k, wire), joined)
  {
    hide Mac, Send, Sealed, After, Num, Off, Len, ServedBytes, ReadVerdict, TC.Served, T.Aligned, StreamOf, ReadChain.Requested, Delivered;
    Found(w, store, wire);
    var i := CF.FirstFile(store.files, w.app, Num(wire), 0);
    var n := if Len(wire) == 0 then store.files[i].w0 - Off(wire) else Len(wire);
    ServedFromRegion(store, i, Off(wire), Len(wire));
    ServedHere(w, k, wire);
    joined := ReadWhole(s, t, AsBytes(store.data[i]), File(0, store.files[i].datalen, false), Off(wire), n, comm);
  }

  lemma ReadActsWhen(w: World, k: Card, x: Exchange, wire: bytes)
    requires Ready(w, k) && x.Read?
    ensures |wire| < 7 ==> ReadActs(w, k, x, wire) == Drops(k, SecureSession.E_LENGTH)
    ensures |wire| >= 7 ==>
      var a := ReadVerdict(w, k.store, wire);
      && (a != TC.Done ==> ReadActs(w, k, x, wire) == Drops(k, StatusOf(a)) && !NoError(StatusOf(a)))
      && (a == TC.Done ==>
        && ReadMode(w, wire).Some?
        && ReadActs(w, k, x, wire) == Streamed(w, k, CommandMac(w.c, k.iv, x.cmd, wire), ReadMode(w, wire).value, ServedBytes(w, k, wire)))
  {
    hide Mac, Send, Sealed, Num, Off, Len, T.Aligned, ServedBytes, ReadVerdict, Streamed;
    if |wire| >= 7 && ReadVerdict(w, k.store, wire) == TC.Done {
      DoneIsAllowed(w, k.store, wire);
    }
  }

  lemma Found(w: World, store: T.Store, wire: bytes)
    requires T.Aligned(store) && |wire| >= 7 && ReadVerdict(w, store, wire) == TC.Done
    ensures var i := CF.FirstFile(store.files, w.app, Num(wire), 0);
      i < |store.files| == |store.data| && Off(wire) <= store.files[i].w0
  {
    hide CF.FirstFile, Num, Off, Len;
  }

  lemma ServedHere(w: World, k: Card, hdr: bytes)
    requires T.Aligned(k.store) && |hdr| >= 7 && ReadVerdict(w, k.store, hdr) == TC.Done
    ensures var i := CF.FirstFile(k.store.files, w.app, Num(hdr), 0);
      && i < |k.store.files| && Off(hdr) <= k.store.files[i].w0
      && ServedBytes(w, k, hdr) == AsBytes(TC.Served(k.store, i, Off(hdr), Len(hdr)))
  {
    hide CF.FirstFile, Num, Off, Len, TC.Served;
  }

  // ---- gathered commands

  // Frame after frame until one is not answered ADDITIONAL_FRAME.
  method Feed(g: W.Gather, env: W.Env, cmd: byte, frames: seq<bytes>) returns (o: W.Outcome)
    requires g.Valid() && g.wcmd == 0 && MacsRequest(cmd)
    modifies g, g.wbuf
    ensures g.Valid() && o == Fed(env, W.Idle, cmd, frames)
  {
    hide W.Gathered, MacsRequest;
    o := W.More;
    var i := 0;
    assert frames[0..] == frames;
    while i < |frames| && o == W.More
      invariant i <= |frames| && g.Valid()
      invariant Fed(env, W.Idle, cmd, frames) == if o == W.More then Fed(env, g.State(), cmd, frames[i..]) else o
    {
      assert frames[i..][1..] == frames[i + 1..];
      o := g.Frame(env, cmd, frames[i]);
      i := i + 1;
    }
  }

  // A refused frame is refused with an error.
  lemma FedErrors(env: W.Env, h: W.Held, cmd: byte, frames: seq<bytes>)
    requires MacsRequest(cmd)
    ensures var o := Fed(env, h, cmd, frames); o.Refuse? ==> !NoError(o.status)
    decreases |frames|
  {
    hide W.Gathered;
    if frames != [] {
      FrameErrors(env, h, cmd, frames[0]);
      FedErrors(env, W.Gathered(env, h, cmd, frames[0]).0, cmd, frames[1..]);
    }
  }

  lemma FrameErrors(env: W.Env, h: W.Held, cmd: byte, frame: bytes)
    requires MacsRequest(cmd)
    ensures var o := W.Gathered(env, h, cmd, frame).1; o.Refuse? ==> !NoError(o.status)
  {
    hide W.SizeOf;
    SizeErrors(env, cmd, (if h.Idle? then [] else h.got) + frame);
  }

  lemma SizeErrors(env: W.Env, cmd: byte, buf: bytes)
    requires MacsRequest(cmd)
    ensures W.SizeOf(env, cmd, buf).Refusal? ==> !NoError(W.SizeOf(env, cmd, buf).status)
  {
    hide PaddedDataLength;
  }

  method ServeWrite(s: Session, g: W.Gather, w: World, store: T.Store, x: Exchange, wire: bytes)
    returns (status: byte, payload: bytes, store': T.Store)
    requires Holds(s, w, store) && Gathers(x) && Honest(w, x) && g.Valid() && g.wcmd == 0
    requires {s, s.pend} !! {g, g.wbuf}
    modifies g, g.wbuf, s`iv, s`pendlen, s`authenticated, s.pend
    ensures g.Valid()
    ensures var a := WriteActs(w, Card(old(s.iv), true, store), x, wire);
      Left(s, a.card) && status == a.status && payload == a.payload && store' == a.card.store
  {
    hide Mac, Send, Fed, UnwrapOf, Applies, Unwraps, Cut, Orderly, Sized;
    store' := store;
    var o := Feed(g, w.env, x.cmd, Cut(wire, x.sizes));
    FedErrors(w.env, W.Idle, x.cmd, Cut(wire, x.sizes));
    match o {
      case More =>
        return ADDITIONAL_FRAME, [], store;
      case Refuse(refusal) =>
        Dispatched(s, refusal);
        return refusal, [], store;
      case Complete(cmd, comm, message) =>
        var u := Unwrap(s, cmd, comm, message);
        UnwrapComputes(w.c, old(s.iv), s.iv, cmd, comm, message, u);
        if u.Refused? {
          Dispatched(s, E_INTEGRITY);
          return E_INTEGRITY, [], store;
        }
        status, payload, store' := Apply(s, w, store, x, old(s.iv), u.plain);
    }
  }

  lemma UnwrapComputes(c: BlockCipher, iv: bytes, iv': bytes, cmd: byte, comm: Comm, buf: bytes, u: Unwrapped)
    requires |iv| == c.kbs && Unwraps(c, true, false, iv, iv', cmd, comm, buf, u)
    ensures (u, iv') == UnwrapOf(c, iv, cmd, comm, buf)
  {
    hide Settled, Settles, Mac, Receive;
    var h := HdrLen(cmd);
    if comm.Full? && h < |buf| && Whole(c.kbs, |buf| - h) {
      SettlesOn(Crc32Over(cmd, buf[..h]), buf[..h], Receive(c, Decypher, iv, buf[h..]), 0, u);
    }
  }

  // desfire_sim_write_apply
  method Apply(s: Session, w: World, store: T.Store, x: Exchange, ghost iv0: bytes, p: bytes) returns (status: byte, payload: bytes, store': T.Store)
    requires Holds(s, w, store) && Gathers(x) && Honest(w, x)
    requires |iv0| == w.c.kbs
    modifies s`iv, s`pendlen, s`authenticated, s.pend
    ensures var a := Applies(w, Card(iv0, true, store), x, old(s.iv), p);
      Left(s, a.card) && status == a.status && payload == a.payload && store' == a.card.store
  {
    hide Mac, Effect, Verdict, Sized, Orderly;
    status := Verdict(w, x, store, p);
    VerdictIsError(w, x, store, p);
    if status != OPERATION_OK {
      Dispatched(s, status);
      return status, [], store;
    }
    store' := Effect(w, x, store, p);
    var out := s.MacedAnswer(OPERATION_OK, []);
    assert [] + [OPERATION_OK] == [OPERATION_OK];
    assert out[1..] == s.iv[..CMAC_LENGTH];
    payload := out[1..];
  }

  lemma VerdictIsError(w: World, x: Exchange, store: T.Store, p: bytes)
    requires Gathers(x) && Honest(w, x)
    ensures Verdict(w, x, store, p) == OPERATION_OK || !NoError(Verdict(w, x, store, p))
  {
    hide TC.WriteAnswer, Num, Off, Len;
  }
}
