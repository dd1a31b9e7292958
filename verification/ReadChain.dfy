// A data or record read handed out over several frames
// (desfire_sim_set_fsd, desfire_sim_read_start, desfire_sim_read_chunk),
// and the reader that asks until the last frame and joins them.
module ReadChain {
  import opened Bytes
  import opened Cbc
  import opened BlockCode
  import opened Cmac
  import opened Crc
  import opened SecureSession

  const READ_CHUNK := 96
  const E_FILE_NOT_FOUND: byte := 0xF0
  const E_BOUNDARY: byte := 0xBE

  // desfire_sim_set_fsd: file octets one frame may carry, from the FSDI of RATS.
  function FrameSize(fsdi: nat): nat {
    var table := [16, 24, 32, 40, 48, 64, 96, 128, 256];
    if fsdi < |table| then table[fsdi] else 256
  }

  // The chunk is whole cipher blocks of either size, and the frame around it
  // fits the reader wherever the reader takes 32 octets or more.
  function ChunkFor(fsdi: nat): (chunk: nat)
    ensures 16 <= chunk <= READ_CHUNK && chunk % 16 == 0 && chunk % 8 == 0
    ensures 32 <= FrameSize(fsdi) ==> chunk + 16 <= FrameSize(fsdi)
  {
    var fsd := FrameSize(fsdi);
    var room := if fsd > 16 then fsd - 16 else 0;
    var whole := room - room % 16;
    var capped := if whole > READ_CHUNK then READ_CHUNK else whole;
    if capped < 16 then 16 else capped
  }

  // The committed region of a file, and whether its contents were ever read.
  datatype File = File(dataoff: nat, datalen: nat, unknown: bool)

  // What a read of `len` units from `off` delivers: clipped to the region.
  function Requested(image: bytes, f: File, base: nat, want: nat): (r: bytes)
    requires f.dataoff + f.datalen <= |image|
  {
    if base + want <= f.datalen then image[f.dataoff + base..f.dataoff + base + want]
    else if base < f.datalen then image[f.dataoff + base..f.dataoff + f.datalen]
    else []
  }

  // The stream the frames are cut from.
  function StreamOf(n: nat, legacy: bool, comm: Comm, data: bytes): bytes
    requires 0 < n
  {
    if !comm.Full? then data else if legacy then LegacySealed(data) else Sealed(n, data, OPERATION_OK)
  }

  // What desfire_sim_read_start settles for the whole transfer: the octets
  // asked for (chain_base, chain_datalen), the checksum computed up front
  // (chain_crc, chain_crclen), the length of the stream (chain_end), the mode.
  datatype Job = Job(data: bytes, crc: bytes, end: nat, comm: Comm)

  // The stream the frames are cut from.
  ghost predicate CutFrom(job: Job, stream: bytes) {
    && |stream| == job.end
    && if job.comm.Full?
       then |job.data + job.crc| <= job.end && stream == job.data + job.crc + Zeros(job.end - |job.data + job.crc|)
       else stream == job.data
  }

  method Clip(image: bytes, f: File, base: nat, want: nat) returns (data: bytes)
    requires f.dataoff + f.datalen <= |image|
    ensures data == Requested(image, f, base, want)
  {
    var datalen := want;
    if base + datalen > f.datalen {
      datalen := if f.datalen > base then f.datalen - base else 0;
    }
    data := if datalen == 0 then [] else image[f.dataoff + base..f.dataoff + base + datalen];
  }

  method Settle(n: nat, legacy: bool, mode: Comm, data: bytes) returns (job: Job)
    requires 0 < n
    ensures job.comm == mode && CutFrom(job, StreamOf(n, legacy, mode, data))
  {
    if !mode.Full? {
      job := Job(data, [], |data|, mode);
    } else if legacy {
      job := Job(data, Crc16A(data), PaddedDataLength(|data| + 2, 8), mode);
    } else {
      job := Job(data, Crc32(data + [OPERATION_OK]), PaddedDataLength(|data| + 4, n), mode);
    }
  }

  class Transfer {
    const s: Session
    const chunk: nat                 // s_sim_readchunk
    var active: bool                 // chain_cmd names this read
    var job: Job
    var off: nat                     // chain_off
    ghost var gone: bytes            // the part of the stream that has gone out,
    ghost var left: bytes            // and what is left of it
    ghost var start: bytes           // the session IV when the answer began

    constructor (s: Session, chunk: nat)
      ensures this.s == s && this.chunk == chunk && !active
    {
      this.s, this.chunk := s, chunk;
      active, job, off := false, Job([], [], 0, Plain), 0;
      gone, left, start := [], [], [];
    }

    // Between two frames of the read.  The session's MAC has taken in what has
    // gone out of a plain or MACed one, its cipher chain what has gone out of
    // an enciphered one.
    ghost predicate Going()
      reads `job, `off, `gone, `left, `start, s, s.pend
    {
      && s.Valid() && 0 < chunk && Whole(s.c.kbs, chunk)
      && CutFrom(job, gone + left) && off == |gone| && |start| == s.c.kbs
      && if job.comm.Full? then s.authenticated && Whole(s.c.kbs, |left|) && Whole(s.c.kbs, |gone|) && s.iv == After(s.c, Encypher, start, gone)
         else s.Running(job.comm, start, gone)
    }

    // What the next n octets of the stream look like in a frame, the last if
    // nothing is left behind them, and where that leaves the session.
    ghost predicate FrameOf(piece: bytes, iv: bytes, out: bytes)
      reads `job, `gone, `left, `start, s
    {
      && |iv| == |start| == s.c.kbs && (s.legacy ==> s.c.kbs == 8)
      && var status := if left == [] then OPERATION_OK else ADDITIONAL_FRAME;
      if job.comm.Full? then Whole(s.c.kbs, |piece|) && out == [status] + Send(s.c, Encypher, iv, piece)
      else if left != [] then out == [status] + piece
      else out == [status] + piece + s.Trailer(job.comm, start, gone) && s.Closed(start, gone)
    }

    // A read of `want` octets from `base` on begins: the stream is settled and
    // the running MAC starts over.  A legacy session also starts from zeros.
    method Begin(image: bytes, f: File, base: nat, want: nat, mode: Comm)
      requires s.Valid() && 0 < chunk && Whole(s.c.kbs, chunk)
      requires f.dataoff + f.datalen <= |image| && (mode.Full? ==> s.authenticated)
      modifies this, s`iv, s`pendlen, s.pend
      ensures Going() && active && job.comm == mode && gone == []
      ensures left == StreamOf(s.c.kbs, s.legacy, mode, Requested(image, f, base, want))
      ensures start == s.iv == if s.authenticated && s.legacy then Zeros(8) else old(s.iv)
    {
      hide Whole, StreamOf, Requested;
      Restart(mode);
      var data := Clip(image, f, base, want);
      job := Settle(s.c.kbs, s.legacy, mode, data);
      active, off := true, 0;
      gone, left, start := [], StreamOf(s.c.kbs, s.legacy, mode, data), s.iv;
      NothingInFront(left);
      NoneIsWhole(s.c.kbs);
      StreamIsWhole(s.c.kbs, s.legacy, mode, data);
    }

    // The running MAC has taken in nothing.
    method Restart(mode: Comm)
      requires s.Valid()
      modifies s`iv, s`pendlen, s.pend
      ensures s.Valid() && s.Running(mode, s.iv, [])
      ensures s.iv == if s.authenticated && s.legacy then Zeros(8) else old(s.iv)
    {
      if s.authenticated && s.legacy {
        s.LmacReset();
      } else {
        s.CmacReset();
      }
    }

    // desfire_sim_read_chunk
    method ReadChunk() returns (out: bytes, ghost piece: bytes)
      requires Going()
      modifies `off, `active, `gone, `left, s`iv, s`pendlen, s.pend
      ensures old(left) == piece + left && gone == old(gone) + piece
      ensures |piece| == if |old(left)| < chunk then |old(left)| else chunk
      ensures s.Valid() && FrameOf(piece, old(s.iv), out)
      ensures left != [] ==> Going() && active == old(active)
      ensures left == [] ==> !active
      ensures job.comm.Full? ==> s.iv == After(s.c, Encypher, old(s.iv), piece)
    {
      var n := if job.end - off > chunk then chunk else job.end - off;
      if off + n == job.end {
        active := false;
      }
      assert |gone + left| == job.end;
      if job.comm.Full? {
        EnoughLeft(s.c.kbs, |left|, chunk);
        out, piece := EncipheredChunk(n);
      } else {
        out, piece := PlainChunk(n);
      }
    }

    method PlainChunk(n: nat) returns (out: bytes, ghost piece: bytes)
      requires Going() && !job.comm.Full? && n <= |left|
      modifies `off, `gone, `left, s`iv, s`pendlen, s.pend
      ensures |piece| == n && old(left) == piece + left && gone == old(gone) + piece
      ensures s.Valid() && FrameOf(piece, old(s.iv), out)
      ensures left != [] ==> Going()
    {
      hide Whole, Times;
      var at := off;
      off := off + n;
      var octets := job.data[at..off];
      piece := left[..n];
      Here(gone, left, n);
      assert octets == piece;
      out := s.ChainedAnswer(off < job.end, job.comm, octets, start, gone);
      Regroup(gone, left, n);
      gone, left := gone + piece, left[n..];
    }

    method EncipheredChunk(n: nat) returns (out: bytes, ghost piece: bytes)
      requires Going() && job.comm.Full? && n <= |left| && Whole(s.c.kbs, n)
      modifies `off, `gone, `left, s`iv
      ensures |piece| == n && old(left) == piece + left && gone == old(gone) + piece
      ensures FrameOf(piece, old(s.iv), out) && Going()
      ensures s.iv == After(s.c, Encypher, old(s.iv), piece)
    {
      hide Send, After, Times, Carry;
      var plain := Slice(job, off, n, gone, left);
      piece := plain;
      SendJoins(s.c, Encypher, start, gone, plain);
      Regroup(gone, left, n);
      WholeSubtract(s.c.kbs, |left|, n);
      var y := s.CryptOn(plain, true);
      off := off + n;
      out := [if off < job.end then ADDITIONAL_FRAME else OPERATION_OK] + y;
      gone, left := gone + piece, left[n..];
    }
  }

  lemma StreamIsWhole(n: nat, legacy: bool, comm: Comm, data: bytes)
    requires 0 < n && (legacy ==> n == 8)
    ensures comm.Full? ==> Whole(n, |StreamOf(n, legacy, comm, data)|)
  {
    hide Whole, PaddedDataLength;
  }

  lemma Here(gone: bytes, left: bytes, n: nat)
    requires n <= |left|
    ensures (gone + left)[|gone|..|gone| + n] == left[..n]
  {
  }

  lemma EnoughLeft(n: nat, left: nat, chunk: nat)
    requires Whole(n, left) && Whole(n, chunk)
    ensures Whole(n, if left > chunk then chunk else left)
  {
  }

  // The frame's stretch of data, CRC and zero padding, octet by octet.
  method Slice(job: Job, at: nat, n: nat, ghost gone: bytes, ghost left: bytes) returns (plain: bytes)
    requires CutFrom(job, gone + left) && job.comm.Full? && at == |gone| && n <= |left|
    ensures plain == left[..n] && |plain| == n
  {
    plain := [];
    for i := 0 to n
      invariant plain == left[..i]
    {
      var p := at + i;
      var octet: byte := 0;
      if p < |job.data| {
        octet := job.data[p];
      } else if p < |job.data| + |job.crc| {
        octet := job.crc[p - |job.data|];
      }
      assert octet == (gone + left)[p];
      plain := plain + [octet];
    }
  }

  // Which reads desfire_sim_read_start turns away before anything is set up.
  function Refusal(f: File, off: nat, len: nat, avail: nat): (r: bytes) {
    if f.unknown then [E_FILE_NOT_FOUND]
    else if off > avail || off + len > avail then [E_BOUNDARY]
    else []
  }

  // Zero length means to the end.
  function Length(off: nat, len: nat, avail: nat): nat
    requires off <= avail
  {
    if len == 0 then avail - off else len
  }

  // desfire_sim_read_start, up to the first frame.  Offset and length count in
  // `unit` octets; the products stay within 32 bits.
  method ReadStart(t: Transfer, image: bytes, f: File, off: nat, len: nat, unit: nat, avail: nat, mode: Comm) returns (refusal: bytes)
    requires t.s.Valid() && 0 < t.chunk && Whole(t.s.c.kbs, t.chunk)
    requires f.dataoff + f.datalen <= |image| && (mode.Full? ==> t.s.authenticated)
    requires avail * unit < 0x1_0000_0000
    modifies t, t.s`iv, t.s`pendlen, t.s.pend
    ensures refusal == Refusal(f, off, len, avail)
    ensures refusal != [] ==> t.s.iv == old(t.s.iv) && t.s.Valid() && t.active == old(t.active)
    ensures refusal == [] ==>
      && t.Going() && t.active && t.job.comm == mode && t.gone == []
      && t.left == StreamOf(t.s.c.kbs, t.s.legacy, mode, Requested(image, f, off * unit, Length(off, len, avail) * unit))
      && t.start == t.s.iv == if t.s.authenticated && t.s.legacy then Zeros(8) else old(t.s.iv)
  {
    if f.unknown {
      return [E_FILE_NOT_FOUND];
    }
    if off > avail {
      return [E_BOUNDARY];
    }
    var n := if len == 0 then avail - off else len;
    if off + n > avail {
      return [E_BOUNDARY];
    }
    t.Begin(image, f, off * unit, n * unit, mode);
    refusal := [];
  }

  // What the reader has joined of the frames so far, status octets dropped:
  // the data, with the trailer of the last frame behind it, or one CBC run
  // however it was cut.
  ghost predicate Joined(t: Transfer, joined: bytes)
    reads t`job, t`gone, t`left, t`start, t.s
  {
    && |t.start| == t.s.c.kbs && (t.s.legacy ==> t.s.c.kbs == 8)
    && if t.job.comm.Full? then
         && Whole(t.s.c.kbs, |t.gone|)
         && joined == Send(t.s.c, Encypher, t.start, t.gone) && t.s.iv == After(t.s.c, Encypher, t.start, t.gone)
       else if t.left != [] then joined == t.gone
       else joined == t.gone + t.s.Trailer(t.job.comm, t.start, t.gone) && t.s.Closed(t.start, t.gone)
  }

  // One request for a frame.
  method Ask(t: Transfer, joined: bytes) returns (more: bool, joined': bytes)
    requires t.Going() && joined == if t.job.comm.Full? then Send(t.s.c, Encypher, t.start, t.gone) else t.gone
    modifies t`off, t`active, t`gone, t`left, t.s`iv, t.s`pendlen, t.s.pend
    ensures t.s.Valid() && Joined(t, joined') && t.gone + t.left == old(t.gone + t.left)
    ensures more <==> t.left != []
    ensures more ==> t.Going() && |t.left| < old(|t.left|)
    ensures !more ==> !t.active
  {
    ghost var gone, iv := t.gone, t.s.iv;
    var out, piece := t.ReadChunk();
    Regroups(gone, piece, t.left);
    ghost var status := if t.left == [] then OPERATION_OK else ADDITIONAL_FRAME;
    if t.job.comm.Full? {
      SendJoins(t.s.c, Encypher, t.start, gone, piece);
      WholeAdd(t.s.c.kbs, |gone|, |piece|);
      Payload(out, status, Send(t.s.c, Encypher, iv, piece), []);
    } else if t.left != [] {
      Payload(out, status, piece, []);
    } else {
      Payload(out, status, piece, t.s.Trailer(t.job.comm, t.start, t.gone));
      Regroups(gone, piece, t.s.Trailer(t.job.comm, t.start, t.gone));
    }
    more := out[0] == ADDITIONAL_FRAME;
    joined' := joined + out[1..];
  }

  lemma Payload(out: bytes, status: byte, x: bytes, y: bytes)
    requires out == [status] + x + y
    ensures out != [] && out[0] == status && out[1..] == x + y
    ensures y == [] ==> out[1..] == x
  {
  }

  lemma Regroups(a: bytes, b: bytes, c: bytes)
    ensures (a + b) + c == a + (b + c)
  {
  }

  // The reader asks until a frame says there is no more.
  method ReadOn(t: Transfer) returns (joined: bytes)
    requires t.Going() && t.gone == []
    modifies t`off, t`active, t`gone, t`left, t.s`iv, t.s`pendlen, t.s.pend
    ensures t.s.Valid() && !t.active && Joined(t, joined) && t.gone == old(t.left) && t.left == []
  {
    ghost var stream := t.left;
    NothingInFront(stream);
    var more;
    more, joined := Ask(t, []);
    while more
      invariant t.s.Valid() && Joined(t, joined) && t.gone + t.left == stream
      invariant more <==> t.left != []
      invariant more ==> t.Going()
      invariant !more ==> !t.active
      decreases |t.left|
    {
      more, joined := Ask(t, joined);
    }
    NothingBehind(t.gone);
  }
}
