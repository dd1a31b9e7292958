// Taking the reader's secure messaging off a gathered command
// (desfire_sim_unwrap), against the reader that put it on.
module Unwrapping {
  import opened Bytes
  import opened Cbc
  import opened BlockCode
  import opened Cmac
  import opened Crc
  import opened SecureSession

  const WRITE_MAX := 272

  const WRITE_DATA: byte := 0x3D
  const WRITE_DATA2: byte := 0x8D
  const WRITE_RECORD: byte := 0x3B
  const WRITE_RECORD2: byte := 0x8B
  const UPDATE_RECORD: byte := 0xDB
  const UPDATE_RECORD2: byte := 0xBA
  const CREDIT: byte := 0x0C
  const DEBIT: byte := 0xDC
  const LIMITED_CREDIT: byte := 0x1C

  // desfire_sim_hdrlen: the parameters an enciphered command leaves clear.
  function HdrLen(cmd: byte): nat {
    if cmd in {WRITE_DATA, WRITE_DATA2, WRITE_RECORD, WRITE_RECORD2} then 7
    else if cmd in {UPDATE_RECORD, UPDATE_RECORD2} then 10
    else if cmd in {CREDIT, DEBIT, LIMITED_CREDIT, 0x6C, 0x5F, 0xC4, 0x5C} then 1
    else 0
  }

  // desfire_sim_cmd_macs_request
  predicate MacsRequest(cmd: byte) {
    cmd in {WRITE_DATA, WRITE_DATA2, WRITE_RECORD, WRITE_RECORD2, UPDATE_RECORD, UPDATE_RECORD2, CREDIT, DEBIT, LIMITED_CREDIT}
  }

  datatype Unwrapped = Refused | Parameters(plain: bytes)

  // ---- the length search of an enciphered command

  // Which checksum sits behind the data: a CRC-32 over command, header and
  // data, or the legacy CRC over the data alone, with only zeros after it.
  datatype Check = Crc32Over(cmd: byte, hdr: bytes) | LegacyCrc

  predicate Fits(check: Check, x: bytes, d: nat) {
    match check
    case Crc32Over(cmd, hdr) => d + 4 <= |x| && Crc32([cmd] + hdr + x[..d]) == x[d..d + 4]
    case LegacyCrc => d + 2 <= |x| && Crc16A(x[..d]) == x[d..d + 2] && AllZero(x[d + 2..])
  }

  predicate AllZero(s: bytes) {
    forall i :: 0 <= i < |s| ==> s[i] == 0
  }

  // What the search settles on: the shortest length that fits, if any does.
  ghost predicate Settles(check: Check, hdr: bytes, x: bytes, u: Unwrapped) {
    match u
    case Refused => forall d: nat :: !Fits(check, x, d)
    case Parameters(plain) => exists d: nat :: Shortest(check, x, d) && plain == hdr + x[..d]
  }

  ghost predicate Shortest(check: Check, x: bytes, d: nat) {
    d <= |x| && Fits(check, x, d) && forall e: nat :: e < d ==> !Fits(check, x, e)
  }

  // The same as a function.
  function Settled(check: Check, hdr: bytes, x: bytes, d: nat): Unwrapped
    decreases |x| - d
  {
    if d >= |x| then Refused
    else if Fits(check, x, d) then Parameters(hdr + x[..d])
    else Settled(check, hdr, x, d + 1)
  }

  lemma {:induction false} SettlesOn(check: Check, hdr: bytes, x: bytes, d: nat, u: Unwrapped)
    requires Settles(check, hdr, x, u) && forall e: nat :: e < d ==> !Fits(check, x, e)
    ensures u == Settled(check, hdr, x, d)
    decreases |x| - d
  {
    hide Crc32, Crc16A;
    if d < |x| && !Fits(check, x, d) {
      SettlesOn(check, hdr, x, d + 1, u);
    }
  }

  lemma {:induction false} SettledSettles(check: Check, hdr: bytes, x: bytes, d: nat)
    requires forall e: nat :: e < d ==> !Fits(check, x, e)
    ensures Settles(check, hdr, x, Settled(check, hdr, x, d))
    decreases |x| - d
  {
    hide Crc32, Crc16A;
    if d < |x| && !Fits(check, x, d) {
      SettledSettles(check, hdr, x, d + 1);
    } else if d < |x| {
      assert Shortest(check, x, d);
    }
  }

  method SearchLength(check: Check, hdr: bytes, x: bytes) returns (u: Unwrapped)
    ensures Settles(check, hdr, x, u)
  {
    var crclen := if check.LegacyCrc? then 2 else 4;
    var d: nat := 0;
    while d + crclen <= |x|
      invariant forall e: nat :: e < d ==> !Fits(check, x, e)
    {
      var fits := CheckAt(check, x, d);
      if fits {
        assert Shortest(check, x, d);
        return Parameters(hdr + x[..d]);
      }
      d := d + 1;
    }
    u := Refused;
  }

  method CheckAt(check: Check, x: bytes, d: nat) returns (fits: bool)
    requires d + (if check.LegacyCrc? then 2 else 4) <= |x|
    ensures fits == Fits(check, x, d)
  {
    match check
    case Crc32Over(cmd, hdr) =>
      fits := Crc32([cmd] + hdr + x[..d]) == x[d..d + 4];
    case LegacyCrc =>
      fits := Crc16A(x[..d]) == x[d..d + 2];
      var zeros := true;
      var i := d + 2;
      while fits && i < |x|
        invariant d + 2 <= i <= |x| && fits == (Crc16A(x[..d]) == x[d..d + 2])
        invariant zeros <==> forall k :: d + 2 <= k < i ==> x[k] == 0
        invariant !fits ==> i == d + 2
      {
        zeros := zeros && x[i] == 0;
        i := i + 1;
      }
      TailZero(x, d + 2);
      fits := fits && zeros;
  }

  lemma TailZero(x: bytes, at: nat)
    requires at <= |x|
    ensures AllZero(x[at..]) <==> forall k :: at <= k < |x| ==> x[k] == 0
  {
    if AllZero(x[at..]) {
      forall k | at <= k < |x| ensures x[k] == 0 {
        assert x[k] == x[at..][k - at];
      }
    }
  }

  // ---- desfire_sim_unwrap, one method a mode; h is the header length

  ghost predicate UnwrapsFull(c: BlockCipher, iv: bytes, iv': bytes, cmd: byte, h: nat, buf: bytes, u: Unwrapped)
    requires |iv| == c.kbs
  {
    if |buf| <= h || !Whole(c.kbs, |buf| - h) then u == Refused && iv' == iv
    else
      && Settles(Crc32Over(cmd, buf[..h]), buf[..h], Receive(c, Decypher, iv, buf[h..]), u)
      && iv' == Carry(c.kbs, iv, buf[h..])
  }

  method UnwrapFull(s: Session, cmd: byte, h: nat, buf: bytes) returns (u: Unwrapped)
    requires s.Valid() && s.authenticated && !s.legacy
    modifies s`iv
    ensures s.Valid() && UnwrapsFull(s.c, old(s.iv), s.iv, cmd, h, buf, u)
  {
    if h <= |buf| {
      WholeIsMultiple(s.c.kbs, |buf| - h);
    }
    if |buf| < h || |buf| - h == 0 || (|buf| - h) % s.c.kbs != 0 {
      return Refused;
    }
    var x := s.CryptOn(buf[h..], false);
    u := SearchLength(Crc32Over(cmd, buf[..h]), buf[..h], x);
  }

  ghost predicate UnwrapsMaced(c: BlockCipher, iv: bytes, iv': bytes, cmd: byte, buf: bytes, u: Unwrapped)
    requires |iv| == c.kbs
  {
    if |buf| < CMAC_LENGTH then u == Refused && iv' == iv
    else
      var plain, mac := buf[..|buf| - CMAC_LENGTH], buf[|buf| - CMAC_LENGTH..];
      && iv' == Mac(c, iv, [cmd] + plain)
      && u == if iv'[..CMAC_LENGTH] == mac then Parameters(plain) else Refused
  }

  method UnwrapMaced(s: Session, cmd: byte, buf: bytes) returns (u: Unwrapped)
    requires s.Valid() && s.authenticated && !s.legacy
    modifies s`iv, s`pendlen, s.pend
    ensures s.Valid() && UnwrapsMaced(s.c, old(s.iv), s.iv, cmd, buf, u)
  {
    if |buf| < CMAC_LENGTH {
      return Refused;
    }
    var plain, sent := buf[..|buf| - CMAC_LENGTH], buf[|buf| - CMAC_LENGTH..];
    var mac := s.MacOf([cmd], plain);
    u := if mac[..CMAC_LENGTH] == sent then Parameters(plain) else Refused;
  }

  ghost predicate UnwrapsLegacyFull(c: BlockCipher, h: nat, buf: bytes, u: Unwrapped)
    requires c.kbs == 8
  {
    if |buf| <= h || !Whole(8, |buf| - h) || WRITE_MAX < |buf| - h then u == Refused
    else Settles(LegacyCrc, buf[..h], Receive(c, Encypher, Zeros(8), buf[h..]), u)
  }

  method UnwrapLegacyFull(s: Session, h: nat, buf: bytes) returns (u: Unwrapped)
    requires s.Valid() && s.legacy
    ensures UnwrapsLegacyFull(s.c, h, buf, u)
  {
    if h <= |buf| {
      WholeIsMultiple(8, |buf| - h);
    }
    if |buf| < h || |buf| - h == 0 || (|buf| - h) % 8 != 0 || WRITE_MAX < |buf| - h {
      return Refused;
    }
    var x := Reencipher(s.c, buf[h..]);
    u := SearchLength(LegacyCrc, buf[..h], x);
  }

  // The reader deciphered it, so the card enciphers it back.
  method Reencipher(c: BlockCipher, enc: bytes) returns (x: bytes)
    requires c.kbs == 8 && Whole(8, |enc|) && |enc| <= WRITE_MAX
    ensures x == Receive(c, Encypher, Zeros(8), enc)
  {
    var plain := new byte[WRITE_MAX](_ => 0);
    WholeIsMultiple(8, |enc|);
    D40Receive(c, enc, plain);
    assert enc[..|enc|] == enc;
    x := plain[..|enc|];
  }

  ghost predicate UnwrapsLegacyMaced(c: BlockCipher, h: nat, buf: bytes, u: Unwrapped)
    requires c.kbs == 8
  {
    if |buf| < h + MAC_LENGTH then u == Refused
    else
      var plain, mac := buf[..|buf| - MAC_LENGTH], buf[|buf| - MAC_LENGTH..];
      u == if LegacyMac(c, plain[h..]) == mac then Parameters(plain) else Refused
  }

  method UnwrapLegacyMaced(s: Session, h: nat, buf: bytes) returns (u: Unwrapped)
    requires s.Valid() && s.legacy
    modifies s`iv, s`pendlen, s.pend
    ensures s.Valid() && UnwrapsLegacyMaced(s.c, h, buf, u)
  {
    if |buf| < h + MAC_LENGTH {
      return Refused;
    }
    var plain := buf[..|buf| - MAC_LENGTH];
    var covered := plain[h..];
    var mac := s.LegacyMacOf(covered);
    u := if mac == buf[|plain|..] then Parameters(plain) else Refused;
  }

  // The whole of it: which treatment a command gets, and where it leaves the
  // IV.  A legacy session keeps no IV between commands.
  ghost predicate Unwraps(c: BlockCipher, authenticated: bool, legacy: bool, iv: bytes, iv': bytes, cmd: byte, comm: Comm, buf: bytes, u: Unwrapped)
    requires |iv| == c.kbs && (legacy ==> c.kbs == 8)
  {
    if !authenticated then iv' == iv && u == if comm.Full? then Refused else Parameters(buf)
    else if legacy then
      if comm.Full? then UnwrapsLegacyFull(c, HdrLen(cmd), buf, u)
      else if comm.Maced? && MacsRequest(cmd) then UnwrapsLegacyMaced(c, HdrLen(cmd), buf, u)
      else u == Parameters(buf)
    else if comm.Full? then UnwrapsFull(c, iv, iv', cmd, HdrLen(cmd), buf, u)
    else if comm.Maced? && MacsRequest(cmd) then UnwrapsMaced(c, iv, iv', cmd, buf, u)
    else iv' == Mac(c, iv, [cmd] + buf) && u == Parameters(buf)
  }

  method Unwrap(s: Session, cmd: byte, comm: Comm, buf: bytes) returns (u: Unwrapped)
    requires s.Valid()
    modifies s`iv, s`pendlen, s.pend
    ensures s.Valid()
    ensures Unwraps(s.c, s.authenticated, s.legacy, old(s.iv), s.iv, cmd, comm, buf, u)
  {
    if !s.authenticated {
      return if comm.Full? then Refused else Parameters(buf);
    }
    if s.legacy {
      if comm.Full? {
        u := UnwrapLegacyFull(s, HdrLen(cmd), buf);
      } else if comm.Maced? && MacsRequest(cmd) {
        u := UnwrapLegacyMaced(s, HdrLen(cmd), buf);
      } else {
        u := Parameters(buf);
      }
    } else if comm.Full? {
      u := UnwrapFull(s, cmd, HdrLen(cmd), buf);
    } else if comm.Maced? && MacsRequest(cmd) {
      u := UnwrapMaced(s, cmd, buf);
    } else {
      var mac := s.MacOf([cmd], buf);
      u := Parameters(buf);
    }
  }

  // ---- the reader

  // An enciphered command before the cipher.
  function SealedCommand(n: nat, cmd: byte, hdr: bytes, data: bytes): (r: bytes)
    requires 0 < n
    ensures Whole(n, |r|) && 0 < |r|
  {
    data + Crc32([cmd] + hdr + data) + Zeros(PaddedDataLength(|data| + 4, n) - |data| - 4)
  }

  // What the reader transmits for a command it secures in `comm`.
  function ReaderWire(c: BlockCipher, iv: bytes, cmd: byte, comm: Comm, hdr: bytes, data: bytes): bytes
    requires |iv| == c.kbs
  {
    match comm
    case Full => hdr + Send(c, Encypher, iv, SealedCommand(c.kbs, cmd, hdr, data))
    case Maced => hdr + data + Mac(c, iv, [cmd] + (hdr + data))[..CMAC_LENGTH]
    case Plain => hdr + data
  }

  // and where that leaves its IV.
  function ReaderIv(c: BlockCipher, iv: bytes, cmd: byte, comm: Comm, hdr: bytes, data: bytes): (r: bytes)
    requires |iv| == c.kbs
    ensures |r| == c.kbs
  {
    if comm.Full? then Carry(c.kbs, iv, Send(c, Encypher, iv, SealedCommand(c.kbs, cmd, hdr, data)))
    else Mac(c, iv, [cmd] + (hdr + data))
  }

  // What the reader sealed fits, at its own length.
  lemma SealedFits(n: nat, cmd: byte, hdr: bytes, data: bytes)
    requires 0 < n
    ensures Fits(Crc32Over(cmd, hdr), SealedCommand(n, cmd, hdr, data), |data|)
  {
    var x := SealedCommand(n, cmd, hdr, data);
    assert x[..|data|] == data;
    assert x[|data|..|data| + 4] == Crc32([cmd] + hdr + data);
  }

  // No front of the sealed data shorter than the whole passes for it.
  ghost predicate NoShorterFit(n: nat, cmd: byte, hdr: bytes, data: bytes)
    requires 0 < n
  {
    forall e: nat :: e < |data| ==> !Fits(Crc32Over(cmd, hdr), SealedCommand(n, cmd, hdr, data), e)
  }

  // The card never refuses an honest enciphered command.  It recovers exactly
  // what the reader sent if and only if no shorter front of the deciphered
  // stream happens to carry its own CRC.
  lemma ShortestFit(n: nat, cmd: byte, hdr: bytes, data: bytes, u: Unwrapped)
    requires 0 < n && Settles(Crc32Over(cmd, hdr), hdr, SealedCommand(n, cmd, hdr, data), u)
    ensures u.Parameters? && hdr <= u.plain && |u.plain| <= |hdr + data|
    ensures u.plain == hdr + data <==> NoShorterFit(n, cmd, hdr, data)
    ensures u.plain != hdr + data ==> |u.plain| < |hdr + data|
  {
    var check, x := Crc32Over(cmd, hdr), SealedCommand(n, cmd, hdr, data);
    SealedFits(n, cmd, hdr, data);
    assert u.Parameters?;
    var d: nat :| Shortest(check, x, d) && u.plain == hdr + x[..d];
    assert Fits(check, x, |data|);
    assert x[..|data|] == data;
    if d < |data| {
      assert Fits(check, x, d);
      assert |u.plain| < |hdr + data|;
    }
  }

  // Data that begins with the checksum of nothing: whatever the header, the
  // card takes the front of no octets for the whole.
  lemma EmptyFrontFits(n: nat, cmd: byte, hdr: bytes, rest: bytes)
    requires 0 < n
    ensures !NoShorterFit(n, cmd, hdr, Crc32([cmd] + hdr) + rest)
  {
    hide Crc32;
    var data := Crc32([cmd] + hdr) + rest;
    var x := SealedCommand(n, cmd, hdr, data);
    assert [cmd] + hdr + x[..0] == [cmd] + hdr;
    assert x[0..4] == data[..4] == Crc32([cmd] + hdr);
    assert Fits(Crc32Over(cmd, hdr), x, 0);
  }

  // An honest command comes off in step: the card's IV ends where the
  // reader's does, and the parameters are the reader's.
  lemma HonestUnwraps(c: BlockCipher, iv: bytes, iv': bytes, cmd: byte, comm: Comm, hdr: bytes, data: bytes, u: Unwrapped)
    requires |iv| == c.kbs && |hdr| == HdrLen(cmd) && MacsRequest(cmd)
    requires Unwraps(c, true, false, iv, iv', cmd, comm, ReaderWire(c, iv, cmd, comm, hdr, data), u)
    ensures iv' == ReaderIv(c, iv, cmd, comm, hdr, data)
    ensures u.Parameters? && hdr <= u.plain
    ensures u.plain == hdr + data <==> (comm.Full? ==> NoShorterFit(c.kbs, cmd, hdr, data))
    ensures u.plain != hdr + data ==> |u.plain| < |hdr + data|
  {
    match comm
    case Full => HonestFull(c, iv, iv', cmd, hdr, data, Send(c, Encypher, iv, SealedCommand(c.kbs, cmd, hdr, data)), u);
    case Maced => HonestMaced(c, iv, iv', cmd, hdr, data, u);
    case Plain =>
  }

  lemma HonestFull(c: BlockCipher, iv: bytes, iv': bytes, cmd: byte, hdr: bytes, data: bytes, y: bytes, u: Unwrapped)
    requires |iv| == c.kbs && y == Send(c, Encypher, iv, SealedCommand(c.kbs, cmd, hdr, data))
    requires UnwrapsFull(c, iv, iv', cmd, |hdr|, hdr + y, u)
    ensures iv' == Carry(c.kbs, iv, y) && u.Parameters? && hdr <= u.plain
    ensures u.plain == hdr + data <==> NoShorterFit(c.kbs, cmd, hdr, data)
    ensures u.plain != hdr + data ==> |u.plain| < |hdr + data|
  {
    HeaderSplits(hdr, y);
    ReceiveInvertsSend(c, Encypher, iv, SealedCommand(c.kbs, cmd, hdr, data));
    ShortestFit(c.kbs, cmd, hdr, data, u);
  }

  lemma HeaderSplits(hdr: bytes, y: bytes)
    ensures (hdr + y)[..|hdr|] == hdr && (hdr + y)[|hdr|..] == y
  {
  }

  lemma HonestMaced(c: BlockCipher, iv: bytes, iv': bytes, cmd: byte, hdr: bytes, data: bytes, u: Unwrapped)
    requires |iv| == c.kbs && UnwrapsMaced(c, iv, iv', cmd, ReaderWire(c, iv, cmd, Maced, hdr, data), u)
    ensures iv' == ReaderIv(c, iv, cmd, Maced, hdr, data) && u == Parameters(hdr + data)
  {
    var wire := ReaderWire(c, iv, cmd, Maced, hdr, data);
    var m := Mac(c, iv, [cmd] + (hdr + data))[..CMAC_LENGTH];
    assert wire[..|wire| - CMAC_LENGTH] == hdr + data && wire[|wire| - CMAC_LENGTH..] == m;
  }
}
