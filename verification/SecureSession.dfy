// The secure messaging half of the card state in armsrc/desfiresim.c: one
// session key, the block its chain runs through, and the session MAC taken a
// piece at a time.
module SecureSession {
  import opened Bytes
  import opened Cbc
  import opened BlockCode
  import opened Cmac
  import opened Crc

  const CMAC_LENGTH := 8
  const MAC_LENGTH := 4
  const MAX_RESP := 128

  const OPERATION_OK: byte := 0x00
  const ADDITIONAL_FRAME: byte := 0xAF
  const E_LENGTH: byte := 0x7E

  // The communication mode of a transfer; both plain encodings act alike.
  datatype Comm = Plain | Maced | Full

  // What a running CMAC has taken in: all of m but its last 1 to kbs octets
  // has gone through the chain, and those are held back.
  ghost predicate Absorbed(c: BlockCipher, start: bytes, m: bytes, iv: bytes, held: bytes) {
    && Taken(c, start, m, iv, held)
    && (m != [] ==> held != [])
  }

  ghost predicate Taken(c: BlockCipher, start: bytes, m: bytes, iv: bytes, held: bytes) {
    && |start| == c.kbs && |held| <= c.kbs && |held| <= |m|
    && Whole(c.kbs, |m| - |held|)
    && held == m[|m| - |held|..]
    && iv == Chain(c, start, m[..|m| - |held|])
  }

  lemma FlushHeld(c: BlockCipher, start: bytes, m: bytes, iv: bytes, held: bytes)
    requires Taken(c, start, m, iv, held) && |held| == c.kbs
    ensures Taken(c, start, m, c.enc(Xor(held, iv)), [])
  {
    var h := |m| - c.kbs;
    assert m == m[..h] + held;
    ChainSnoc(c, start, m[..h], held);
    XorCommutes(held, iv);
    assert m[..|m|] == m;
  }

  lemma HoldMore(c: BlockCipher, start: bytes, m: bytes, iv: bytes, held: bytes, piece: bytes)
    requires Taken(c, start, m, iv, held) && |held| + |piece| <= c.kbs
    ensures Taken(c, start, m + piece, iv, held + piece)
  {
    var h := |m| - |held|;
    assert (m + piece)[..h] == m[..h];
    assert (m + piece)[h..] == held + piece;
  }

  lemma AbsorbedIsMac(c: BlockCipher, start: bytes, m: bytes, iv: bytes, held: bytes)
    requires Absorbed(c, start, m, iv, held)
    ensures Crypt(c, Encypher, Xor(iv, LastBlock(c, held))) == Mac(c, start, m)
  {
    HeldUnique(c.kbs, |m|, |m| - |held|);
  }

  class Session {
    const c: BlockCipher
    const legacy: bool
    const sk1: bytes
    const sk2: bytes
    var authenticated: bool
    var iv: bytes
    const pend: array<byte>
    var pendlen: nat

    ghost predicate Valid()
      reads this, pend
    {
      && sk1 == K1(c) && sk2 == K2(c) && |iv| == c.kbs
      && pendlen <= c.kbs <= pend.Length
      && (legacy ==> c.kbs == 8)
    }

    // A handshake has just succeeded.
    constructor (c: BlockCipher, legacy: bool)
      requires legacy ==> c.kbs == 8
      ensures Valid() && fresh(pend) && this.c == c && this.legacy == legacy
      ensures authenticated && iv == Zeros(c.kbs) && Fed(iv, [])
    {
      var k1, k2 := GenerateSubkeys(c);
      this.c, this.legacy := c, legacy;
      sk1, sk2 := k1[..], k2[..];
      authenticated := true;
      iv := Zeros(c.kbs);
      pend := new byte[c.kbs](_ => 0);
      pendlen := 0;
      new;
      NothingFed(c, iv);
    }

    // The session CMAC, started from `start`, has been given m.
    ghost predicate Fed(start: bytes, m: bytes)
      reads this, pend
    {
      pendlen <= pend.Length && Absorbed(c, start, m, iv, pend[..pendlen])
    }

    // desfire_sim_cmac_reset
    method CmacReset()
      requires Valid()
      modifies this`pendlen, pend
      ensures Valid() && Fed(iv, [])
    {
      pendlen := 0;
      forall i | 0 <= i < pend.Length {
        pend[i] := 0;
      }
      NothingFed(c, iv);
    }

    // desfire_sim_cmac_update
    method CmacUpdate(data: bytes, ghost start: bytes, ghost m: bytes)
      requires Valid() && Fed(start, m)
      modifies this`iv, this`pendlen, pend
      ensures Valid() && Fed(start, m + data)
    {
      var rest := data;
      ghost var seen := m;
      while rest != []
        invariant Valid() && Fed(start, seen) && seen + rest == m + data
        decreases |rest|
      {
        var n := TakeSome(rest, start, seen);
        Regroup(seen, rest, n);
        seen, rest := seen + rest[..n], rest[n..];
      }
      NothingBehind(seen);
      assert seen == m + data;
    }

    // One turn of that loop.
    method TakeSome(rest: bytes, ghost start: bytes, ghost m: bytes) returns (n: nat)
      requires Valid() && Fed(start, m) && rest != []
      modifies this`iv, this`pendlen, pend
      ensures Valid() && 0 < n <= |rest| && Fed(start, m + rest[..n])
    {
      if pendlen == c.kbs {
        Flush(start, m);
      }
      var room := c.kbs - pendlen;
      n := if |rest| < room then |rest| else room;
      Hold(rest[..n], start, m);
    }

    // A full block that is known not to be the last goes through the chain.
    method Flush(ghost start: bytes, ghost m: bytes)
      requires Valid() && Fed(start, m) && pendlen == c.kbs
      modifies this`iv, this`pendlen, pend
      ensures Valid() && pendlen == 0 && Taken(c, start, m, iv, [])
    {
      FlushHeld(c, start, m, iv, pend[..pendlen]);
      iv := c.enc(Xor(pend[..c.kbs], iv));
      Copy(pend, 0, iv);
      pendlen := 0;
    }

    method Hold(piece: bytes, ghost start: bytes, ghost m: bytes)
      requires Valid() && Taken(c, start, m, iv, pend[..pendlen]) && 0 < |piece| <= c.kbs - pendlen
      modifies this`pendlen, pend
      ensures Valid() && Fed(start, m + piece) && pendlen == old(pendlen) + |piece|
    {
      ghost var held := pend[..pendlen];
      HoldMore(c, start, m, iv, held, piece);
      Copy(pend, pendlen, piece);
      pendlen := pendlen + |piece|;
      assert pend[..pendlen] == held + piece;
    }

    // desfire_sim_cmac_final
    method CmacFinal(ghost start: bytes, ghost m: bytes) returns (mac: bytes)
      requires Valid() && Fed(start, m)
      modifies this`iv, this`pendlen, pend
      ensures Valid() && mac == iv == Mac(c, start, m) && Fed(iv, [])
    {
      ghost var held := pend[..pendlen];
      AbsorbedIsMac(c, start, m, iv, held);
      var last: bytes;
      if pendlen == c.kbs {
        last := Xor(pend[..c.kbs], sk1);
      } else {
        PadPending(held);
        last := Xor(pend[..c.kbs], sk2);
      }
      XorCommutes(last, iv);
      iv := c.enc(Xor(last, iv));
      mac := iv;
      CmacReset();
    }

    method PadPending(ghost held: bytes)
      requires Valid() && pendlen < c.kbs && held == pend[..pendlen]
      modifies this`pendlen, pend
      ensures Valid() && pend[..c.kbs] == Pad(c.kbs, held)
    {
      pend[pendlen] := 0x80;
      pendlen := pendlen + 1;
      while pendlen < c.kbs
        invariant |held| < pendlen <= c.kbs <= pend.Length
        invariant pend[..pendlen] == held + [0x80] + Zeros(pendlen - |held| - 1)
      {
        pend[pendlen] := 0x00;
        pendlen := pendlen + 1;
      }
    }

    // ---- the legacy MAC

    ghost predicate LegacyFed(m: bytes)
      reads this, pend
    {
      pendlen <= pend.Length && pendlen < 8 && c.kbs == 8 && Taken(c, Zeros(8), m, iv, pend[..pendlen])
    }

    // desfire_sim_lmac_reset
    method LmacReset()
      requires Valid() && legacy
      modifies this`iv, this`pendlen, pend
      ensures Valid() && iv == Zeros(8) && LegacyFed([])
    {
      CmacReset();
      iv := Zeros(8);
      NothingFed(c, iv);
    }

    // desfire_sim_lmac_update: unlike the CMAC, a full block goes at once.
    method LmacUpdate(data: bytes, ghost m: bytes)
      requires Valid() && legacy && LegacyFed(m)
      modifies this`iv, this`pendlen, pend
      ensures Valid() && LegacyFed(m + data)
    {
      var rest := data;
      ghost var seen := m;
      while rest != []
        invariant Valid() && LegacyFed(seen) && seen + rest == m + data
        decreases |rest|
      {
        var room := 8 - pendlen;
        var n := if |rest| < room then |rest| else room;
        Hold(rest[..n], Zeros(8), seen);
        if pendlen == 8 {
          Flush(Zeros(8), seen + rest[..n]);
          assert pend[..pendlen] == [];
        }
        Regroup(seen, rest, n);
        seen, rest := seen + rest[..n], rest[n..];
      }
      NothingBehind(seen);
      assert seen == m + data;
    }

    // desfire_sim_lmac_final
    method LmacFinal(ghost m: bytes) returns (mac: bytes)
      requires Valid() && legacy && LegacyFed(m)
      modifies this`iv, this`pendlen, pend
      ensures Valid() && mac == LegacyMac(c, m) && iv == Zeros(8) && LegacyFed([])
    {
      ZeroFill(c, m, iv, pend[..pendlen]);
      FillPending(m, ZeroPadded(m));
      WholeIsChain(c, Zeros(8), ZeroPadded(m), iv);
      mac := iv[..MAC_LENGTH];
      LmacReset();
    }

    // A reset, one update and the final, as every whole legacy message is MACed.
    method LegacyMacOf(data: bytes) returns (mac: bytes)
      requires Valid() && legacy
      modifies this`iv, this`pendlen, pend
      ensures Valid() && mac == LegacyMac(c, data) && iv == Zeros(8)
    {
      LmacReset();
      LmacUpdate(data, []);
      NothingInFront(data);
      mac := LmacFinal(data);
    }

    method FillPending(ghost m: bytes, ghost z: bytes)
      requires Valid() && legacy && LegacyFed(m)
      requires z == if pendlen == 0 then m else m + Zeros(8 - pendlen)
      modifies this`iv, this`pendlen, pend
      ensures Valid() && Taken(c, Zeros(8), z, iv, [])
    {
      if pendlen != 0 {
        Hold(Zeros(8 - pendlen), Zeros(8), m);
        Flush(Zeros(8), z);
      } else {
        assert pend[..pendlen] == [];
      }
    }

    // ---- commands and answers

    // The IV after the blanket MAC over a command.
    // desfire_sim_cmac_command
    method CmacCommand(cmd: byte, params: bytes)
      requires Valid()
      modifies this`iv, this`pendlen, pend
      ensures Valid()
      ensures iv == if authenticated && !legacy then Mac(c, old(iv), [cmd] + params) else old(iv)
    {
      if !authenticated || legacy {
        return;
      }
      var mac := MacOf([cmd], params);
    }

    // A reset, two updates and the final, as every whole message is MACed.
    method MacOf(first: bytes, second: bytes) returns (mac: bytes)
      requires Valid()
      modifies this`iv, this`pendlen, pend
      ensures Valid() && mac == iv == Mac(c, old(iv), first + second) && |mac| == c.kbs
    {
      CmacReset();
      ghost var start := iv;
      CmacUpdate(first, start, []);
      NothingInFront(first);
      CmacUpdate(second, start, first);
      mac := CmacFinal(start, first + second);
    }

    // desfire_sim_maced
    method MacedAnswer(status: byte, data: bytes) returns (out: bytes)
      requires Valid()
      modifies this`iv, this`pendlen, pend
      ensures Valid()
      ensures !authenticated || legacy ==> out == [status] + data && iv == old(iv)
      ensures authenticated && !legacy ==>
        out == [status] + data + iv[..CMAC_LENGTH] && iv == Mac(c, old(iv), data + [status])
    {
      if !authenticated || legacy {
        return [status] + data;
      }
      var mac := MacOf(data, [status]);
      out := [status] + data + mac[..CMAC_LENGTH];
    }

    // Part of an answer that is MACed as a whole has gone out: the running MAC
    // has taken in what it carried.
    ghost predicate Running(comm: Comm, start: bytes, sent: bytes)
      reads this, pend
    {
      && (authenticated && !legacy ==> Fed(start, sent))
      && (authenticated && legacy && comm.Maced? ==> LegacyFed(sent))
    }

    // The last frame of it has gone out.
    ghost predicate Closed(start: bytes, sent: bytes)
      reads this
    {
      authenticated && !legacy ==> |start| == c.kbs && iv == Mac(c, start, sent + [OPERATION_OK])
    }

    // What that frame carries behind the data.
    ghost function Trailer(comm: Comm, start: bytes, sent: bytes): bytes
      requires |start| == c.kbs && (legacy ==> c.kbs == 8)
      reads this
    {
      if !authenticated then []
      else if !legacy then Mac(c, start, sent + [OPERATION_OK])[..CMAC_LENGTH]
      else if comm.Maced? then LegacyMac(c, sent)
      else []
    }

    // desfire_sim_chained: one frame of such an answer.  `sent` is what
    // earlier frames of it carried.
    method ChainedAnswer(more: bool, comm: Comm, data: bytes, ghost start: bytes, ghost sent: bytes) returns (out: bytes)
      requires Valid() && |start| == c.kbs && Running(comm, start, sent)
      modifies this`iv, this`pendlen, pend
      ensures Valid()
      ensures more ==> out == [ADDITIONAL_FRAME] + data && Running(comm, start, sent + data)
      ensures !more ==> out == [OPERATION_OK] + data + Trailer(comm, start, sent + data) && Closed(start, sent + data)
    {
      if !authenticated || (legacy && !comm.Maced?) {
        out := [if more then ADDITIONAL_FRAME else OPERATION_OK] + data;
        NothingBehind(out);
        return;
      }
      if legacy {
        LmacUpdate(data, sent);
        if more {
          return [ADDITIONAL_FRAME] + data;
        }
        var mac := LmacFinal(sent + data);
        return [OPERATION_OK] + data + mac;
      }
      CmacUpdate(data, start, sent);
      if more {
        return [ADDITIONAL_FRAME] + data;
      }
      CmacUpdate([OPERATION_OK], start, sent + data);
      var mac := CmacFinal(start, sent + data + [OPERATION_OK]);
      out := [OPERATION_OK] + data + mac[..CMAC_LENGTH];
    }

    // desfire_sim_crypt under the session key.
    method CryptOn(x: bytes, encrypt: bool) returns (y: bytes)
      requires Valid() && Whole(c.kbs, |x|)
      modifies this`iv
      ensures Valid() && |y| == |x|
      ensures encrypt ==> y == Send(c, Encypher, old(iv), x) && iv == Carry(c.kbs, old(iv), y) == After(c, Encypher, old(iv), x)
      ensures !encrypt ==> y == Receive(c, Decypher, old(iv), x) && iv == Carry(c.kbs, old(iv), x)
    {
      AfterIsCarry(c, Encypher, iv, x);
      y, iv := CryptBytes(c, x, iv, encrypt);
    }

    // desfire_sim_enciphered
    method EncipheredAnswer(status: byte, data: bytes) returns (out: bytes)
      requires Valid()
      modifies this`iv
      ensures Valid()
      ensures Enciphers(c, old(iv), iv, Sealed(c.kbs, data, status), status, out)
    {
      var padded := PaddedDataLength(|data| + 4, c.kbs);
      if padded + 1 > MAX_RESP {
        return [E_LENGTH];
      }
      var buf := Sealed(c.kbs, data, status);
      var y := CryptOn(buf, true);
      out := [status] + y;
    }

    // The enciphered branch of desfire_sim_respond in a legacy session.
    method LegacyEncipheredAnswer(status: byte, data: bytes) returns (out: bytes)
      requires Valid() && legacy
      modifies this`iv
      ensures Valid()
      ensures out == if MAX_RESP < |LegacySealed(data)| + 1 then [E_LENGTH]
        else [status] + Send(c, Encypher, Zeros(8), LegacySealed(data))
    {
      var padded := PaddedDataLength(|data| + 2, 8);
      if padded + 1 > MAX_RESP {
        return [E_LENGTH];
      }
      var buf := LegacySealed(data);
      iv := Zeros(8);
      var y := CryptOn(buf, true);
      out := [status] + y;
    }

    // desfire_sim_respond: one whole answer in the transfer's mode.
    method Respond(status: byte, data: bytes, comm: Comm) returns (out: bytes)
      requires Valid()
      modifies this`iv, this`pendlen, pend
      ensures Valid()
      ensures !authenticated ==> out == [status] + data && iv == old(iv)
      ensures authenticated && legacy && comm.Full? ==>
        out == (if MAX_RESP < |LegacySealed(data)| + 1 then [E_LENGTH] else [status] + Send(c, Encypher, Zeros(8), LegacySealed(data)))
      ensures authenticated && legacy && !comm.Full? ==>
        out == [status] + data + (if comm.Maced? && data != [] then LegacyMac(c, data) else [])
      ensures authenticated && !legacy && comm.Full? ==> Enciphers(c, old(iv), iv, Sealed(c.kbs, data, status), status, out)
      ensures authenticated && !legacy && !comm.Full? ==>
        out == [status] + data + iv[..CMAC_LENGTH] && iv == Mac(c, old(iv), data + [status])
    {
      if authenticated && legacy {
        if comm.Full? {
          out := LegacyEncipheredAnswer(status, data);
        } else if comm.Maced? && |data| != 0 {
          var mac := LegacyMacOf(data);
          out := [status] + data + mac;
        } else {
          out := [status] + data;
          NothingBehind(out);
        }
      } else if authenticated && comm.Full? {
        out := EncipheredAnswer(status, data);
      } else {
        out := MacedAnswer(status, data);
      }
    }
  }

  // A legacy enciphered answer before the cipher: the CRC covers the data alone.
  function LegacySealed(data: bytes): (r: bytes)
    ensures Whole(8, |r|) && |r| == PaddedDataLength(|data| + 2, 8)
  {
    data + Crc16A(data) + Zeros(PaddedDataLength(|data| + 2, 8) - |data| - 2)
  }

  // One CBC run over x behind the status, if the answer holds it.
  ghost predicate Enciphers(c: BlockCipher, iv: bytes, iv': bytes, x: bytes, status: byte, out: bytes)
    requires |iv| == c.kbs && Whole(c.kbs, |x|)
  {
    if MAX_RESP < |x| + 1 then out == [E_LENGTH] && iv' == iv
    else out == [status] + Send(c, Encypher, iv, x) && iv' == Carry(c.kbs, iv, Send(c, Encypher, iv, x))
  }

  // An enciphered answer before the cipher: the data, the CRC-32 over it and
  // the status it travels with, zeros to a whole number of blocks.
  function Sealed(n: nat, data: bytes, status: byte): (r: bytes)
    requires 0 < n
    ensures Whole(n, |r|) && |r| == PaddedDataLength(|data| + 4, n)
  {
    data + Crc32(data + [status]) + Zeros(PaddedDataLength(|data| + 4, n) - |data| - 4)
  }

  function ZeroPadded(m: bytes): (r: bytes)
    ensures Whole(8, |r|)
  {
    EightsFilled(|m|);
    m + Zeros(if |m| % 8 == 0 then 0 else 8 - |m| % 8)
  }

  // The legacy MAC: the front of the last block of a CBC run from zeros.
  function LegacyMac(c: BlockCipher, m: bytes): (r: bytes)
    requires c.kbs == 8
    ensures |r| == MAC_LENGTH
  {
    Chain(c, Zeros(8), ZeroPadded(m))[..MAC_LENGTH]
  }

  lemma ZeroFill(c: BlockCipher, m: bytes, iv: bytes, held: bytes)
    requires c.kbs == 8 && |held| < 8 && Taken(c, Zeros(8), m, iv, held)
    ensures ZeroPadded(m) == if held == [] then m else m + Zeros(8 - |held|)
  {
    EightsRemainder(|m|, |held|);
    NothingBehind(m);
    assert Zeros(0) == [];
  }

  lemma EightsFilled(len: nat)
    ensures Whole(8, len + if len % 8 == 0 then 0 else 8 - len % 8)
  {
    WholeIsMultiple(8, len + if len % 8 == 0 then 0 else 8 - len % 8);
  }

  lemma EightsRemainder(len: nat, held: nat)
    requires held <= len && held < 8 && Whole(8, len - held)
    ensures len % 8 == held
  {
    WholeIsMultiple(8, len - held);
  }

  lemma WholeIsChain(c: BlockCipher, start: bytes, m: bytes, iv: bytes)
    requires Taken(c, start, m, iv, [])
    ensures Whole(c.kbs, |m|) && iv == Chain(c, start, m)
  {
    assert m[..|m|] == m;
  }

  lemma Regroup(a: bytes, b: bytes, n: nat)
    requires n <= |b|
    ensures (a + b[..n]) + b[n..] == a + b
  {
  }

  lemma NothingInFront(a: bytes)
    ensures [] + a == a
  {
  }

  lemma NothingBehind(a: bytes)
    ensures a + [] == a
  {
  }

  lemma NothingFed(c: BlockCipher, iv: bytes)
    requires |iv| == c.kbs
    ensures Absorbed(c, iv, [], iv, [])
  {
    NoneIsWhole(c.kbs);
  }
}
