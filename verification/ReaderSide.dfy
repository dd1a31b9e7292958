// What the client makes of an answer in an EV1 session
// (client/src/mifare/desfiresecurechan.c and desfirecrypto.c): it checks the MAC
// behind a plain or MACed one, and in an enciphered one it looks for the CRC.
module ReaderSide {
  import opened Bytes
  import opened Cbc
  import opened Cmac
  import opened Crc
  import opened SecureSession

  // ---- DesfireSearchCRCPos

  // One past the last octet that is not zero, but never 0.
  function TailEnd(x: bytes): (p: nat)
    requires x != []
    ensures 1 <= p <= |x|
    ensures forall k :: p <= k < |x| ==> x[k] == 0
    ensures p > 1 ==> x[p - 1] != 0
  {
    if |x| == 1 || x[|x| - 1] != 0 then |x| else TailEnd(x[..|x| - 1])
  }

  predicate CrcAt(x: bytes, p: nat, status: byte) {
    p + 4 <= |x| && Crc32(x[..p] + [status]) == x[p..p + 4]
  }

  // From the tail end six places down, stopping short of the front; the last
  // match wins.
  function Scan(x: bytes, status: byte, p: nat, i: nat, found: nat): (r: nat)
    requires i <= 6 && i <= p && found <= p
    ensures r <= p
    decreases 6 - i
  {
    if i == 6 || i == p then found
    else Scan(x, status, p, i + 1, if CrcAt(x, p - i, status) then p - i else found)
  }

  // 0 when nothing was found.
  function CrcPos(x: bytes, status: byte): (r: nat)
    requires x != []
    ensures r <= |x|
  {
    if TailEnd(x) < 4 then 0 else Scan(x, status, TailEnd(x), 0, 0)
  }

  lemma {:induction false} ScanFinds(x: bytes, status: byte, p: nat, i: nat, found: nat, d: nat)
    requires i <= 6 && i <= p && found <= p
    requires forall q: nat :: q < d && 0 < q && p <= q + 5 ==> !CrcAt(x, q, status)
    requires 0 < d && CrcAt(x, d, status) && p <= d + 5 && d <= p
    requires d <= p - i || found == d
    ensures Scan(x, status, p, i, found) == d
    decreases 6 - i
  {
    hide CrcAt;
    if i < 6 && i < p {
      ScanFinds(x, status, p, i + 1, if CrcAt(x, p - i, status) then p - i else found, d);
    }
  }

  // The search never comes to rest above a place that matches.
  lemma {:induction false} ScanLow(x: bytes, status: byte, p: nat, i: nat, found: nat, q: nat)
    requires i <= 6 && i <= p && found <= p && 0 < q && p <= q + 5 && CrcAt(x, q, status)
    requires q <= p - i || (0 < found <= q)
    ensures 0 < Scan(x, status, p, i, found) <= q
    decreases 6 - i
  {
    hide CrcAt;
    if i < 6 && i < p {
      ScanLow(x, status, p, i + 1, if CrcAt(x, p - i, status) then p - i else found, q);
    }
  }

  // When the search comes out at d: there is data at all, it does not end in
  // zeros that an all-zero CRC runs on from, the stream is not nearly all zero,
  // and none of the places in reach below d carries its own CRC.
  ghost predicate Findable(x: bytes, d: nat, status: byte)
    requires x != []
  {
    && 0 < d <= TailEnd(x) && 4 <= TailEnd(x)
    && forall q: nat :: 0 < q < d && TailEnd(x) <= q + 5 ==> !CrcAt(x, q, status)
  }

  lemma SealedCrc(n: nat, data: bytes, status: byte)
    requires 0 < n
    ensures var x := Sealed(n, data, status);
      x != [] && CrcAt(x, |data|, status) && TailEnd(x) <= |data| + 4 && x[..|data|] == data
  {
    hide Crc32;
    var x := Sealed(n, data, status);
    assert x[..|data|] == data;
    assert x[|data|..|data| + 4] == Crc32(data + [status]);
    forall k | |data| + 4 <= k < |x| ensures x[k] == 0 {
    }
  }

  // The reader takes the card's enciphered answer apart at the right place
  // exactly then.
  lemma SealedFound(n: nat, data: bytes, status: byte)
    requires 0 < n
    ensures var x := Sealed(n, data, status);
      x != [] && (0 < CrcPos(x, status) && x[..CrcPos(x, status)] == data <==> Findable(x, |data|, status))
  {
    hide CrcAt, Sealed;
    SealedCrc(n, data, status);
    var x, d := Sealed(n, data, status), |data|;
    var p := TailEnd(x);
    if Findable(x, d, status) {
      ScanFinds(x, status, p, 0, 0, d);
    } else if 4 <= p {
      if 0 < d <= p {
        var q: nat :| 0 < q < d && p <= q + 5 && CrcAt(x, q, status);
        ScanLow(x, status, p, 0, 0, q);
      }
    }
  }

  // An answer of no data is one it never finds.
  lemma NothingIsNotFound(n: nat, status: byte)
    requires 0 < n
    ensures !Findable(Sealed(n, [], status), 0, status)
  {
    SealedCrc(n, [], status);
  }

  // ---- the reader's half of an answer

  // Whether it is satisfied, what it takes the answer to say, and where that
  // leaves its IV.
  datatype Taken = Taken(ok: bool, says: bytes, iv: bytes)

  ghost function Take(c: BlockCipher, iv: bytes, comm: Comm, status: byte, payload: bytes): (r: Taken)
    requires |iv| == c.kbs
    ensures |r.iv| == c.kbs
  {
    if comm.Full? then
      if payload == [] || !Whole(c.kbs, |payload|) then Taken(false, payload, iv)
      else
        var x := Receive(c, Decypher, iv, payload);
        var p := CrcPos(x, status);
        Taken(p != 0, if p != 0 then x[..p] else x, Carry(c.kbs, iv, payload))
    else if |payload| < CMAC_LENGTH then Taken(false, payload, iv)
    else
      var data, mac := payload[..|payload| - CMAC_LENGTH], payload[|payload| - CMAC_LENGTH..];
      var iv' := Mac(c, iv, data + [status]);
      Taken(iv'[..CMAC_LENGTH] == mac, data, iv')
  }

  // A MACed payload the card built from the same IV is believed,
  lemma TakesMaced(c: BlockCipher, iv: bytes, status: byte, data: bytes, comm: Comm)
    requires |iv| == c.kbs && !comm.Full?
    ensures var iv' := Mac(c, iv, data + [status]);
      Take(c, iv, comm, status, data + iv'[..CMAC_LENGTH]) == Taken(true, data, iv')
  {
    var mac := Mac(c, iv, data + [status])[..CMAC_LENGTH];
    assert (data + mac)[..|data + mac| - CMAC_LENGTH] == data;
    assert (data + mac)[|data + mac| - CMAC_LENGTH..] == mac;
  }

  // and of an enciphered one the reader always ends on the card's IV, and reads
  // the data exactly when the search finds its end.
  lemma TakesFull(c: BlockCipher, iv: bytes, status: byte, data: bytes)
    requires |iv| == c.kbs
    ensures var x := Sealed(c.kbs, data, status);
      var t := Take(c, iv, Full, status, Send(c, Encypher, iv, x));
      && t.iv == Carry(c.kbs, iv, Send(c, Encypher, iv, x))
      && x != [] && (t.ok && t.says == data <==> Findable(x, |data|, status))
  {
    hide CrcPos, Findable, Sealed;
    var x := Sealed(c.kbs, data, status);
    SealedFound(c.kbs, data, status);
    ReceiveInvertsSend(c, Encypher, iv, x);
  }
}
