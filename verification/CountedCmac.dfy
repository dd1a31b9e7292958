// append_cmac and verify_cmac of armsrc/cmac_calc.c: commands and answers carry
// half the bytes of a CMAC over a running 16-bit counter.
module CountedCmac {
  import opened Bytes
  import opened Cbc
  import opened Cmac
  import opened Crc

  const MAX_DATA := 4064             // PM3_CMD_DATA_SIZE
  const TAG_SIZE := 8

  // ulaes_cmac8
  function OddBytes(mac: bytes): (r: bytes)
    requires |mac| == 16
    ensures |r| == TAG_SIZE
  {
    [mac[1], mac[3], mac[5], mac[7], mac[9], mac[11], mac[13], mac[15]]
  }

  function CounterBytes(counter: nat): (r: bytes)
    requires counter < 0x1_0000
    ensures |r| == 2
  {
    [(counter % 256) as byte, (counter / 256) as byte]
  }

  function Next(counter: nat): (r: nat)
    ensures r < 0x1_0000
  {
    (counter + 1) % 0x1_0000
  }

  function Tag(c: BlockCipher, counter: nat, d: bytes): (r: bytes)
    requires c.kbs == 16 && counter < 0x1_0000
    ensures |r| == TAG_SIZE
  {
    OddBytes(NistCmac(c, CounterBytes(counter) + d))
  }

  datatype Status = Success | Overflow | CrcError

  // g_secure_session, with its key in the cipher.
  class SecureSession {
    const c: BlockCipher
    var counter: nat

    ghost predicate Valid()
      reads this
    {
      c.kbs == 16 && counter < 0x1_0000
    }

    constructor (c: BlockCipher)
      requires c.kbs == 16
      ensures Valid() && this.c == c && counter == 0
    {
      this.c, counter := c, 0;
    }

    // The tag goes behind the first n bytes of d, in place.
    method AppendCmac(d: array<byte>, n: nat)
      requires Valid() && n + TAG_SIZE <= d.Length
      modifies this, d
      ensures Valid()
      ensures n > MAX_DATA ==> d[..] == old(d[..]) && counter == old(counter)
      ensures n <= MAX_DATA ==>
        && d[..] == old(d[..n]) + Tag(c, old(counter), old(d[..n])) + old(d[n + TAG_SIZE..])
        && counter == Next(old(counter))
    {
      if n > MAX_DATA {
        return;
      }
      hide NistCmac;
      var mac := TwinCmac(c, CounterBytes(counter) + d[..n]);
      var tag := OddBytes(mac);
      assert tag == Tag(c, counter, d[..n]);
      forall i | 0 <= i < TAG_SIZE {
        d[n + i] := tag[i];
      }
      counter := Next(counter);
    }

    // The check takes a copy and tags it as the sender should have, then, if
    // asked to, puts the CRC behind that.  The counter moves on whether or not
    // the tag is the right one.
    method VerifyCmac(d: bytes, n: nat, verifyCrc: bool) returns (status: Status)
      requires Valid() && n + TAG_SIZE + (if verifyCrc then 2 else 0) <= |d|
      modifies this
      ensures Valid()
      ensures n > MAX_DATA ==> status == Overflow && counter == old(counter)
      ensures n <= MAX_DATA ==>
        && counter == Next(old(counter))
        && (status == Success <==>
          && d[n..n + TAG_SIZE] == Tag(c, old(counter), d[..n])
          && (verifyCrc ==> d[n + TAG_SIZE..n + TAG_SIZE + 2] == Crc16A(d[..n + TAG_SIZE])))
        && status != Overflow
    {
      if n > MAX_DATA {
        return Overflow;
      }
      hide NistCmac, OddBytes, Tag, Crc16A;
      var copy := new byte[n + TAG_SIZE](i requires 0 <= i < n + TAG_SIZE => if i < n && i < |d| then d[i] else 0);
      assert copy[..n] == d[..n];
      AppendCmac(copy, n);
      assert copy[n..n + TAG_SIZE] == Tag(c, old(counter), d[..n]);
      if copy[n..n + TAG_SIZE] != d[n..n + TAG_SIZE] {
        return CrcError;
      }
      assert copy[..] == d[..n] + d[n..n + TAG_SIZE] == d[..n + TAG_SIZE];
      if verifyCrc && Crc16A(copy[..]) != d[n + TAG_SIZE..n + TAG_SIZE + 2] {
        return CrcError;
      }
      status := Success;
    }
  }

  // The frame one side puts on the wire.
  method Sent(a: SecureSession, d: bytes) returns (sent: bytes)
    requires a.Valid() && |d| <= MAX_DATA
    modifies a
    ensures a.Valid() && a.counter == Next(old(a.counter))
    ensures sent == d + Tag(a.c, old(a.counter), d)
  {
    hide NistCmac, Tag;
    var frame := new byte[|d| + TAG_SIZE](i requires 0 <= i < |d| + TAG_SIZE => if i < |d| then d[i] else 0);
    assert frame[..|d|] == d;
    a.AppendCmac(frame, |d|);
    sent := frame[..];
    assert sent[..|d|] == d && sent[|d|..] == Tag(a.c, old(a.counter), d);
  }

  // One message from one side to the other, changed on the way or not.  What
  // is accepted is exactly what carries the tag of the receiver's position, so
  // between sides in step an honest message always is; and both move on.
  method Exchange(a: SecureSession, b: SecureSession, d: bytes, received: bytes) returns (sent: bytes, status: Status)
    requires a != b && a.Valid() && b.Valid() && a.c == b.c
    requires |d| <= MAX_DATA && |received| == |d| + TAG_SIZE
    modifies a, b
    ensures a.Valid() && b.Valid() && a.counter == Next(old(a.counter)) && b.counter == Next(old(b.counter))
    ensures sent == d + Tag(a.c, old(a.counter), d)
    ensures received == sent && old(a.counter) == old(b.counter) ==> status == Success
    ensures status == Success <==> received[|d|..] == Tag(b.c, old(b.counter), received[..|d|])
  {
    hide NistCmac, Tag;
    sent := Sent(a, d);
    assert sent[..|d|] == d && sent[|d|..] == Tag(a.c, old(a.counter), d);
    status := b.VerifyCmac(received, |d|, false);
    assert received[|d|..|d| + TAG_SIZE] == received[|d|..];
  }

  // ---- a whole run with one message lost

  function After(counter: nat, n: nat): (r: nat)
    requires counter < 0x1_0000
    ensures r < 0x1_0000
  {
    if n == 0 then counter else Next(After(counter, n - 1))
  }

  // A message tagged in one position is good in another.
  ghost predicate Passes(c: BlockCipher, sender: nat, receiver: nat, d: bytes) {
    c.kbs == 16 && sender < 0x1_0000 && receiver < 0x1_0000 && Tag(c, sender, d) == Tag(c, receiver, d)
  }

  ghost predicate AllShort(ds: seq<bytes>) {
    forall i :: 0 <= i < |ds| ==> |ds[i]| <= MAX_DATA
  }

  // One message that arrives as it was sent.
  method Pass(a: SecureSession, b: SecureSession, d: bytes) returns (ok: bool)
    requires a != b && a.Valid() && b.Valid() && a.c == b.c && |d| <= MAX_DATA
    modifies a, b
    ensures a.Valid() && b.Valid() && a.counter == Next(old(a.counter)) && b.counter == Next(old(b.counter))
    ensures ok <==> Passes(a.c, old(a.counter), old(b.counter), d)
  {
    hide NistCmac, Tag;
    ghost var k := a.counter;
    var frame := Sent(a, d);
    assert frame[..|d|] == d && frame[|d|..|d| + TAG_SIZE] == Tag(a.c, k, d);
    var status := b.VerifyCmac(frame, |d|, false);
    ok := status == Success;
  }

  // Messages that all arrive as they were sent.
  method Deliver(a: SecureSession, b: SecureSession, ds: seq<bytes>) returns (oks: seq<bool>)
    requires a != b && a.Valid() && b.Valid() && a.c == b.c && AllShort(ds)
    modifies a, b
    ensures a.Valid() && b.Valid() && a.counter == After(old(a.counter), |ds|) && b.counter == After(old(b.counter), |ds|)
    ensures |oks| == |ds| && forall i :: 0 <= i < |ds| ==>
      (oks[i] <==> Passes(a.c, After(old(a.counter), i), After(old(b.counter), i), ds[i]))
  {
    hide Passes;
    oks := [];
    for i := 0 to |ds|
      invariant a.Valid() && b.Valid() && a.counter == After(old(a.counter), i) && b.counter == After(old(b.counter), i)
      invariant |oks| == i && forall k :: 0 <= k < i ==>
        (oks[k] <==> Passes(a.c, After(old(a.counter), k), After(old(b.counter), k), ds[k]))
    {
      var ok := Pass(a, b, ds[i]);
      oks := oks + [ok];
    }
  }

  lemma {:induction false} AfterJoins(k: nat, m: nat, n: nat)
    requires k < 0x1_0000
    ensures After(After(k, m), n) == After(k, m + n)
  {
    if n > 0 {
      AfterJoins(k, m, n - 1);
    }
  }

  // A counter and its successor differ, and move on together.
  lemma {:induction false} LossStays(k: nat, n: nat)
    requires k < 0x1_0000
    ensures After(Next(k), n) == Next(After(k, n)) != After(k, n)
  {
    if n > 0 {
      LossStays(k, n - 1);
    }
  }

  // Sides in step; some messages arrive, one does not, more are sent.  All
  // before the loss are accepted.  After it the two sides never meet again: each
  // message is tagged one position ahead of where it is checked, and accepted
  // only if the two tags happen to agree.
  method LoseOne(a: SecureSession, b: SecureSession, before: seq<bytes>, lost: bytes, later: seq<bytes>) returns (oks: seq<bool>, oks': seq<bool>)
    requires a != b && a.Valid() && b.Valid() && a.c == b.c && a.counter == b.counter
    requires AllShort(before) && |lost| <= MAX_DATA && AllShort(later)
    modifies a, b
    ensures |oks| == |before| && forall i :: 0 <= i < |before| ==> oks[i]
    ensures |oks'| == |later| && forall i :: 0 <= i < |later| ==>
      var k := After(old(b.counter), |before| + i);
      (oks'[i] <==> Passes(a.c, Next(k), k, later[i])) && Next(k) != k
    ensures a.Valid() && b.Valid() && a.counter == Next(b.counter) != b.counter
  {
    hide NistCmac, Tag;
    oks := Deliver(a, b, before);
    ghost var k := b.counter;
    var _ := Sent(a, lost);
    oks' := Deliver(a, b, later);
    LossStays(k, |later|);
    forall i | 0 <= i < |later|
      ensures var k' := After(old(b.counter), |before| + i);
        (oks'[i] <==> Passes(a.c, Next(k'), k', later[i])) && Next(k') != k'
    {
      AfterJoins(old(b.counter), |before|, i);
      LossStays(k, i);
    }
  }
}
