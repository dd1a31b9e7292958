// The block loops of armsrc/desfire_crypto.c on real buffers, in place or
// not, proved against the chaining functions.
module BlockCode {
  import opened Bytes
  import opened Cbc

  datatype Direction = MCD_SEND | MCD_RECEIVE

  function Chained(c: BlockCipher, dir: Direction, op: Operation, iv: bytes, x: bytes): (y: bytes)
    requires |iv| == c.kbs && Whole(c.kbs, |x|)
    ensures |y| == |x|
  {
    if dir.MCD_SEND? then Send(c, op, iv, x) else Receive(c, op, iv, x)
  }

  // The side of the exchange that carries the chaining block.
  function Wire(dir: Direction, x: bytes, y: bytes): bytes {
    if dir.MCD_SEND? then y else x
  }

  // xor() of common/commonutil.c: src into dest.
  method XorInto(dest: array<byte>, at: nat, src: array<byte>, n: nat)
    requires at + n <= dest.Length && n <= src.Length && dest != src
    modifies dest
    ensures dest[at..at + n] == Xor(old(dest[at..at + n]), src[..n])
    ensures dest[..at] == old(dest[..at]) && dest[at + n..] == old(dest[at + n..])
  {
    forall i | 0 <= i < n {
      dest[at + i] := dest[at + i] ^ src[i];
    }
  }

  // memcpy into a buffer.
  method Copy(dest: array<byte>, at: nat, src: bytes)
    requires at + |src| <= dest.Length
    modifies dest
    ensures dest[at..at + |src|] == src
    ensures dest[..at] == old(dest[..at]) && dest[at + |src|..] == old(dest[at + |src|..])
  {
    forall i | 0 <= i < |src| {
      dest[at + i] := src[i];
    }
  }

  // The first `done` octets of x have gone through the chain into y, which
  // was y0; `now` is what the input buffer holds meanwhile.
  ghost predicate Underway(c: BlockCipher, dir: Direction, op: Operation, iv0: bytes, iv: bytes, x: bytes, now: bytes, y0: bytes, y: bytes, done: nat) {
    && done <= |x| == |now| && done <= |y| == |y0| && |iv0| == c.kbs && Whole(c.kbs, done)
    && y[..done] == Chained(c, dir, op, iv0, x[..done]) && y[done..] == y0[done..]
    && iv == Carry(c.kbs, iv0, Wire(dir, x[..done], y[..done]))
    && now[done..] == x[done..]
  }

  // What one round does to the block it is at.
  ghost predicate Round(c: BlockCipher, dir: Direction, op: Operation, iv: bytes, iv': bytes, block: bytes, block': bytes) {
    && |iv| == |block| == c.kbs
    && if dir.MCD_SEND? then block' == iv' == Crypt(c, op, Xor(block, iv))
       else block' == Xor(Crypt(c, op, block), iv) && iv' == block
  }

  lemma UnderwayStep(c: BlockCipher, dir: Direction, op: Operation, iv0: bytes, iv: bytes, iv': bytes, x: bytes, now: bytes, now': bytes, y0: bytes, y: bytes, y': bytes, done: nat)
    requires Underway(c, dir, op, iv0, iv, x, now, y0, y, done)
    requires done + c.kbs <= |x| == |now'| && done + c.kbs <= |y| == |y'|
    requires Round(c, dir, op, iv, iv', now[done..done + c.kbs], y'[done..done + c.kbs])
    requires y'[..done] == y[..done] && y'[done + c.kbs..] == y[done + c.kbs..]
    requires now'[done + c.kbs..] == now[done + c.kbs..]
    ensures Underway(c, dir, op, iv0, iv', x, now', y0, y', done + c.kbs)
  {
    var n := c.kbs;
    Suffix(now, x, done, n);
    Suffix(y, y0, done, n);
    Extends(x, x, done, n);
    Extends(y, y', done, n);
    ChainedSnoc(c, dir, op, iv0, iv, iv', x[..done], x[done..done + n], y'[done..done + n]);
  }

  lemma UnderwayDone(c: BlockCipher, dir: Direction, op: Operation, iv0: bytes, iv: bytes, x: bytes, y: bytes)
    requires Underway(c, dir, op, iv0, iv, x, y, x, y, |x|)
    ensures y == Chained(c, dir, op, iv0, x) && iv == Carry(c.kbs, iv0, Wire(dir, x, y))
  {
    assert y[..|x|] == y && x[..|x|] == x;
  }

  lemma Suffix(a: bytes, b: bytes, at: nat, n: nat)
    requires at + n <= |a| == |b| && a[at..] == b[at..]
    ensures a[at..at + n] == b[at..at + n] && a[at + n..] == b[at + n..]
  {
    assert a[at..at + n] == a[at..][..n] && b[at..at + n] == b[at..][..n];
    assert a[at + n..] == a[at..][n..] && b[at + n..] == b[at..][n..];
  }

  lemma Extends(was: bytes, now: bytes, at: nat, n: nat)
    requires at + n <= |was| == |now| && now[..at] == was[..at]
    ensures now[..at + n] == was[..at] + now[at..at + n]
  {
  }

  lemma ChainedSnoc(c: BlockCipher, dir: Direction, op: Operation, iv0: bytes, iv: bytes, iv': bytes, a: bytes, block: bytes, block': bytes)
    requires |iv0| == c.kbs && Whole(c.kbs, |a|)
    requires iv == Carry(c.kbs, iv0, Wire(dir, a, Chained(c, dir, op, iv0, a)))
    requires Round(c, dir, op, iv, iv', block, block')
    ensures Whole(c.kbs, |a + block|)
    ensures Chained(c, dir, op, iv0, a + block) == Chained(c, dir, op, iv0, a) + block'
    ensures iv' == Carry(c.kbs, iv0, Wire(dir, a + block, Chained(c, dir, op, iv0, a + block)))
  {
    if dir.MCD_SEND? {
      SendSnoc(c, op, iv0, a, block);
    } else {
      ReceiveSnoc(c, op, iv0, a, block);
    }
  }

  lemma RoomForBlock(n: nat, length: nat, done: nat)
    requires Whole(n, length) && Whole(n, done) && done < length
    ensures done + n <= length && Whole(n, done + n)
  {
    WholeSubtract(n, length, done);
    FirstBlock(n, length - done);
    OneIsWhole(n);
    WholeAdd(n, done, n);
  }

  // What whitening leaves of the input: each block under the chaining block it
  // met, the first under the IV and the others under the block sent before.
  function Whitened(iv: bytes, x: bytes, y: bytes): (r: bytes)
    requires |y| == |x|
    ensures |r| == |x|
  {
    Xor(x, (iv + y)[..|x|])
  }

  // The first `done` octets of the input buffer have been whitened.
  ghost predicate Destroyed(iv0: bytes, x: bytes, now: bytes, y: bytes, done: nat) {
    done <= |x| == |now| && done <= |y| && now[..done] == Whitened(iv0, x[..done], y[..done])
  }

  lemma DestroyedStep(iv0: bytes, iv: bytes, x: bytes, now: bytes, now': bytes, y: bytes, y': bytes, done: nat)
    requires |iv0| == 8 && Whole(8, done) && Destroyed(iv0, x, now, y, done)
    requires done + 8 <= |x| == |now'| && done + 8 <= |y'| == |y| && y'[..done] == y[..done]
    requires iv == Carry(8, iv0, y[..done]) && now[done..] == x[done..]
    requires now'[..done] == now[..done] && now'[done..done + 8] == Xor(now[done..done + 8], iv)
    ensures Destroyed(iv0, x, now', y', done + 8)
  {
    hide Whole, Whitened, Carry, Xor;
    Extends(x, x, done, 8);
    Extends(y, y', done, 8);
    Extends(now, now', done, 8);
    Suffix(now, x, done, 8);
    WhitenedSnoc(iv0, x[..done], y[..done], x[done..done + 8], y'[done..done + 8]);
  }

  lemma WhitenedSnoc(iv0: bytes, x: bytes, y: bytes, block: bytes, block': bytes)
    requires |iv0| == |block| == |block'| == 8 && |x| == |y| && Whole(8, |y|)
    ensures Whitened(iv0, x + block, y + block') == Whitened(iv0, x, y) + Xor(block, Carry(8, iv0, y))
  {
    ChainingBlock(iv0, y);
    assert (iv0 + (y + block'))[..|x| + 8] == iv0 + y;
    assert (iv0 + y)[..|x|] + (iv0 + y)[|x|..] == iv0 + y;
    XorJoins(x, (iv0 + y)[..|x|], block, (iv0 + y)[|x|..]);
  }

  lemma XorJoins(a: bytes, b: bytes, a': bytes, b': bytes)
    requires |a| == |b| && |a'| == |b'|
    ensures Xor(a + a', b + b') == Xor(a, b) + Xor(a', b')
  {
  }

  // The chaining block is what stands eight octets further back.
  lemma ChainingBlock(iv0: bytes, y: bytes)
    requires |iv0| == 8 && Whole(8, |y|)
    ensures (iv0 + y)[|y|..] == Carry(8, iv0, y)
  {
  }

  // From a zero IV the input survives if and only if every block sent but the
  // last is zero: a single block always does,
  lemma WhitenedSurvives(n: nat, x: bytes, y: bytes)
    requires n <= |x| == |y|
    ensures Whitened(Zeros(n), x, y) == x <==> y[..|x| - n] == Zeros(|x| - n)
  {
    var w, front := Whitened(Zeros(n), x, y), y[..|x| - n];
    assert forall k :: n <= k < |x| ==> w[k] == x[k] ^ front[k - n];
    if w == x {
      forall k | 0 <= k < |front| ensures front[k] == 0 {
        assert w[k + n] == x[k + n] ^ front[k];
        SameBits(x[k + n], front[k]);
      }
    }
  }

  lemma SameBits(a: byte, b: byte)
    ensures a ^ b == a <==> b == 0
  {
  }

  // and two blocks do exactly when the first enciphers to zeros.
  lemma SecondBlock(c: BlockCipher, x: bytes)
    requires c.kbs == 8 && |x| in {8, 16} && Whole(8, |x|)
    ensures Whitened(Zeros(8), x, Send(c, Encypher, Zeros(8), x)) == x <==> |x| == 8 || c.enc(x[..8]) == Zeros(8)
  {
    var y := Send(c, Encypher, Zeros(8), x);
    WhitenedSurvives(8, x, y);
    XorZero(x[..8]);
    assert y[..8] == c.enc(x[..8]);
  }

  // One round of tdes_nxp_send: the input is whitened where it stands.
  method SendBlock(c: BlockCipher, input: array<byte>, output: array<byte>, p: nat, iv: array<byte>)
    requires c.kbs == 8 <= iv.Length && iv != input && iv != output
    requires p + 8 <= input.Length && p + 8 <= output.Length
    modifies input, output, iv
    ensures Round(c, MCD_SEND, Encypher, old(iv[..8]), iv[..8], old(input[p..p + 8]), output[p..p + 8])
    ensures output[..p] == old(output[..p]) && output[p + 8..] == old(output[p + 8..])
    ensures input[..p] == old(input[..p]) && input[p + 8..] == old(input[p + 8..])
    ensures input != output ==> input[p..p + 8] == Xor(old(input[p..p + 8]), old(iv[..8]))
  {
    XorInto(input, p, iv, 8);
    var block := c.enc(input[p..p + 8]);
    Copy(output, p, block);
    Copy(iv, 0, block);
  }

  // tdes_nxp_send: CBC encipherment, in place when both buffers are one.  When
  // they are not, the input is whitened all the same.
  method TdesNxpSend(c: BlockCipher, input: array<byte>, output: array<byte>, length: nat, iv: array<byte>)
    requires c.kbs == 8 <= iv.Length && iv != input && iv != output
    requires length <= input.Length && length <= output.Length
    modifies input, output, iv
    ensures length % 8 != 0 ==> input[..] == old(input[..]) && output[..] == old(output[..]) && iv[..] == old(iv[..])
    ensures length % 8 == 0 ==>
      && Whole(8, length) && output[..length] == Send(c, Encypher, old(iv[..8]), old(input[..length]))
      && iv[..8] == Carry(8, old(iv[..8]), output[..length])
      && output[length..] == old(output[length..]) && input[length..] == old(input[length..])
      && (input != output ==> input[..length] == Whitened(old(iv[..8]), old(input[..length]), output[..length]))
  {
    hide Whole, Round, Whitened;
    if length % 8 != 0 {
      return;
    }
    WholeIsMultiple(8, length);
    NoneIsWhole(8);
    var done := 0;
    ghost var x, iv0, y0 := input[..], iv[..8], output[..];
    while done < length
      invariant done <= length && Whole(8, done)
      invariant Underway(c, MCD_SEND, Encypher, iv0, iv[..8], x, input[..], y0, output[..], done)
      invariant input != output ==> Destroyed(iv0, x, input[..], output[..], done)
    {
      ghost var now, y, iv1 := input[..], output[..], iv[..8];
      RoomForBlock(8, length, done);
      SendBlock(c, input, output, done, iv);
      UnderwayStep(c, MCD_SEND, Encypher, iv0, iv1, iv[..8], x, now, input[..], y0, y, output[..], done);
      if input != output {
        DestroyedStep(iv0, iv1, x, now, input[..], y, output[..], done);
      }
      done := done + 8;
    }
  }

  // One round of tdes_nxp_receive; `temp` keeps the ciphertext, which the
  // in-place call overwrites.
  method ReceiveBlock(c: BlockCipher, input: array<byte>, output: array<byte>, p: nat, iv: array<byte>)
    requires c.kbs == 8 <= iv.Length && iv != input && iv != output
    requires p + 8 <= input.Length && p + 8 <= output.Length
    modifies output, iv
    ensures Round(c, MCD_RECEIVE, Decypher, old(iv[..8]), iv[..8], old(input[p..p + 8]), output[p..p + 8])
    ensures output[..p] == old(output[..p]) && output[p + 8..] == old(output[p + 8..])
    ensures input[p + 8..] == old(input[p + 8..])
  {
    var temp := input[p..p + 8];
    Copy(output, p, c.dec(temp));
    XorInto(output, p, iv, 8);
    Copy(iv, 0, temp);
  }

  // tdes_nxp_receive: CBC decipherment, in place when both buffers are one.
  method TdesNxpReceive(c: BlockCipher, input: array<byte>, output: array<byte>, length: nat, iv: array<byte>)
    requires c.kbs == 8 <= iv.Length && iv != input && iv != output
    requires length <= input.Length && length <= output.Length
    modifies output, iv
    ensures length % 8 != 0 ==> output[..] == old(output[..]) && iv[..] == old(iv[..])
    ensures length % 8 == 0 ==>
      && Whole(8, length) && output[..length] == Receive(c, Decypher, old(iv[..8]), old(input[..length]))
      && iv[..8] == Carry(8, old(iv[..8]), old(input[..length]))
      && output[length..] == old(output[length..])
  {
    if length % 8 != 0 {
      return;
    }
    WholeIsMultiple(8, length);
    NoneIsWhole(8);
    var done := 0;
    ghost var x, iv0, y0 := input[..], iv[..8], output[..];
    while done < length
      invariant done <= length && Whole(8, done)
      invariant Underway(c, MCD_RECEIVE, Decypher, iv0, iv[..8], x, input[..], y0, output[..], done)
    {
      ghost var now, y, iv1 := input[..], output[..], iv[..8];
      RoomForBlock(8, length, done);
      ReceiveBlock(c, input, output, done, iv);
      UnderwayStep(c, MCD_RECEIVE, Decypher, iv0, iv1, iv[..8], x, now, input[..], y0, y, output[..], done);
      done := done + 8;
    }
  }

  // desfire_sim_crypt: the loops above for a DES key of any kind; for an AES key
  // CBC in the library, which leaves its input alone.
  method DesfireSimCrypt(c: BlockCipher, input: array<byte>, output: array<byte>, length: nat, iv: array<byte>, encrypt: bool)
    requires c.kbs <= iv.Length && iv != input && iv != output && Whole(c.kbs, length)
    requires length <= input.Length && length <= output.Length
    modifies input, output, iv
    ensures encrypt ==>
      && output[..length] == Send(c, Encypher, old(iv[..c.kbs]), old(input[..length]))
      && iv[..c.kbs] == Carry(c.kbs, old(iv[..c.kbs]), output[..length])
    ensures !encrypt ==>
      && output[..length] == Receive(c, Decypher, old(iv[..c.kbs]), old(input[..length]))
      && iv[..c.kbs] == Carry(c.kbs, old(iv[..c.kbs]), old(input[..length]))
    ensures output[length..] == old(output[length..])
    ensures input != output ==>
      input[..length] == if encrypt && c.kbs == 8 then Whitened(old(iv[..c.kbs]), old(input[..length]), output[..length]) else old(input[..length])
  {
    hide Whole, Whitened;
    if c.kbs == 8 {
      WholeIsMultiple(8, length);
      if encrypt {
        TdesNxpSend(c, input, output, length, iv);
      } else {
        TdesNxpReceive(c, input, output, length, iv);
      }
    } else {
      var x, iv0 := input[..length], iv[..c.kbs];
      var y := if encrypt then Send(c, Encypher, iv0, x) else Receive(c, Decypher, iv0, x);
      Copy(output, 0, y);
      Copy(iv, 0, Carry(c.kbs, iv0, if encrypt then y else x));
    }
  }

  // The same on a buffer of the caller's own.
  method CryptBytes(c: BlockCipher, x: bytes, iv: bytes, encrypt: bool) returns (y: bytes, iv': bytes)
    requires |iv| == c.kbs && Whole(c.kbs, |x|)
    ensures y == if encrypt then Send(c, Encypher, iv, x) else Receive(c, Decypher, iv, x)
    ensures iv' == Carry(c.kbs, iv, if encrypt then y else x)
  {
    hide Whole, Whitened, Carry, Send, Receive;
    var input, output, ivect := new byte[|x|], new byte[|x|], new byte[c.kbs];
    Copy(input, 0, x);
    Copy(ivect, 0, iv);
    assert input[..|x|] == x && ivect[..c.kbs] == iv;
    DesfireSimCrypt(c, input, output, |x|, ivect, encrypt);
    y, iv' := output[..|x|], ivect[..c.kbs];
  }

  // mifare_cypher_single_block
  method MifareCypherSingleBlock(c: BlockCipher, data: array<byte>, p: nat, ivect: array<byte>, dir: Direction, op: Operation)
    requires p + c.kbs <= data.Length && c.kbs <= ivect.Length && data != ivect
    modifies data, ivect
    ensures Round(c, dir, op, old(ivect[..c.kbs]), ivect[..c.kbs], old(data[p..p + c.kbs]), data[p..p + c.kbs])
    ensures data[..p] == old(data[..p]) && data[p + c.kbs..] == old(data[p + c.kbs..])
  {
    var ovect := data[p..p + c.kbs];
    if dir.MCD_SEND? {
      XorInto(data, p, ivect, c.kbs);
    }
    Copy(data, p, Crypt(c, op, data[p..p + c.kbs]));
    if dir.MCD_SEND? {
      Copy(ivect, 0, data[p..p + c.kbs]);
    } else {
      XorInto(data, p, ivect, c.kbs);
      Copy(ivect, 0, ovect);
    }
  }

  // mifare_cypher_blocks_chained, for the callers that bring their own key and
  // chaining block: the whole buffer in place, in either direction.
  method MifareCypherBlocksChained(c: BlockCipher, ivect: array<byte>, data: array<byte>, dir: Direction, op: Operation)
    requires Whole(c.kbs, data.Length) && c.kbs <= ivect.Length && data != ivect
    modifies data, ivect
    ensures data[..] == Chained(c, dir, op, old(ivect[..c.kbs]), old(data[..]))
    ensures ivect[..c.kbs] == Carry(c.kbs, old(ivect[..c.kbs]), Wire(dir, old(data[..]), data[..]))
  {
    NoneIsWhole(c.kbs);
    var offset := 0;
    ghost var x, iv0 := data[..], ivect[..c.kbs];
    while offset < data.Length
      invariant offset <= data.Length && Whole(c.kbs, offset)
      invariant Underway(c, dir, op, iv0, ivect[..c.kbs], x, data[..], x, data[..], offset)
    {
      ghost var y, iv1 := data[..], ivect[..c.kbs];
      RoomForBlock(c.kbs, data.Length, offset);
      MifareCypherSingleBlock(c, data, offset, ivect, dir, op);
      UnderwayStep(c, dir, op, iv0, iv1, ivect[..c.kbs], x, y, data[..], x, y, data[..], offset);
      offset := offset + c.kbs;
    }
    UnderwayDone(c, dir, op, iv0, ivect[..c.kbs], x, data[..]);
  }

  // desfire_sim_d40_receive: the card undoes what a legacy reader sent.  It
  // only enciphers, from a zero chaining block, and passes over a short tail.
  method D40Receive(c: BlockCipher, input: bytes, out: array<byte>)
    requires c.kbs == 8 && |input| <= out.Length
    modifies out
    ensures var whole := |input| - |input| % 8;
      && Whole(8, whole)
      && out[..whole] == Receive(c, Encypher, Zeros(8), input[..whole]) && out[whole..] == old(out[whole..])
  {
    NoneIsWhole(8);
    var prev := Zeros(8);
    var off := 0;
    ghost var out0 := out[..];
    while off + 8 <= |input|
      invariant off <= |input| && Whole(8, off)
      invariant out[..off] == Receive(c, Encypher, Zeros(8), input[..off]) && out[off..] == out0[off..]
      invariant prev == Carry(8, Zeros(8), input[..off])
    {
      ghost var y := out[..];
      var block := input[off..off + 8];
      Copy(out, off, Xor(c.enc(block), prev));
      ReceiveSnoc(c, Encypher, Zeros(8), input[..off], block);
      Extends(input, input, off, 8);
      Extends(y, out[..], off, 8);
      Suffix(y, out0, off, 8);
      prev := block;
      off := off + 8;
    }
    WholeIsMultiple(8, off);
    EightsDown(off, |input|);
  }

  lemma EightsDown(off: nat, len: nat)
    requires off % 8 == 0 && off <= len < off + 8
    ensures off == len - len % 8
  {
  }

  // The legacy round trip: what the reader deciphers to send, the card
  // enciphers back, and what the card enciphers, the reader deciphers.
  lemma LegacyRoundTrip(c: BlockCipher, x: bytes)
    requires c.kbs == 8 && Whole(8, |x|)
    ensures Receive(c, Encypher, Zeros(8), Send(c, Decypher, Zeros(8), x)) == x
    ensures Receive(c, Decypher, Zeros(8), Send(c, Encypher, Zeros(8), x)) == x
  {
    ReceiveInvertsSend(c, Decypher, Zeros(8), x);
    ReceiveInvertsSend(c, Encypher, Zeros(8), x);
  }
}
