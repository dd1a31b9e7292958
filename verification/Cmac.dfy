// The CMAC of sections 6.1 and 6.2 of NIST SP 800-38B, and the one-shot
// implementations of it: cmac() of armsrc/desfire_crypto.c, and the twins
// ulaes_cmac() and des3_cmac() of armsrc/cmac_calc.c and armsrc/cmac_3des.c.
module Cmac {
  import opened Bytes
  import opened Cbc
  import opened BlockCode

  // ---- the standard

  // An octet one bit to the left, with the top bit of the octet behind it.
  function ShiftIn(octet: byte, behind: byte): byte {
    (octet << 1) | (behind >> 7)
  }

  // The block one bit to the left, its first octet being the most significant.
  function ShiftLeft(s: bytes): (r: bytes)
    ensures |r| == |s|
  {
    seq(|s|, i requires 0 <= i < |s| => ShiftIn(s[i], if i + 1 < |s| then s[i + 1] else 0))
  }

  function Rb(n: nat): byte {
    if n == 8 then 0x1B else 0x87
  }

  // Steps 2 and 3 of section 6.1: shifted, with R_b folded in when a bit
  // falls off the top.
  function Subkey(s: bytes): (r: bytes)
    requires s != []
    ensures |r| == |s|
  {
    var t := ShiftLeft(s);
    if s[0] & 0x80 != 0 then t[|t| - 1 := t[|t| - 1] ^ Rb(|s|)] else t
  }

  function K1(c: BlockCipher): (r: bytes)
    ensures |r| == c.kbs
  {
    Subkey(Crypt(c, Encypher, Zeros(c.kbs)))
  }

  function K2(c: BlockCipher): (r: bytes)
    ensures |r| == c.kbs
  {
    Subkey(K1(c))
  }

  // Octets of a message in front of its last block.
  function Held(n: nat, len: nat): (h: nat)
    requires 0 < n
    ensures h <= len
    decreases len
  {
    if len <= n then 0 else n + Held(n, len - n)
  }

  function Pad(n: nat, t: bytes): (r: bytes)
    requires |t| < n
    ensures |r| == n
  {
    t + [0x80] + Zeros(n - 1 - |t|)
  }

  // Step 4 of section 6.2, on what is behind the Held octets.
  function LastBlock(c: BlockCipher, tail: bytes): (r: bytes)
    requires |tail| <= c.kbs
    ensures |r| == c.kbs
  {
    if |tail| == c.kbs then Xor(tail, K1(c)) else Xor(Pad(c.kbs, tail), K2(c))
  }

  // Step 6 of section 6.2: C_0 is the starting block, C_i enciphers C_(i-1)
  // exclusive-or M_i.
  function Chain(c: BlockCipher, start: bytes, x: bytes): (r: bytes)
    requires |start| == c.kbs && Whole(c.kbs, |x|)
    ensures |r| == c.kbs
    decreases |x|
  {
    if x == [] then start
    else
      FirstBlock(c.kbs, |x|);
      Crypt(c, Encypher, Xor(Chain(c, start, x[..|x| - c.kbs]), x[|x| - c.kbs..]))
  }

  // The MAC of m, chained from `start`.  NIST's is the one from zeros.
  function Mac(c: BlockCipher, start: bytes, m: bytes): (r: bytes)
    requires |start| == c.kbs
    ensures |r| == c.kbs
  {
    var h := Held(c.kbs, |m|);
    HeldFacts(c.kbs, |m|);
    Crypt(c, Encypher, Xor(Chain(c, start, m[..h]), LastBlock(c, m[h..])))
  }

  function NistCmac(c: BlockCipher, m: bytes): bytes {
    Mac(c, Zeros(c.kbs), m)
  }

  lemma {:induction false} HeldFacts(n: nat, len: nat)
    requires 0 < n
    ensures var h := Held(n, len); Whole(n, h) && len - h <= n && (0 < len ==> h < len)
    decreases len
  {
    if len <= n {
      NoneIsWhole(n);
    } else {
      HeldFacts(n, len - n);
      OneIsWhole(n);
      WholeAdd(n, n, Held(n, len - n));
    }
  }

  // Held is the only such split.
  lemma {:induction false} HeldUnique(n: nat, len: nat, h: nat)
    requires 0 < n && Whole(n, h) && h <= len <= h + n && (0 < len ==> h < len)
    ensures h == Held(n, len)
    decreases len
  {
    if 0 < h {
      FirstBlock(n, h);
      HeldUnique(n, len - n, h - n);
    }
  }

  // ---- the standard's chain is the firmware's CBC

  lemma ChainSnoc(c: BlockCipher, start: bytes, x: bytes, block: bytes)
    requires |start| == c.kbs && Whole(c.kbs, |x|) && |block| == c.kbs
    ensures Whole(c.kbs, |x + block|)
    ensures Chain(c, start, x + block) == Crypt(c, Encypher, Xor(Chain(c, start, x), block))
  {
    OneIsWhole(c.kbs);
    WholeAdd(c.kbs, |x|, c.kbs);
    assert (x + block)[..|x|] == x && (x + block)[|x|..] == block;
  }

  lemma {:induction false} ChainIsCarry(c: BlockCipher, start: bytes, x: bytes)
    requires |start| == c.kbs && Whole(c.kbs, |x|)
    ensures Carry(c.kbs, start, Send(c, Encypher, start, x)) == Chain(c, start, x)
    decreases |x|
  {
    if x != [] {
      FirstBlock(c.kbs, |x|);
      var a, block := x[..|x| - c.kbs], x[|x| - c.kbs..];
      assert x == a + block;
      ChainIsCarry(c, start, a);
      SendSnoc(c, Encypher, start, a, block);
      XorCommutes(block, Chain(c, start, a));
    }
  }

  // ---- the subkeys, computed two ways

  // lsl() of common/commonutil.c, from the front and in place.
  method Lsl(d: array<byte>)
    requires 0 < d.Length
    modifies d
    ensures d[..] == ShiftLeft(old(d[..]))
  {
    var n := d.Length;
    ghost var was := d[..];
    for i := 0 to n - 1
      invariant forall k :: 0 <= k < i ==> d[k] == ShiftIn(was[k], was[k + 1])
      invariant forall k :: i <= k < n ==> d[k] == was[k]
    {
      d[i] := ShiftIn(d[i], d[i + 1]);
    }
    ShiftInZero(d[n - 1]);
    d[n - 1] := d[n - 1] << 1;
  }

  lemma ShiftInZero(x: byte)
    ensures ShiftIn(x, 0) == x << 1
  {
  }

  // left_shift_128() and left_shift_64(), from the back into another buffer.
  method LeftShift(input: bytes) returns (output: array<byte>)
    requires 0 < |input|
    ensures fresh(output) && output[..] == ShiftLeft(input)
  {
    var n := |input|;
    output := new byte[n];
    var overflow: byte := 0;
    var i := n;
    while 0 < i
      invariant 0 <= i <= n
      invariant overflow == if i < n then TopBit(input[i]) else 0
      invariant forall k :: i <= k < n ==> output[k] == ShiftLeft(input)[k]
    {
      i := i - 1;
      TopBitShifts(input[i], if i + 1 < n then input[i + 1] else 0);
      output[i] := (input[i] << 1) | overflow;
      overflow := TopBit(input[i]);
    }
  }

  function TopBit(x: byte): byte {
    if x & 0x80 != 0 then 1 else 0
  }

  lemma TopBitShifts(x: byte, behind: byte)
    ensures ShiftIn(x, behind) == (x << 1) | TopBit(behind)
    ensures TopBit(0) == 0
  {
  }

  // cmac_generate_subkeys
  method GenerateSubkeys(c: BlockCipher) returns (sk1: array<byte>, sk2: array<byte>)
    ensures fresh(sk1) && fresh(sk2)
    ensures sk1[..] == K1(c) && sk2[..] == K2(c)
  {
    var r: byte := if c.kbs == 8 then 0x1B else 0x87;
    var l := new byte[c.kbs](_ => 0);
    var ivect := new byte[c.kbs](_ => 0);
    assert l[..] == Zeros(c.kbs) && ivect[..c.kbs] == Zeros(c.kbs);
    ReceiveOne(c, Encypher, Zeros(c.kbs), Zeros(c.kbs));
    XorZero(Crypt(c, Encypher, Zeros(c.kbs)));
    MifareCypherBlocksChained(c, ivect, l, MCD_RECEIVE, Encypher);

    sk1 := SubkeyOf(l[..], r);
    sk2 := SubkeyOf(sk1[..], r);
  }

  method SubkeyOf(from: bytes, r: byte) returns (sk: array<byte>)
    requires from != [] && r == Rb(|from|)
    ensures fresh(sk) && sk[..] == Subkey(from)
  {
    sk := new byte[|from|];
    Copy(sk, 0, from);
    assert sk[..] == from;
    var txor := sk[0] & 0x80 != 0;
    Lsl(sk);
    if txor {
      sk[sk.Length - 1] := sk[sk.Length - 1] ^ r;
    }
  }

  // ---- cmac(), in one buffer

  // padded_data_length
  function PaddedDataLength(nbytes: nat, blockSize: nat): (r: nat)
    requires 0 < blockSize
    ensures Whole(blockSize, r) && nbytes <= r <= nbytes + blockSize && 0 < r
    ensures nbytes != 0 ==> r < nbytes + blockSize
  {
    if nbytes == 0 || nbytes % blockSize != 0 then
      PaddedFacts(nbytes, blockSize);
      (nbytes / blockSize + 1) * blockSize
    else
      WholeIsMultiple(blockSize, nbytes);
      nbytes
  }

  lemma PaddedFacts(nbytes: nat, blockSize: nat)
    requires 0 < blockSize
    ensures var r := (nbytes / blockSize + 1) * blockSize;
      Whole(blockSize, r) && r == nbytes - nbytes % blockSize + blockSize
  {
    var q := nbytes / blockSize;
    assert (q + 1) * blockSize == blockSize * (q + 1) == blockSize * q + blockSize;
    QuotientTimes(blockSize, q + 1);
  }

  // The message with its last block made ready.
  function Prepared(c: BlockCipher, m: bytes): (r: bytes) {
    HeldFacts(c.kbs, |m|);
    m[..Held(c.kbs, |m|)] + LastBlock(c, m[Held(c.kbs, |m|)..])
  }

  lemma PreparedChains(c: BlockCipher, start: bytes, m: bytes)
    requires |start| == c.kbs
    ensures Whole(c.kbs, |Prepared(c, m)|)
    ensures Carry(c.kbs, start, Send(c, Encypher, start, Prepared(c, m))) == Mac(c, start, m)
  {
    var h := Held(c.kbs, |m|);
    HeldFacts(c.kbs, |m|);
    ChainSnoc(c, start, m[..h], LastBlock(c, m[h..]));
    ChainIsCarry(c, start, Prepared(c, m));
  }

  predicate NeedsPadding(n: nat, len: nat)
    requires 0 < n
  {
    len == 0 || len % n != 0
  }

  function PaddedMessage(n: nat, m: bytes): (r: bytes)
    requires 0 < n
    ensures |r| == PaddedDataLength(|m|, n)
  {
    if NeedsPadding(n, |m|) then
      RoomForPadding(|m|, n);
      m + [0x80] + Zeros(PaddedDataLength(|m|, n) - |m| - 1)
    else m
  }

  // A key exclusive-or the last block of a padded message.
  function Folded(p: bytes, k: bytes): bytes
    requires |k| <= |p|
  {
    p[..|p| - |k|] + Xor(p[|p| - |k|..], k)
  }

  lemma PreparedIsFolded(c: BlockCipher, m: bytes)
    ensures c.kbs <= |PaddedMessage(c.kbs, m)|
    ensures Prepared(c, m) == Folded(PaddedMessage(c.kbs, m), if NeedsPadding(c.kbs, |m|) then K2(c) else K1(c))
  {
    var n := PaddedDataLength(|m|, c.kbs);
    FirstBlock(c.kbs, n);
    if NeedsPadding(c.kbs, |m|) {
      PaddedSplit(c.kbs, m);
    } else {
      HeldUnique(c.kbs, |m|, |m| - c.kbs);
    }
  }

  lemma PaddedSplit(n: nat, m: bytes)
    requires 0 < n && NeedsPadding(n, |m|)
    ensures var p, h := PaddedMessage(n, m), Held(n, |m|);
      h == |p| - n && |m[h..]| < n && p[..h] == m[..h] && p[h..] == Pad(n, m[h..])
  {
    var p := PaddedMessage(n, m);
    FirstBlock(n, |p|);
    RoomForPadding(|m|, n);
    HeldUnique(n, |m|, |p| - n);
    assert p[|p| - n..] == Pad(n, m[|p| - n..]);
  }

  // The zeroed buffer with the message in it and, where needed, the padding.
  method PadOut(n: nat, data: bytes) returns (buffer: array<byte>)
    requires 0 < n
    ensures fresh(buffer) && buffer[..] == PaddedMessage(n, data)
  {
    buffer := new byte[PaddedDataLength(|data|, n)](_ => 0);
    Copy(buffer, 0, data);
    var len := |data|;
    if len == 0 || len % n != 0 {
      RoomForPadding(len, n);
      WholeIsMultiple(n, buffer.Length);
      buffer[len] := 0x80;
      len := len + 1;
      while len % n != 0
        invariant |data| < len <= buffer.Length
        invariant buffer[..len] == data + [0x80] + Zeros(len - |data| - 1)
        decreases buffer.Length - len
      {
        buffer[len] := 0x00;
        len := len + 1;
      }
      PaddingEnds(|data|, len, n);
    }
    assert buffer[..len] == buffer[..];
  }

  // cmac(): pad, fold the subkey in, run the chain over the lot.
  method OneShot(c: BlockCipher, sk1: array<byte>, sk2: array<byte>, ivect: array<byte>, data: bytes) returns (mac: bytes)
    requires sk1[..] == K1(c) && sk2[..] == K2(c) && c.kbs <= ivect.Length
    modifies ivect
    ensures mac == ivect[..c.kbs] == Mac(c, old(ivect[..c.kbs]), data)
  {
    var buffer := Prepare(c, sk1, sk2, data);
    PreparedChains(c, ivect[..c.kbs], data);
    MifareCypherBlocksChained(c, ivect, buffer, MCD_SEND, Encypher);
    mac := ivect[..c.kbs];
  }

  method Prepare(c: BlockCipher, sk1: array<byte>, sk2: array<byte>, data: bytes) returns (buffer: array<byte>)
    requires sk1[..] == K1(c) && sk2[..] == K2(c)
    ensures fresh(buffer) && buffer[..] == Prepared(c, data)
  {
    buffer := PadOut(c.kbs, data);
    PreparedIsFolded(c, data);
    if |data| == 0 || |data| % c.kbs != 0 {
      FoldIn(buffer, sk2);
    } else {
      FoldIn(buffer, sk1);
    }
  }

  method FoldIn(buffer: array<byte>, sk: array<byte>)
    requires sk.Length <= buffer.Length && buffer != sk
    modifies buffer
    ensures buffer[..] == Folded(old(buffer[..]), sk[..])
  {
    var at := buffer.Length - sk.Length;
    XorInto(buffer, at, sk, sk.Length);
    assert sk[..sk.Length] == sk[..];
    LastReplaced(old(buffer[..]), buffer[..], at);
  }

  lemma LastReplaced(was: bytes, now: bytes, at: nat)
    requires at <= |was| == |now| && now[..at] == was[..at]
    ensures now == was[..at] + now[at..|now|] && was[at..|was|] == was[at..]
  {
  }

  lemma RoomForPadding(len: nat, n: nat)
    requires 0 < n && NeedsPadding(n, len)
    ensures len < PaddedDataLength(len, n) <= len + n
  {
    PaddedFacts(len, n);
  }

  lemma PaddingEnds(data: nat, len: nat, n: nat)
    requires 0 < n && NeedsPadding(n, data)
    requires data < len <= PaddedDataLength(data, n) && len % n == 0
    ensures len == PaddedDataLength(data, n)
  {
    WholeIsMultiple(n, len);
    if len < PaddedDataLength(data, n) {
      RoomForBlock(n, PaddedDataLength(data, n), len);
      RoomForPadding(data, n);
    }
  }

  // ---- ulaes_cmac() and des3_cmac(), the same code at two block sizes

  lemma BlocksBeforeLast(n: nat, len: nat)
    requires 0 < n && 0 < len
    ensures 0 < (len + n - 1) / n && n * ((len + n - 1) / n - 1) == Held(n, len)
  {
    var q := (len + n - 1) / n;
    var r := (len + n - 1) % n;
    assert len + n - 1 == n * q + r;
    ProductSign(n, q);
    assert n * q - n == n * (q - 1);
    QuotientTimes(n, q - 1);
    HeldUnique(n, len, n * (q - 1));
  }

  method TwinCmac(c: BlockCipher, input: bytes) returns (output: bytes)
    ensures output == NistCmac(c, input)
  {
    var sk1, sk2 := TwinSubkeys(c);
    var nBlocks, last := TwinLast(c, input, sk1, sk2);
    HeldFacts(c.kbs, |input|);
    var X := TwinLoop(c, input, nBlocks);
    var Y := Xor(X, last);
    output := c.enc(Y);
  }

  lemma EmptyLast(c: BlockCipher, input: bytes)
    requires input == []
    ensures LastBlock(c, input) == Xor(Pad(c.kbs, input), K2(c))
  {
  }

  method TwinLast(c: BlockCipher, input: bytes, sk1: bytes, sk2: bytes) returns (nBlocks: nat, last: bytes)
    requires sk1 == K1(c) && sk2 == K2(c)
    ensures 0 < nBlocks && c.kbs * (nBlocks - 1) == Held(c.kbs, |input|)
    ensures |input| - Held(c.kbs, |input|) <= c.kbs && last == LastBlock(c, input[Held(c.kbs, |input|)..])
  {
    hide LastBlock, K2, K1, Xor;
    var n := c.kbs;
    nBlocks := (|input| + n - 1) / n;
    HeldFacts(n, |input|);
    if nBlocks == 0 {
      EmptyInput(n, |input|);
      nBlocks := 1;
      var buffer := [0x80] + Zeros(n - 1);
      assert buffer == Pad(n, input) && input[0..] == input;
      last := Xor(buffer, sk2);
      EmptyLast(c, input);
    } else {
      NonemptyInput(n, |input|);
      BlocksBeforeLast(n, |input|);
      LastIsWhole(n, |input|);
      last := TwinFold(c, |input| % n == 0, input[n * (nBlocks - 1)..], sk1, sk2);
    }
  }

  method TwinFold(c: BlockCipher, complete: bool, lastBlock: bytes, sk1: bytes, sk2: bytes) returns (last: bytes)
    requires sk1 == K1(c) && sk2 == K2(c)
    requires |lastBlock| <= c.kbs && (complete <==> |lastBlock| == c.kbs)
    ensures last == LastBlock(c, lastBlock)
  {
    if complete {
      last := Xor(lastBlock, sk1);
    } else {
      last := Xor(Pad(c.kbs, lastBlock), sk2);
    }
  }

  lemma LastIsWhole(n: nat, len: nat)
    requires 0 < n && 0 < len
    ensures len % n == 0 <==> len - Held(n, len) == n
  {
    WholeIsMultiple(n, len);
    HeldFacts(n, len);
    if len % n == 0 {
      RoomForBlock(n, len, Held(n, len));
    }
    if len - Held(n, len) == n {
      OneIsWhole(n);
      WholeAdd(n, Held(n, len), n);
    }
  }

  method TwinLoop(c: BlockCipher, input: bytes, nBlocks: nat) returns (X: bytes)
    requires 0 < nBlocks && c.kbs * (nBlocks - 1) <= |input|
    ensures Whole(c.kbs, c.kbs * (nBlocks - 1)) && X == Chain(c, Zeros(c.kbs), input[..c.kbs * (nBlocks - 1)])
  {
    var n := c.kbs;
    X := Zeros(n);
    NoneIsWhole(n);
    for i := 0 to nBlocks - 1
      invariant n * i <= |input| && Whole(n, n * i)
      invariant X == Chain(c, Zeros(n), input[..n * i])
    {
      StepWithin(n, i, nBlocks - 1);
      var at := n * i;
      var block := input[at..at + n];
      ChainSnoc(c, Zeros(n), input[..at], block);
      Extends(input, input, at, n);
      var Y := Xor(X, block);
      X := c.enc(Y);
    }
  }

  lemma EmptyInput(n: nat, len: nat)
    requires 0 < n && (len + n - 1) / n == 0
    ensures len == 0
  {
    if 0 < len {
      BlocksBeforeLast(n, len);
    }
  }

  lemma NonemptyInput(n: nat, len: nat)
    requires 0 < n && (len + n - 1) / n != 0
    ensures 0 < len
  {
    if len == 0 {
      SmallQuotient(n, n - 1);
    }
  }

  lemma SmallQuotient(n: nat, a: nat)
    requires a < n
    ensures a / n == 0
  {
  }

  lemma StepWithin(n: nat, i: nat, top: nat)
    requires 0 < n && i < top
    ensures n * (i + 1) == n * i + n && n * i + n <= n * top && Whole(n, n * (i + 1))
  {
    ProductSign(n, top - i);
    assert n * top == n * i + n * (top - i);
    QuotientTimes(n, i + 1);
  }

  method TwinSubkeys(c: BlockCipher) returns (k1: bytes, k2: bytes)
    ensures k1 == K1(c) && k2 == K2(c)
  {
    var l := c.enc(Zeros(c.kbs));
    k1 := TwinSubkey(l);
    k2 := TwinSubkey(k1);
  }

  method TwinSubkey(from: bytes) returns (k: bytes)
    requires from != []
    ensures k == Subkey(from)
  {
    var out := LeftShift(from);
    if from[0] & 0x80 != 0 {
      out[out.Length - 1] := out[out.Length - 1] ^ Rb(out.Length);
    }
    k := out[..];
  }
}
