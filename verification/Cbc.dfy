// Block chaining as armsrc/desfire_crypto.c runs it.  The ciphers themselves
// (AES, DES) stay opaque: all that is known of one is that enciphering and
// deciphering a block undo each other.
module Cbc {
  import opened Bytes

  function Times(n: nat, k: nat): nat {
    if k == 0 then 0 else n + Times(n, k - 1)
  }

  // A whole number of blocks.
  ghost predicate Whole(n: nat, len: nat) {
    exists k: nat :: Times(n, k) == len
  }

  datatype RawCipher = RawCipher(kbs: nat, enc: bytes -> bytes, dec: bytes -> bytes)

  ghost predicate IsPermutation(c: RawCipher) {
    && 8 <= c.kbs
    && (forall b: bytes {:trigger c.enc(b)} | |b| == c.kbs :: |c.enc(b)| == c.kbs && c.dec(c.enc(b)) == b)
    && (forall b: bytes {:trigger c.dec(b)} | |b| == c.kbs :: |c.dec(b)| == c.kbs && c.enc(c.dec(b)) == b)
  }

  type BlockCipher = c: RawCipher | IsPermutation(c) ghost witness RawCipher(8, b => b, b => b)

  // MCO_ENCYPHER and MCO_DECYPHER
  datatype Operation = Encypher | Decypher {
    function Inverse(): Operation {
      if Encypher? then Decypher else Encypher
    }
  }

  function Crypt(c: BlockCipher, op: Operation, b: bytes): (r: bytes)
    requires |b| == c.kbs
    ensures |r| == c.kbs
  {
    if op.Encypher? then c.enc(b) else c.dec(b)
  }

  lemma CryptInverse(c: BlockCipher, op: Operation, b: bytes)
    requires |b| == c.kbs
    ensures Crypt(c, op.Inverse(), Crypt(c, op, b)) == b
  {
  }

  // MCD_SEND: exclusive-or with the chaining block, then the cipher.
  function Send(c: BlockCipher, op: Operation, iv: bytes, x: bytes): (y: bytes)
    requires |iv| == c.kbs && Whole(c.kbs, |x|)
    ensures |y| == |x|
    decreases |x|
  {
    if x == [] then []
    else
      FirstBlock(c.kbs, |x|);
      var y := Crypt(c, op, Xor(x[..c.kbs], iv));
      y + Send(c, op, y, x[c.kbs..])
  }

  // MCD_RECEIVE: the cipher, then exclusive-or with the chaining block.
  function Receive(c: BlockCipher, op: Operation, iv: bytes, y: bytes): (x: bytes)
    requires |iv| == c.kbs && Whole(c.kbs, |y|)
    ensures |x| == |y|
    decreases |y|
  {
    if y == [] then []
    else
      FirstBlock(c.kbs, |y|);
      Xor(Crypt(c, op, y[..c.kbs]), iv) + Receive(c, op, y[..c.kbs], y[c.kbs..])
  }

  // The chaining block left behind: the last block on the wire, or the one
  // that was there when nothing was.
  function Carry(n: nat, iv: bytes, y: bytes): (r: bytes)
    requires 0 < n && |iv| == n && Whole(n, |y|)
    ensures |r| == n
  {
    if y == [] then iv else FirstBlock(n, |y|); y[|y| - n..]
  }

  lemma TailOfJoin(a: bytes, b: bytes, n: nat)
    requires n <= |b|
    ensures (a + b)[|a + b| - n..] == b[|b| - n..]
  {
  }

  lemma SplitJoin(a: bytes, b: bytes, n: nat)
    requires n <= |a|
    ensures (a + b)[..n] == a[..n] && (a + b)[n..] == a[n..] + b
  {
  }

  lemma {:induction false} TimesAdd(n: nat, j: nat, k: nat)
    ensures Times(n, j + k) == Times(n, j) + Times(n, k)
  {
    if j != 0 {
      TimesAdd(n, j - 1, k);
    }
  }

  lemma NoneIsWhole(n: nat)
    ensures Whole(n, 0)
  {
    assert Times(n, 0) == 0;
  }

  lemma OneIsWhole(n: nat)
    ensures Whole(n, n)
  {
    assert Times(n, 1) == n + Times(n, 0);
  }

  lemma WholeAdd(n: nat, a: nat, b: nat)
    requires Whole(n, a) && Whole(n, b)
    ensures Whole(n, a + b)
  {
    var j: nat :| Times(n, j) == a;
    var k: nat :| Times(n, k) == b;
    TimesAdd(n, j, k);
  }

  lemma WholeSubtract(n: nat, a: nat, b: nat)
    requires Whole(n, a) && Whole(n, b) && b <= a
    ensures Whole(n, a - b)
  {
    var j: nat :| Times(n, j) == a;
    var k: nat :| Times(n, k) == b;
    if k <= j {
      TimesAdd(n, k, j - k);
    } else {
      TimesAdd(n, j, k - j);
      NoneIsWhole(n);
    }
  }

  lemma FirstBlock(n: nat, a: nat)
    requires 0 < a && Whole(n, a)
    ensures n <= a && Whole(n, a - n)
  {
    var k: nat :| Times(n, k) == a;
    assert Times(n, k) == n + Times(n, k - 1);
  }

  // The tests the code makes, with the remainder operator.
  lemma {:induction false} TimesIsMultiple(n: nat, k: nat)
    requires 0 < n
    ensures Times(n, k) % n == 0
  {
    if k != 0 {
      TimesIsMultiple(n, k - 1);
      ModStep(n, Times(n, k - 1));
    }
  }

  lemma {:induction false} QuotientTimes(n: nat, q: nat)
    requires 0 < n
    ensures Times(n, q) == n * q
  {
    if q != 0 {
      QuotientTimes(n, q - 1);
      assert n * q == n * (q - 1) + n;
    }
  }

  lemma WholeIsMultiple(n: nat, len: nat)
    requires 0 < n
    ensures Whole(n, len) <==> len % n == 0
  {
    if Whole(n, len) {
      var k: nat :| Times(n, k) == len;
      TimesIsMultiple(n, k);
    }
    if len % n == 0 {
      QuotientTimes(n, len / n);
      assert len == n * (len / n);
    }
  }

  lemma ModStep(n: nat, a: nat)
    requires 0 < n
    ensures (a + n) % n == a % n
  {
    QuotientUnique(n, a + n, a / n + 1, a % n);
  }

  lemma QuotientUnique(n: nat, a: nat, q: nat, r: nat)
    requires 0 < n && a == n * q + r && r < n
    ensures a % n == r
  {
    var d := a / n - q;
    assert n * d == r - a % n;
    ProductSign(n, d);
  }

  lemma ProductSign(n: nat, d: int)
    requires 0 < n
    ensures 0 < d ==> n <= n * d
    ensures d < 0 ==> n * d + n <= 0
  {
  }

  lemma CarryAppend(n: nat, iv: bytes, a: bytes, b: bytes)
    requires 0 < n && |iv| == n && Whole(n, |a|) && Whole(n, |b|)
    ensures Whole(n, |a + b|)
    ensures Carry(n, iv, a + b) == Carry(n, Carry(n, iv, a), b)
  {
    WholeAdd(n, |a|, |b|);
    if b == [] {
      assert a + b == a;
    } else {
      FirstBlock(n, |b|);
      TailOfJoin(a, b, n);
    }
  }

  lemma HeadAndRest(head: bytes, rest: bytes)
    ensures (head + rest)[..|head|] == head && (head + rest)[|head|..] == rest
  {
  }

  // Deciphering what was enciphered from the same chaining block gives the
  // data back, for both pairings: CBC proper (Encypher then Decypher) and the
  // legacy scheme, whose reader deciphers to send and whose card only enciphers.
  lemma SendCons(c: BlockCipher, op: Operation, iv: bytes, block: bytes, rest: bytes)
    requires |iv| == |block| == c.kbs && Whole(c.kbs, |rest|)
    ensures Whole(c.kbs, |block + rest|)
    ensures var y := Crypt(c, op, Xor(block, iv)); Send(c, op, iv, block + rest) == y + Send(c, op, y, rest)
  {
    OneIsWhole(c.kbs);
    WholeAdd(c.kbs, c.kbs, |rest|);
    HeadAndRest(block, rest);
  }

  lemma ReceiveCons(c: BlockCipher, op: Operation, iv: bytes, block: bytes, rest: bytes)
    requires |iv| == |block| == c.kbs && Whole(c.kbs, |rest|)
    ensures Whole(c.kbs, |block + rest|)
    ensures Receive(c, op, iv, block + rest) == Xor(Crypt(c, op, block), iv) + Receive(c, op, block, rest)
  {
    OneIsWhole(c.kbs);
    WholeAdd(c.kbs, c.kbs, |rest|);
    HeadAndRest(block, rest);
  }

  lemma {:induction false} ReceiveInvertsSend(c: BlockCipher, op: Operation, iv: bytes, x: bytes)
    requires |iv| == c.kbs && Whole(c.kbs, |x|)
    ensures Receive(c, op.Inverse(), iv, Send(c, op, iv, x)) == x
    decreases |x|
  {
    if x != [] {
      hide Send, Receive, Xor, Whole, Crypt;
      FirstBlock(c.kbs, |x|);
      var block, rest := x[..c.kbs], x[c.kbs..];
      assert block + rest == x;
      var w := Xor(block, iv);
      var y := Crypt(c, op, w);
      SendCons(c, op, iv, block, rest);
      ReceiveCons(c, op.Inverse(), iv, y, Send(c, op, y, rest));
      CryptInverse(c, op, w);
      XorCancels(block, iv);
      ReceiveInvertsSend(c, op, y, rest);
    }
  }

  lemma {:induction false} SendInvertsReceive(c: BlockCipher, op: Operation, iv: bytes, y: bytes)
    requires |iv| == c.kbs && Whole(c.kbs, |y|)
    ensures Send(c, op.Inverse(), iv, Receive(c, op, iv, y)) == y
    decreases |y|
  {
    if y != [] {
      hide Send, Receive, Xor, Whole, Crypt;
      FirstBlock(c.kbs, |y|);
      var block, rest := y[..c.kbs], y[c.kbs..];
      assert block + rest == y;
      var w := Crypt(c, op, block);
      ReceiveCons(c, op, iv, block, rest);
      SendCons(c, op.Inverse(), iv, Xor(w, iv), Receive(c, op, block, rest));
      CryptInverse(c, op, block);
      XorCancels(w, iv);
      SendInvertsReceive(c, op, block, rest);
    }
  }

  // The chaining block a run leaves behind, block by block.
  function After(c: BlockCipher, op: Operation, iv: bytes, x: bytes): (r: bytes)
    requires |iv| == c.kbs && Whole(c.kbs, |x|)
    ensures |r| == c.kbs
    decreases |x|
  {
    if x == [] then iv
    else
      FirstBlock(c.kbs, |x|);
      After(c, op, Crypt(c, op, Xor(x[..c.kbs], iv)), x[c.kbs..])
  }

  lemma {:induction false} AfterIsCarry(c: BlockCipher, op: Operation, iv: bytes, x: bytes)
    requires |iv| == c.kbs && Whole(c.kbs, |x|)
    ensures After(c, op, iv, x) == Carry(c.kbs, iv, Send(c, op, iv, x))
    decreases |x|
  {
    if x != [] {
      FirstBlock(c.kbs, |x|);
      var y := Crypt(c, op, Xor(x[..c.kbs], iv));
      AfterIsCarry(c, op, y, x[c.kbs..]);
      CarryFirst(c.kbs, iv, y, Send(c, op, y, x[c.kbs..]));
    }
  }

  lemma {:induction false} SendJoins(c: BlockCipher, op: Operation, iv: bytes, a: bytes, b: bytes)
    requires |iv| == c.kbs && Whole(c.kbs, |a|) && Whole(c.kbs, |b|)
    ensures Whole(c.kbs, |a + b|)
    ensures Send(c, op, iv, a + b) == Send(c, op, iv, a) + Send(c, op, After(c, op, iv, a), b)
    ensures After(c, op, iv, a + b) == After(c, op, After(c, op, iv, a), b)
    decreases |a|
  {
    hide Xor, Whole;
    WholeAdd(c.kbs, |a|, |b|);
    if a == [] {
      assert a + b == b;
    } else {
      FirstBlock(c.kbs, |a|);
      SplitJoin(a, b, c.kbs);
      SendJoins(c, op, Crypt(c, op, Xor(a[..c.kbs], iv)), a[c.kbs..], b);
    }
  }

  // One chain over joined data is two chains with the chaining block carried.
  lemma SendAppend(c: BlockCipher, op: Operation, iv: bytes, a: bytes, b: bytes)
    requires |iv| == c.kbs && Whole(c.kbs, |a|) && Whole(c.kbs, |b|)
    ensures Whole(c.kbs, |a + b|)
    ensures Send(c, op, iv, a + b) == Send(c, op, iv, a) + Send(c, op, Carry(c.kbs, iv, Send(c, op, iv, a)), b)
  {
    AfterIsCarry(c, op, iv, a);
    SendJoins(c, op, iv, a, b);
  }

  lemma CarryFirst(n: nat, iv: bytes, y: bytes, rest: bytes)
    requires 0 < n && |iv| == n && |y| == n && Whole(n, |rest|)
    ensures Whole(n, |y + rest|) && Carry(n, iv, y + rest) == Carry(n, y, rest)
  {
    OneIsWhole(n);
    CarryAppend(n, iv, y, rest);
    assert Carry(n, iv, y) == y;
  }

  lemma ReceiveAppend(c: BlockCipher, op: Operation, iv: bytes, a: bytes, b: bytes)
    requires |iv| == c.kbs && Whole(c.kbs, |a|) && Whole(c.kbs, |b|)
    ensures Whole(c.kbs, |a + b|)
    ensures Receive(c, op, iv, a + b) == Receive(c, op, iv, a) + Receive(c, op, Carry(c.kbs, iv, a), b)
  {
    var inv := op.Inverse();
    var x, z := Receive(c, op, iv, a), Receive(c, op, Carry(c.kbs, iv, a), b);
    SendInvertsReceive(c, op, iv, a);
    SendInvertsReceive(c, op, Carry(c.kbs, iv, a), b);
    SendAppend(c, inv, iv, x, z);
    ReceiveInvertsSend(c, inv, iv, x + z);
  }

  lemma ReceiveOne(c: BlockCipher, op: Operation, iv: bytes, block: bytes)
    requires |iv| == |block| == c.kbs
    ensures Whole(c.kbs, |block|)
    ensures Receive(c, op, iv, block) == Xor(Crypt(c, op, block), iv)
  {
    OneIsWhole(c.kbs);
    assert block[..c.kbs] == block && block[c.kbs..] == [];
  }

  // What one more block adds to a running chain.
  lemma SendSnoc(c: BlockCipher, op: Operation, iv: bytes, a: bytes, block: bytes)
    requires |iv| == c.kbs && Whole(c.kbs, |a|) && |block| == c.kbs
    ensures Whole(c.kbs, |a + block|)
    ensures var y := Send(c, op, iv, a);
      var last := Crypt(c, op, Xor(block, Carry(c.kbs, iv, y)));
      Send(c, op, iv, a + block) == y + last && Carry(c.kbs, iv, y + last) == last
  {
    var y := Send(c, op, iv, a);
    var last := Crypt(c, op, Xor(block, Carry(c.kbs, iv, y)));
    OneIsWhole(c.kbs);
    SendAppend(c, op, iv, a, block);
    assert block[..c.kbs] == block;
    CarryAppend(c.kbs, iv, y, last);
  }

  lemma ReceiveSnoc(c: BlockCipher, op: Operation, iv: bytes, a: bytes, block: bytes)
    requires |iv| == c.kbs && Whole(c.kbs, |a|) && |block| == c.kbs
    ensures Whole(c.kbs, |a + block|)
    ensures Receive(c, op, iv, a + block) == Receive(c, op, iv, a) + Xor(Crypt(c, op, block), Carry(c.kbs, iv, a))
    ensures Carry(c.kbs, iv, a + block) == block
  {
    OneIsWhole(c.kbs);
    ReceiveOne(c, op, Carry(c.kbs, iv, a), block);
    ReceiveAppend(c, op, iv, a, block);
    CarryAppend(c.kbs, iv, a, block);
  }
}
