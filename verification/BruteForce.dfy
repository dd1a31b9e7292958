// The nonces that bruteforce of armsrc/em4x70.c tries: a 16-bit guess added into
// a 56-bit number whose bytes travel bit-reversed.
module BruteForce {
  import opened Octets

  // ---- bit reversal

  // The eight bits of a byte, lowest first.
  datatype Bits = Bits(b0: nat, b1: nat, b2: nat, b3: nat, b4: nat, b5: nat, b6: nat, b7: nat)

  predicate IsBits(b: Bits) {
    b.b0 < 2 && b.b1 < 2 && b.b2 < 2 && b.b3 < 2 && b.b4 < 2 && b.b5 < 2 && b.b6 < 2 && b.b7 < 2
  }

  function BitsOf(x: octet): (b: Bits)
    ensures IsBits(b)
  {
    var x1 := x / 2;
    var x2 := x1 / 2;
    var x3 := x2 / 2;
    var x4 := x3 / 2;
    var x5 := x4 / 2;
    var x6 := x5 / 2;
    Bits(x % 2, x1 % 2, x2 % 2, x3 % 2, x4 % 2, x5 % 2, x6 % 2, x6 / 2 % 2)
  }

  function Byte(b: Bits): octet
    requires IsBits(b)
  {
    b.b0 + 2 * b.b1 + 4 * b.b2 + 8 * b.b3 + 16 * b.b4 + 32 * b.b5 + 64 * b.b6 + 128 * b.b7
  }

  function Turned(b: Bits): Bits { Bits(b.b7, b.b6, b.b5, b.b4, b.b3, b.b2, b.b1, b.b0) }

  // reflect8
  function Reflect8(x: octet): octet { Byte(Turned(BitsOf(x))) }

  lemma ByteBack(x: octet)
    ensures Byte(BitsOf(x)) == x
  {
    var x1 := x / 2;
    var x2 := x1 / 2;
    var x3 := x2 / 2;
    var x4 := x3 / 2;
    var x5 := x4 / 2;
    var x6 := x5 / 2;
    Parts(x);
    Parts(x1);
    Parts(x2);
    Parts(x3);
    Parts(x4);
    Parts(x5);
    Parts(x6);
    Small(x6 / 2);
    Nested(BitsOf(x), x, x1, x2, x3, x4, x5, x6);
  }

  lemma Parts(x: nat)
    ensures x == x % 2 + 2 * (x / 2)
  {
  }

  lemma Small(x: nat)
    requires x < 2
    ensures x % 2 == x
  {
  }

  lemma Nested(b: Bits, x: nat, x1: nat, x2: nat, x3: nat, x4: nat, x5: nat, x6: nat)
    requires IsBits(b)
    requires x == b.b0 + 2 * x1 && x1 == b.b1 + 2 * x2 && x2 == b.b2 + 2 * x3 && x3 == b.b3 + 2 * x4
    requires x4 == b.b4 + 2 * x5 && x5 == b.b5 + 2 * x6 && x6 == b.b6 + 2 * b.b7
    ensures x == b.b0 + 2 * b.b1 + 4 * b.b2 + 8 * b.b3 + 16 * b.b4 + 32 * b.b5 + 64 * b.b6 + 128 * b.b7
  {
  }

  lemma Half(b: nat, rest: nat)
    requires b < 2
    ensures (b + 2 * rest) / 2 == rest && (b + 2 * rest) % 2 == b
  {
  }

  lemma BitsBack(b: Bits)
    requires IsBits(b)
    ensures BitsOf(Byte(b)) == b
  {
    var x6 := b.b6 + 2 * b.b7;
    var x5 := b.b5 + 2 * x6;
    var x4 := b.b4 + 2 * x5;
    var x3 := b.b3 + 2 * x4;
    var x2 := b.b2 + 2 * x3;
    var x1 := b.b1 + 2 * x2;
    assert Byte(b) == b.b0 + 2 * x1;
    Half(b.b0, x1);
    Half(b.b1, x2);
    Half(b.b2, x3);
    Half(b.b3, x4);
    Half(b.b4, x5);
    Half(b.b5, x6);
    Half(b.b6, b.b7);
  }

  // reflect8 as it is written: five copies of the byte side by side, one bit of
  // each place kept, and 2^10 is 1 modulo 1023.
  const COPIES := 0x0202020202

  function Kept(p: nat, d: nat): nat
    requires 0 < d
  {
    p / d % 2 * d
  }

  // p & 0x010884422010
  function Masked(p: nat): nat {
    Kept(p, 0x10) + Kept(p, 0x2000) + Kept(p, 0x2_0000) + Kept(p, 0x40_0000)
    + Kept(p, 0x400_0000) + Kept(p, 0x8000_0000) + Kept(p, 0x8_0000_0000) + Kept(p, 0x100_0000_0000)
  }

  function Reflect8Code(x: octet): nat { Masked(x * COPIES) % 1023 }

  lemma Quotient(n: nat, q: nat, r: nat)
    requires r < n
    ensures (n * q + r) / n == q
  {
    var p := n * q + r;
    Between(n, q - p / n, p % n - r);
  }

  lemma Between(n: nat, k: int, d: int)
    requires n * k == d && d < n && 0 < n + d
    ensures k == 0
  {
  }

  lemma Even(h: nat, e: nat)
    ensures (h + 2 * e) % 2 == h % 2
  {
  }

  lemma Place4(x: octet)
    ensures x * COPIES / 0x10 % 2 == x / 8 % 2
  {
    var e := 16 * (16843009 * x);
    Quotient(0x10, x / 8 + 2 * e, 2 * (x % 8));
    Even(x / 8, e);
  }

  lemma Place13(x: octet)
    ensures x * COPIES / 0x2000 % 2 == x / 16 % 2
  {
    var e := 8 * (65793 * x);
    Quotient(0x2000, x / 16 + 2 * e, 512 * (x % 16) + 2 * x);
    Even(x / 16, e);
  }

  lemma Place17(x: octet)
    ensures x * COPIES / 0x2_0000 % 2 == x % 2
  {
    var e := 128 * (257 * x);
    Quotient(0x2_0000, x + 2 * e, 0 + 514 * x);
    Even(x, e);
  }

  lemma Place22(x: octet)
    ensures x * COPIES / 0x40_0000 % 2 == x / 32 % 2
  {
    var e := 4 * (257 * x);
    Quotient(0x40_0000, x / 32 + 2 * e, 131072 * (x % 32) + 514 * x);
    Even(x / 32, e);
  }

  lemma Place26(x: octet)
    ensures x * COPIES / 0x400_0000 % 2 == x / 2 % 2
  {
    var e := 64 * (1 * x);
    Quotient(0x400_0000, x / 2 + 2 * e, 33554432 * (x % 2) + 131586 * x);
    Even(x / 2, e);
  }

  lemma Place31(x: octet)
    ensures x * COPIES / 0x8000_0000 % 2 == x / 64 % 2
  {
    var e := 2 * (1 * x);
    Quotient(0x8000_0000, x / 64 + 2 * e, 33554432 * (x % 64) + 131586 * x);
    Even(x / 64, e);
  }

  lemma Place35(x: octet)
    ensures x * COPIES / 0x8_0000_0000 % 2 == x / 4 % 2
  {
    Quotient(0x8_0000_0000, x / 4, 8589934592 * (x % 4) + 33686018 * x);
  }

  lemma Place40(x: octet)
    ensures x * COPIES / 0x100_0000_0000 % 2 == x / 128 % 2
  {
    Quotient(0x100_0000_0000, x / 128, 8589934592 * (x % 128) + 33686018 * x);
  }
  // A sum of bits at those places, modulo 1023.
  lemma Folded(b: Bits)
    requires IsBits(b)
    ensures (b.b3 * 0x10 + b.b4 * 0x2000 + b.b0 * 0x2_0000 + b.b5 * 0x40_0000 + b.b1 * 0x400_0000
             + b.b6 * 0x8000_0000 + b.b2 * 0x8_0000_0000 + b.b7 * 0x100_0000_0000) % 1023 == Byte(Turned(b))
  {
    var k := 8 * b.b4 + 128 * b.b0 + 4100 * b.b5 + 65600 * b.b1 + 2099202 * b.b6 + 33587232 * b.b2 + 1074791425 * b.b7;
    var sum := b.b3 * 0x10 + b.b4 * 0x2000 + b.b0 * 0x2_0000 + b.b5 * 0x40_0000 + b.b1 * 0x400_0000
      + b.b6 * 0x8000_0000 + b.b2 * 0x8_0000_0000 + b.b7 * 0x100_0000_0000;
    assert sum == 1023 * k + Byte(Turned(b));
    Leftover(k, Byte(Turned(b)));
  }

  lemma Leftover(k: nat, r: nat)
    requires r < 1023
    ensures (1023 * k + r) % 1023 == r
  {
  }

  // The one-liner reverses the bits of every byte.
  lemma CodeReflects(x: octet)
    ensures Reflect8Code(x) == Reflect8(x)
  {
    hide Byte;
    var b := BitsOf(x);
    Places(x, b);
    Folded(b);
  }


  lemma Places(x: octet, b: Bits)
    requires b == BitsOf(x)
    ensures Masked(x * COPIES) == b.b3 * 0x10 + b.b4 * 0x2000 + b.b0 * 0x2_0000 + b.b5 * 0x40_0000 + b.b1 * 0x400_0000
      + b.b6 * 0x8000_0000 + b.b2 * 0x8_0000_0000 + b.b7 * 0x100_0000_0000
  {
    Place4(x);
    Place13(x);
    Place17(x);
    Place22(x);
    Place26(x);
    Place31(x);
    Place35(x);
    Place40(x);
    Shifts(x);
  }

  // Shifting bit by bit is dividing at once.
  lemma Shifts(x: octet)
    ensures var b := BitsOf(x);
      && b.b0 == x % 2 && b.b1 == x / 2 % 2 && b.b2 == x / 4 % 2 && b.b3 == x / 8 % 2
      && b.b4 == x / 16 % 2 && b.b5 == x / 32 % 2 && b.b6 == x / 64 % 2 && b.b7 == x / 128 % 2
  {
    Twice(x, 2);
    Twice(x, 4);
    Twice(x, 8);
    Twice(x, 16);
    Twice(x, 32);
    Twice(x, 64);
  }

  lemma Twice(x: nat, d: nat)
    requires d in {2, 4, 8, 16, 32, 64}
    ensures x / d / 2 == x / (2 * d)
  {
  }

  lemma ReflectTwice(x: octet)
    ensures Reflect8(Reflect8(x)) == x
  {
    hide BitsOf, Byte;
    BitsBack(Turned(BitsOf(x)));
    ByteBack(x);
  }

  // reflect16
  function Reflect16(v: nat): (r: nat)
    requires v < 0x1_0000
    ensures r < 0x1_0000
  {
    256 * Reflect8(v % 256) + Reflect8(v / 256)
  }

  lemma ReflectInjective(a: nat, b: nat)
    requires a < 0x1_0000 && b < 0x1_0000 && Reflect16(a) == Reflect16(b)
    ensures a == b
  {
    hide Reflect8;
    ReflectTwice(a % 256);
    ReflectTwice(a / 256);
    ReflectTwice(b % 256);
    ReflectTwice(b / 256);
    assert Reflect8(a % 256) == Reflect8(b % 256);
  }

  // ---- seven bytes as a number

  const P56 := 0x100_0000_0000_0000

  function Reflected(s: seq<octet>): (r: seq<octet>)
    ensures |r| == |s|
  {
    seq(|s|, i requires 0 <= i < |s| => Reflect8(s[i]))
  }

  // Bit-reversed, the bytes of a nonce are a little-endian number.
  function Value(nonce: seq<octet>): nat { Number(Reflected(nonce)) }

  // ---- the addition

  // What the chain of set_byte calls leaves: x added to the number from its
  // first byte on, carried upwards and off the end.
  function Plus(s: seq<octet>, x: nat): (r: seq<octet>)
    ensures |r| == |s|
    decreases |s|
  {
    if s == [] then [] else [(s[0] + x) % 256] + Plus(s[1..], (s[0] + x) / 256)
  }

  // What falls off the end.
  function Over(s: seq<octet>, x: nat): nat
    decreases |s|
  {
    if s == [] then x else Over(s[1..], (s[0] + x) / 256)
  }

  lemma {:induction false} PlusAdds(s: seq<octet>, x: nat)
    ensures Number(Plus(s, x)) + Power(|s|) * Over(s, x) == Number(s) + x
    decreases |s|
  {
    if s != [] {
      var d := s[0] + x;
      PlusAdds(s[1..], d / 256);
      assert Plus(s, x)[1..] == Plus(s[1..], d / 256);
      Shifted(Power(|s| - 1), Over(s, x));
    }
  }

  lemma Shifted(p: nat, o: nat)
    ensures (256 * p) * o == 256 * (p * o)
  {
  }

  lemma {:induction false} NumberBound(s: seq<octet>)
    ensures Number(s) < Power(|s|)
    decreases |s|
  {
    if s != [] {
      NumberBound(s[1..]);
    }
  }

  lemma {:induction false} NumberJoins(a: seq<octet>, b: seq<octet>)
    ensures Number(a + b) == Number(a) + Power(|a|) * Number(b)
    decreases |a|
  {
    if a == [] {
      assert a + b == b;
    } else {
      assert (a + b)[1..] == a[1..] + b && (a + b)[0] == a[0];
      NumberJoins(a[1..], b);
      Digit(a[0], Number(a[1..] + b), Number(a[1..]), Power(|a| - 1), Number(b));
    }
  }

  // One digit put in front of a joined number.
  lemma Digit(d: nat, whole: nat, front: nat, p: nat, back: nat)
    requires whole == front + p * back
    ensures d + 256 * whole == d + 256 * front + (256 * p) * back
  {
    Shifted(p, back);
  }

  // ---- the nonces

  // Where in the nonce the guess is added: blocks 9, 8 and 7 hold the key's
  // 16-bit pieces.
  function Offset(address: nat): nat
    requires 7 <= address <= 9
  {
    2 * (9 - address)
  }

  function NonceFor(address: nat, rnd: seq<octet>, k: nat): (r: seq<octet>)
    requires 7 <= address <= 9 && |rnd| == 7 && k < 0x1_0000
    ensures |r| == 7
  {
    var at := Offset(address);
    rnd[..at] + Reflected(Plus(Reflected(rnd)[at..], Reflect16(k)))
  }

  lemma {:induction false} ReflectedTwice(s: seq<octet>)
    ensures Reflected(Reflected(s)) == s
  {
    hide Reflect8;
    forall i | 0 <= i < |s| ensures Reflected(Reflected(s))[i] == s[i] {
      ReflectTwice(s[i]);
    }
  }

  // Read as a number, every nonce is the original plus the reflected guess at
  // the block's place, modulo 2^56.
  lemma NonceValue(address: nat, rnd: seq<octet>, k: nat)
    requires 7 <= address <= 9 && |rnd| == 7 && k < 0x1_0000
    ensures Value(NonceFor(address, rnd, k)) == (Value(rnd) + Power(Offset(address)) * Reflect16(k)) % P56
  {
    hide Reflect8, Reflect16, Number, Plus, Power, Over;
    var at, rev, x := Offset(address), Reflected(rnd), Reflect16(k);
    var sum := Plus(rev[at..], x);
    ReflectedTwice(sum);
    assert Reflected(rnd[..at] + Reflected(sum)) == rev[..at] + Reflected(Reflected(sum));
    assert rev == rev[..at] + rev[at..];
    NumberJoins(rev[..at], rev[at..]);
    NumberJoins(rev[..at], sum);
    PlusAdds(rev[at..], x);
    NumberBound(rev[..at] + sum);
    Powers();
    Wraps(Power(at), Power(7 - at), Number(rev[..at]), Number(rev[at..]), x, Number(sum), Over(rev[at..], x));
  }

  lemma Wraps(p: nat, q: nat, lo: nat, hi: nat, x: nat, sum: nat, over: nat)
    requires p * q == P56 && sum + q * over == hi + x && lo + p * sum < P56
    ensures lo + p * sum == (lo + p * hi + p * x) % P56
  {
    assert p * sum + p * (q * over) == p * hi + p * x by {
      assert p * (sum + q * over) == p * (hi + x);
    }
    assert p * (q * over) == P56 * over;
    Modulo(lo + p * sum, over);
  }

  lemma Modulo(r: nat, n: nat)
    requires r < P56
    ensures (r + P56 * n) % P56 == r
  {
  }

  // No two guesses are tried under the same nonce.
  lemma NoncesDiffer(address: nat, rnd: seq<octet>, j: nat, k: nat)
    requires 7 <= address <= 9 && |rnd| == 7 && j < 0x1_0000 && k < 0x1_0000 && j != k
    ensures NonceFor(address, rnd, j) != NonceFor(address, rnd, k)
  {
    hide Reflect8, Reflect16, Number, Plus, Over;
    if NonceFor(address, rnd, j) == NonceFor(address, rnd, k) {
      NonceValue(address, rnd, j);
      NonceValue(address, rnd, k);
      Powers();
      var p := Power(Offset(address));
      SameShift(Value(rnd), p * Reflect16(j), p * Reflect16(k));
      assert Reflect16(j) == Reflect16(k);
      ReflectInjective(j, k);
    }
  }

  lemma SameShift(n: nat, a: nat, b: nat)
    requires a < P56 && b < P56 && (n + a) % P56 == (n + b) % P56
    ensures a == b
  {
  }

  // ---- the search

  // set_byte: the low byte goes in reflected, the carry comes back.
  method SetByte(nonce: array<octet>, i: nat, value: nat) returns (c: nat)
    requires i < nonce.Length && value < 512
    modifies nonce
    ensures nonce[..] == old(nonce[..])[i := Reflect8(value % 256)] && c == value / 256
  {
    nonce[i] := Reflect8(value % 256);
    c := if value > 0xFF then 1 else 0;
  }

  // Where the chain stands before byte i: what is left of the sum to add is x.
  ghost predicate Chain(start: seq<octet>, rev: seq<octet>, at: nat, key: nat, i: nat, x: nat, now: seq<octet>) {
    && at <= i <= |rev| == |start| == |now|
    && now[..i] == start[..at] + Reflected(Plus(rev[at..], key)[..i - at])
    && Plus(rev[at..], key)[i - at..] == Plus(rev[i..], x)
  }

  lemma ChainOn(start: seq<octet>, rev: seq<octet>, at: nat, key: nat, i: nat, x: nat, now: seq<octet>)
    requires i < |rev| && Chain(start, rev, at, key, i, x, now)
    ensures Chain(start, rev, at, key, i + 1, (rev[i] + x) / 256, now[i := Reflect8((rev[i] + x) % 256)])
  {
    hide Reflect8;
    var sum, now' := Plus(rev[at..], key), now[i := Reflect8((rev[i] + x) % 256)];
    assert rev[i..][1..] == rev[i + 1..];
    var b := (rev[i] + x) % 256;
    assert sum[i - at] == sum[i - at..][0] == b;
    assert sum[i - at..][1..] == sum[i + 1 - at..];
    assert sum[..i + 1 - at] == sum[..i - at] + [b];
    assert Reflected(sum[..i + 1 - at]) == Reflected(sum[..i - at]) + [Reflect8(b)];
    assert now'[..i + 1] == now[..i] + [Reflect8(b)];
  }

  // One case of the switch: the guess goes into two bytes, its carry into the
  // rest.
  method AddKey(nonce: array<octet>, rev: seq<octet>, at: nat, key: nat)
    requires nonce.Length == |rev| == 7 && at <= 5 && key < 0x1_0000
    modifies nonce
    ensures nonce[..] == old(nonce[..])[..at] + Reflected(Plus(rev[at..], key))
  {
    hide Reflect8, Plus, Chain, Reflected;
    ghost var start := nonce[..];
    ChainStarts(start, rev, at, key);
    ChainOn(start, rev, at, key, at, key, nonce[..]);
    var c: nat := SetByte(nonce, at, rev[at] + key % 256);
    TwoBytes(rev[at], key);
    ChainOn(start, rev, at, key, at + 1, c + key / 256, nonce[..]);
    c := SetByte(nonce, at + 1, rev[at + 1] + c + key / 256);
    var i := at + 2;
    while i < 7
      invariant at + 2 <= i <= 7 && c < 2
      invariant Chain(start, rev, at, key, i, c, nonce[..])
    {
      ChainOn(start, rev, at, key, i, c, nonce[..]);
      c := SetByte(nonce, i, rev[i] + c);
      i := i + 1;
    }
    ChainEnds(start, rev, at, key, c, nonce[..]);
  }

  lemma TwoBytes(b: octet, key: nat)
    ensures (b + key) / 256 == (b + key % 256) / 256 + key / 256
    ensures (b + key) % 256 == (b + key % 256) % 256
  {
  }

  lemma ChainStarts(start: seq<octet>, rev: seq<octet>, at: nat, key: nat)
    requires at <= |rev| == |start|
    ensures Chain(start, rev, at, key, at, key, start)
  {
    assert Reflected(Plus(rev[at..], key)[..0]) == [];
    assert start[..at] == start[..at] + [];
  }

  lemma ChainEnds(start: seq<octet>, rev: seq<octet>, at: nat, key: nat, x: nat, now: seq<octet>)
    requires Chain(start, rev, at, key, |rev|, x, now)
    ensures now == start[..at] + Reflected(Plus(rev[at..], key))
  {
    assert now[..|rev|] == now;
    assert Plus(rev[at..], key)[..|rev| - at] == Plus(rev[at..], key);
  }

  datatype Result = Found(hi: nat, lo: nat) | Interrupted | Failed

  // bruteforce: which tag answers, and when the user gives up, are inputs.  The
  // nonces sent are those of the guesses from the first one on, in order; it
  // stops at the first that is accepted, and only without one or an
  // interruption has it been through them all.
  method BruteForceKey(address: nat, rnd: seq<octet>, startKey: nat, accepts: seq<octet> -> bool, stops: nat -> bool)
    returns (result: Result, tried: nat)
    requires |rnd| == 7 && startKey < 0x1_0000
    ensures !(7 <= address <= 9) ==> result == Failed && tried == 0
    ensures startKey + tried <= 0x1_0000
    ensures 7 <= address <= 9 ==>
      && (forall k :: startKey <= k < startKey + tried - 1 ==> !accepts(NonceFor(address, rnd, k)) && !stops(k))
      && (result.Found? ==> (
        var k := startKey + tried - 1;
        tried > 0 && accepts(NonceFor(address, rnd, k)) && result == Found(k / 256, k % 256)))
      && (result == Interrupted ==> tried > 0 && stops(startKey + tried - 1))
      && (result == Failed ==> (
        && startKey + tried == 0x1_0000
        && forall k :: startKey <= k < 0x1_0000 ==> !accepts(NonceFor(address, rnd, k))))
  {
    hide Reflect8, Plus, Reflect16;
    tried := 0;
    var rev := Reflected(rnd);
    var nonce := new octet[7](i requires 0 <= i < 7 => rnd[i]);
    assert nonce[..] == rnd;
    if !(7 <= address <= 9) {
      return Failed, 0;
    }
    var k := startKey;
    while k <= 0xFFFF
      invariant startKey <= k <= 0x1_0000 && tried == k - startKey
      invariant nonce[..Offset(address)] == rnd[..Offset(address)]
      invariant forall j :: startKey <= j < k ==> !accepts(NonceFor(address, rnd, j)) && !stops(j)
    {
      AddKey(nonce, rev, Offset(address), Reflect16(k));
      assert nonce[..] == NonceFor(address, rnd, k);
      assert nonce[..Offset(address)] == nonce[..][..Offset(address)];
      tried := tried + 1;
      if accepts(nonce[..]) {
        return Found(k / 256, k % 256), tried;
      }
      if stops(k) {
        return Interrupted, tried;
      }
      k := k + 1;
    }
    result := Failed;
  }
}
