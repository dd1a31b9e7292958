// Byte strings as the firmware handles them: octets, exclusive-or and
// little-endian integers.
module Bytes {
  type byte = bv8
  type bytes = seq<byte>

  function Zeros(n: nat): (r: bytes)
    ensures |r| == n
  {
    seq(n, _ => 0)
  }

  function Xor(a: bytes, b: bytes): (r: bytes)
    requires |a| == |b|
    ensures |r| == |a|
  {
    seq(|a|, i requires 0 <= i < |a| => a[i] ^ b[i])
  }

  lemma XorCancels(a: bytes, b: bytes)
    requires |a| == |b|
    ensures Xor(Xor(a, b), b) == a
  {
    forall i | 0 <= i < |a| ensures Xor(Xor(a, b), b)[i] == a[i] {
      BitsCancel(a[i], b[i]);
    }
  }

  lemma BitsCancel(x: byte, y: byte)
    ensures (x ^ y) ^ y == x
  {
  }

  lemma XorCommutes(a: bytes, b: bytes)
    requires |a| == |b|
    ensures Xor(a, b) == Xor(b, a)
  {
    forall i | 0 <= i < |a| ensures Xor(a, b)[i] == Xor(b, a)[i] {
      assert a[i] ^ b[i] == b[i] ^ a[i];
    }
  }

  lemma XorZero(a: bytes)
    ensures Xor(a, Zeros(|a|)) == a
  {
  }

  // The little-endian fields of the commands.
  function Le16(s: bytes): (r: nat)
    requires |s| >= 2
    ensures r < 0x1_0000
  {
    s[0] as nat + 256 * s[1] as nat
  }

  function Le24(s: bytes): (r: nat)
    requires |s| >= 3
    ensures r < 0x100_0000
  {
    Le16(s) + 0x1_0000 * s[2] as nat
  }
}
