// Bytes as numbers: stretches of memory, what a write to one does to the rest,
// and little-endian fields.
module Octets {
  type octet = x: int | 0 <= x < 256

  // ---- byte strings

  function Zeros(n: nat): (r: seq<octet>)
    ensures |r| == n
  {
    seq(n, _ => 0)
  }

  function Slice(m: seq<octet>, at: nat, n: nat): (r: seq<octet>)
    requires at + n <= |m|
    ensures |r| == n
  {
    m[at..at + n]
  }

  // memcpy, memset and memmove all come down to this.
  function Put(m: seq<octet>, at: nat, b: seq<octet>): (r: seq<octet>)
    requires at + |b| <= |m|
    ensures |r| == |m|
  {
    seq(|m|, k requires 0 <= k < |m| => if at <= k < at + |b| then b[k - at] else m[k])
  }

  lemma PutThere(m: seq<octet>, at: nat, b: seq<octet>)
    requires at + |b| <= |m|
    ensures Slice(Put(m, at, b), at, |b|) == b
  {
  }

  lemma PutElsewhere(m: seq<octet>, at: nat, b: seq<octet>, o: nat, n: nat)
    requires at + |b| <= |m| && o + n <= |m|
    requires o + n <= at || at + |b| <= o
    ensures Slice(Put(m, at, b), o, n) == Slice(m, o, n)
  {
  }

  lemma PutInside(m: seq<octet>, at: nat, n: nat, off: nat, b: seq<octet>)
    requires at + n <= |m| && off + |b| <= n
    ensures Slice(Put(m, at + off, b), at, n) == Put(Slice(m, at, n), off, b)
  {
  }

  lemma PutAll(a: seq<octet>, b: seq<octet>)
    requires |a| == |b|
    ensures Put(a, 0, b) == b
  {
  }

  lemma PutOnward(m: seq<octet>, at: nat, b: seq<octet>, c: seq<octet>)
    requires at + |b| + |c| <= |m|
    ensures Put(Put(m, at, b), at + |b|, c) == Put(m, at, b + c)
  {
  }

  lemma Within(m: seq<octet>, s: nat, m': seq<octet>, d: nat, n: nat, o: nat, w: nat)
    requires s + n <= |m| && d + n <= |m'| && o + w <= n
    requires Slice(m, s, n) == Slice(m', d, n)
    ensures Slice(m, s + o, w) == Slice(m', d + o, w)
  {
    var a, b := Slice(m, s + o, w), Slice(m', d + o, w);
    forall k | 0 <= k < w ensures a[k] == b[k] {
      assert Slice(m, s, n)[o + k] == m[s + o + k];
      assert Slice(m', d, n)[o + k] == m'[d + o + k];
    }
  }

  // ---- packed fields

  function Lo(v: nat): octet { v % 256 }
  function Hi(v: nat): octet { v / 256 % 256 }

  function Pair(lo: octet, hi: octet): nat { lo + 256 * hi }

  // Little-endian numbers of any length.
  function Number(s: seq<octet>): nat {
    if s == [] then 0 else s[0] + 256 * Number(s[1..])
  }

  function Digits(v: nat, n: nat): (r: seq<octet>)
    ensures |r| == n
  {
    if n == 0 then [] else [v % 256] + Digits(v / 256, n - 1)
  }

  function Power(n: nat): nat {
    if n == 0 then 1 else 256 * Power(n - 1)
  }

  lemma {:induction false} DigitsBack(v: nat, n: nat)
    requires v < Power(n)
    ensures Number(Digits(v, n)) == v
  {
    if n > 0 {
      DigitsBack(v / 256, n - 1);
      assert Digits(v, n)[1..] == Digits(v / 256, n - 1);
    }
  }

  lemma Powers()
    ensures Power(0) == 1 && Power(2) == 0x1_0000 && Power(3) == 0x100_0000 && Power(4) == 0x1_0000_0000
    ensures Power(5) == 0x100_0000_0000 && Power(7) == 0x100_0000_0000_0000
  {
    assert Power(1) == 256;
    assert Power(6) == 0x1_0000_0000_0000;
  }

  // Fields of three and four octets, and the same taken apart again.
  function Three(a: octet, b: octet, c: octet): nat { a + 0x100 * b + 0x1_0000 * c }

  function Four(a: octet, b: octet, c: octet, d: octet): nat { a + 0x100 * b + 0x1_0000 * c + 0x100_0000 * d }

  lemma ThreeBack(v: nat)
    requires v < 0x100_0000
    ensures var s := Digits(v, 3); Three(s[0], s[1], s[2]) == v
  {
    Powers();
    DigitsBack(v, 3);
    var s := Digits(v, 3);
    var t, u := s[1..], s[1..][1..];
    assert u[1..] == [];
    assert Number(u) == u[0] && Number(t) == t[0] + 256 * Number(u);
  }

  lemma FourBack(v: nat)
    requires v < 0x1_0000_0000
    ensures var s := Digits(v, 4); Four(s[0], s[1], s[2], s[3]) == v
  {
    Powers();
    DigitsBack(v, 4);
    var s := Digits(v, 4);
    var t, u, w := s[1..], s[1..][1..], s[1..][1..][1..];
    assert w[1..] == [];
    assert Number(w) == w[0] && Number(u) == u[0] + 256 * Number(w) && Number(t) == t[0] + 256 * Number(u);
  }

  // A 32-bit number read as two's complement.
  function Signed(v: nat): int {
    if v < 0x8000_0000 then v else v - 0x1_0000_0000
  }

  // A value taken modulo m, as unsigned arithmetic wraps it.
  function Wrap(v: nat, m: nat): (r: nat)
    requires 0 < m
    ensures r < m && r <= v
    ensures v < m ==> r == v
    ensures m <= v < 2 * m ==> r == v - m
  {
    if v < m then v else Wrap(v - m, m)
  }

  lemma PairBack(v: nat)
    requires v < 0x1_0000
    ensures Pair(Lo(v), Hi(v)) == v
  {
  }
}
