/** Octets, machine words as bounded integers, and the bit operations on them. */
module Bytes {

  type byte = x: int | 0 <= x < 256

  /** An IPv4 address. */
  type Ip = x: int | 0 <= x < 0x1_0000_0000

  /** Bitwise exclusive-or, one bit at a time from the low end. */
  function XorBits(a: nat, b: nat): (r: nat)
    decreases a + b
  {
    if a == 0 && b == 0 then 0 else (a + b) % 2 + 2 * XorBits(a / 2, b / 2)
  }

  /** Bitwise and, bitwise or. */
  function AndBits(a: nat, b: nat): (r: nat)
    decreases a + b
  {
    if a == 0 || b == 0 then 0
    else (if a % 2 == 1 && b % 2 == 1 then 1 else 0) + 2 * AndBits(a / 2, b / 2)
  }

  function OrBits(a: nat, b: nat): (r: nat)
    decreases a + b
  {
    if a == 0 && b == 0 then 0
    else (if a % 2 == 1 || b % 2 == 1 then 1 else 0) + 2 * OrBits(a / 2, b / 2)
  }

  function Pow2(k: nat): (r: nat)
    ensures r >= 1
  {
    if k == 0 then 1 else 2 * Pow2(k - 1)
  }

  lemma {:induction false} OrBitsZero(a: nat)
    ensures OrBits(a, 0) == a
    decreases a
  {
    if a != 0 {
      OrBitsZero(a / 2);
    }
  }

  /** Values with no bit in common: or is addition. */
  lemma {:induction false} OrBitsDisjoint(a: nat, b: nat, k: nat)
    requires b < Pow2(k)
    ensures OrBits(a * Pow2(k), b) == a * Pow2(k) + b
    decreases k
  {
    if k == 0 {
      OrBitsZero(a);
    } else {
      var x := a * Pow2(k - 1);
      assert a * Pow2(k) == 2 * x;
      OrBitsDisjoint(a, b / 2, k - 1);
    }
  }

  lemma {:induction false} XorBitsBound(a: nat, b: nat, k: nat)
    requires a < Pow2(k) && b < Pow2(k)
    ensures XorBits(a, b) < Pow2(k)
    decreases k
  {
    if k > 0 {
      XorBitsBound(a / 2, b / 2, k - 1);
    }
  }

  lemma ParityCancel(a: nat, b: nat, q: nat)
    ensures ((a + b) % 2 + 2 * q) / 2 == q
    ensures ((a + b) % 2 + 2 * q + b) % 2 == a % 2
  {
  }

  /** Exclusive-or with the same value twice is the identity. */
  lemma {:induction false} XorBitsCancel(a: nat, b: nat)
    ensures XorBits(XorBits(a, b), b) == a
    decreases a + b
  {
    if a != 0 || b != 0 {
      XorBitsCancel(a / 2, b / 2);
      var q := XorBits(a / 2, b / 2);
      ParityCancel(a, b, q);
    }
  }

  lemma Pow2Of8()
    ensures Pow2(8) == 256
  {
  }

  function Xor(a: byte, b: byte): (r: byte)
  {
    Pow2Of8();
    XorBitsBound(a, b, 8);
    XorBits(a, b)
  }

  lemma XorCancel(a: byte, b: byte)
    ensures Xor(Xor(a, b), b) == a
  {
    XorBitsCancel(a, b);
  }

  /** Octet-wise exclusive-or of two strings of the same length. */
  function XorSeq(a: seq<byte>, b: seq<byte>): (r: seq<byte>)
    requires |a| == |b|
    ensures |r| == |a|
    ensures forall i :: 0 <= i < |a| ==> r[i] == Xor(a[i], b[i])
  {
    seq(|a|, i requires 0 <= i < |a| => Xor(a[i], b[i]))
  }

  lemma XorSeqCancel(a: seq<byte>, b: seq<byte>)
    requires |a| == |b|
    ensures XorSeq(XorSeq(a, b), b) == a
  {
    forall i | 0 <= i < |a| ensures XorSeq(XorSeq(a, b), b)[i] == a[i] {
      XorCancel(a[i], b[i]);
    }
  }

  lemma SubSlice<T>(s: seq<T>, pos: nat, a: nat, b: nat)
    requires a <= b && pos + b <= |s|
    ensures s[pos..][a..b] == s[pos + a..pos + b] && s[pos..][b..] == s[pos + b..]
  {
  }

  /** The first four octets as a number, most significant first. */
  function Be32At(v: seq<byte>): (r: nat)
    requires |v| >= 4
  {
    var a: int, b: int, c: int, d: int := v[0], v[1], v[2], v[3];
    0x100_0000 * a + 0x1_0000 * b + 0x100 * c + d
  }

  /** memcpy of `src` to dst[at..]. */
  method WriteAt(dst: array<byte>, at: nat, src: seq<byte>)
    requires at + |src| <= dst.Length
    modifies dst
    ensures dst[..] == old(dst[..at]) + src + old(dst[at + |src|..])
  {
    var i := 0;
    while i < |src|
      invariant 0 <= i <= |src|
      invariant dst[..at] == old(dst[..at])
      invariant dst[at..at + i] == src[..i]
      invariant dst[at + i..] == old(dst[at + i..])
    {
      dst[at + i] := src[i];
      i := i + 1;
    }
  }

  lemma Written(was: seq<byte>, at: nat, src: seq<byte>, now: seq<byte>)
    requires at + |src| <= |was| && now == was[..at] + src + was[at + |src|..]
    ensures now[..at + |src|] == was[..at] + src && now[at + |src|..] == was[at + |src|..]
  {
  }
}
