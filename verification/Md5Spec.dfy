/** The MD5 message digest as RFC 1321 defines it, section by section. */
module Md5Spec {
  import opened Bytes

  const WORD := 0x1_0000_0000

  type word = x: int | 0 <= x < 0x1_0000_0000

  type Block = b: seq<byte> | |b| == 64 witness seq(64, _ => 0)

  type Digest16 = d: seq<byte> | |d| == 16 witness seq(16, _ => 0)

  /** Any function from octet strings to 16-octet digests; the protocol layers are stated for all of them. */
  type Hash = seq<byte> -> Digest16

  datatype Chaining = Chaining(a: word, b: word, c: word, d: word)

  /** Section 3.3: the initial value of the message digest buffer. */
  const INIT := Chaining(0x67452301, 0xefcdab89, 0x98badcfe, 0x10325476)

  // Section 3.4: the auxiliary functions, on 32-bit words.

  function Not(a: word): (r: word) { WORD - 1 - a }

  function F(x: word, y: word, z: word): nat { OrBits(AndBits(x, y), AndBits(Not(x), z)) }

  function G(x: word, y: word, z: word): nat { OrBits(AndBits(x, z), AndBits(y, Not(z))) }

  function H(x: word, y: word, z: word): nat { XorBits(XorBits(x, y), z) }

  function I(x: word, y: word, z: word): nat { XorBits(y, OrBits(x, Not(z))) }

  /** Circular left shift by `s` bit positions. */
  function Rotl(w: word, s: nat): (r: word)
    decreases s
  {
    if s == 0 then w else
      var v := Rotl(w, s - 1);
      if v < 0x8000_0000 then 2 * v else 2 * v - WORD + 1
  }

  // The table of section 3.4, T[i] = floor(2^32 * abs(sin(i))), counted from zero, a part for every round.

  function T1(j: nat): (r: word)
    requires j < 16
  {
    match j
    case 0 => 0xd76aa478 case 1 => 0xe8c7b756 case 2 => 0x242070db case 3 => 0xc1bdceee
    case 4 => 0xf57c0faf case 5 => 0x4787c62a case 6 => 0xa8304613 case 7 => 0xfd469501
    case 8 => 0x698098d8 case 9 => 0x8b44f7af case 10 => 0xffff5bb1 case 11 => 0x895cd7be
    case 12 => 0x6b901122 case 13 => 0xfd987193 case 14 => 0xa679438e case _ => 0x49b40821
  }

  function T2(j: nat): (r: word)
    requires j < 16
  {
    match j
    case 0 => 0xf61e2562 case 1 => 0xc040b340 case 2 => 0x265e5a51 case 3 => 0xe9b6c7aa
    case 4 => 0xd62f105d case 5 => 0x02441453 case 6 => 0xd8a1e681 case 7 => 0xe7d3fbc8
    case 8 => 0x21e1cde6 case 9 => 0xc33707d6 case 10 => 0xf4d50d87 case 11 => 0x455a14ed
    case 12 => 0xa9e3e905 case 13 => 0xfcefa3f8 case 14 => 0x676f02d9 case _ => 0x8d2a4c8a
  }

  function T3(j: nat): (r: word)
    requires j < 16
  {
    match j
    case 0 => 0xfffa3942 case 1 => 0x8771f681 case 2 => 0x6d9d6122 case 3 => 0xfde5380c
    case 4 => 0xa4beea44 case 5 => 0x4bdecfa9 case 6 => 0xf6bb4b60 case 7 => 0xbebfbc70
    case 8 => 0x289b7ec6 case 9 => 0xeaa127fa case 10 => 0xd4ef3085 case 11 => 0x04881d05
    case 12 => 0xd9d4d039 case 13 => 0xe6db99e5 case 14 => 0x1fa27cf8 case _ => 0xc4ac5665
  }

  function T4(j: nat): (r: word)
    requires j < 16
  {
    match j
    case 0 => 0xf4292244 case 1 => 0x432aff97 case 2 => 0xab9423a7 case 3 => 0xfc93a039
    case 4 => 0x655b59c3 case 5 => 0x8f0ccc92 case 6 => 0xffeff47d case 7 => 0x85845dd1
    case 8 => 0x6fa87e4f case 9 => 0xfe2ce6e0 case 10 => 0xa3014314 case 11 => 0x4e0811a1
    case 12 => 0xf7537e82 case 13 => 0xbd3af235 case 14 => 0x2ad7d2bb case _ => 0xeb86d391
  }

  function T(i: nat): (r: word)
    requires i < 64
  {
    if i < 16 then T1(i) else if i < 32 then T2(i - 16) else if i < 48 then T3(i - 32) else T4(i - 48)
  }

  /** The shift amounts of section 3.4, four per round. */
  function Shift(round: nat, j: nat): (r: nat)
    requires round < 4 && j < 4
    ensures r <= 32
  {
    match round
    case 0 => if j == 0 then 7 else if j == 1 then 12 else if j == 2 then 17 else 22
    case 1 => if j == 0 then 5 else if j == 1 then 9 else if j == 2 then 14 else 20
    case 2 => if j == 0 then 4 else if j == 1 then 11 else if j == 2 then 16 else 23
    case _ => if j == 0 then 6 else if j == 1 then 10 else if j == 2 then 15 else 21
  }

  /** Which auxiliary function operation `i` uses. */
  function Aux(i: nat, x: word, y: word, z: word): nat
  {
    if i < 16 then F(x, y, z) else if i < 32 then G(x, y, z)
    else if i < 48 then H(x, y, z) else I(x, y, z)
  }

  /** Which word of the block operation `i` uses. */
  function WordIndex(i: nat): (r: nat)
    ensures r < 16
  {
    if i < 16 then i else if i < 32 then (5 * i + 1) % 16
    else if i < 48 then (3 * i + 5) % 16 else (7 * i) % 16
  }

  function ShiftOf(i: nat): (r: nat)
    requires i < 64
    ensures r <= 32
  {
    Shift(i / 16, i % 4)
  }

  /** One operation [abcd k s i], after which the roles of a, b, c, d rotate. */
  function Operation(v: Chaining, x: seq<word>, i: nat): (r: Chaining)
    requires |x| == 16 && i < 64
  {
    var sum := (v.a + Aux(i, v.b, v.c, v.d) + x[WordIndex(i)] + T(i)) % WORD;
    Chaining(v.d, (v.b + Rotl(sum, ShiftOf(i))) % WORD, v.b, v.c)
  }

  /** The first `n` operations on a block. */
  function Rounds(v: Chaining, x: seq<word>, n: nat): (r: Chaining)
    requires |x| == 16 && n <= 64
    decreases n
  {
    if n == 0 then v else Operation(Rounds(v, x, n - 1), x, n - 1)
  }

  /** A word from four octets, low-order octet first (section 2). */
  function WordAt(block: seq<byte>, i: nat): (r: word)
    requires 4 * i + 4 <= |block|
  {
    var b0: int, b1: int, b2: int, b3: int := block[4 * i], block[4 * i + 1], block[4 * i + 2], block[4 * i + 3];
    b0 + 0x100 * b1 + 0x1_0000 * b2 + 0x100_0000 * b3
  }

  function Words(block: seq<byte>): (r: seq<word>)
    requires |block| == 64
    ensures |r| == 16
  {
    seq(16, i requires 0 <= i < 16 => WordAt(block, i))
  }

  function Plus(v: Chaining, w: Chaining): (r: Chaining)
  {
    Chaining((v.a + w.a) % WORD, (v.b + w.b) % WORD, (v.c + w.c) % WORD, (v.d + w.d) % WORD)
  }

  /** Section 3.4: process one 16-word block. */
  function Compress(v: Chaining, block: Block): (r: Chaining)
  {
    var x := Words(block);
    Plus(v, Rounds(v, x, 4 * |x|))
  }

  /** A compression function, and the chaining of it over all full 64-octet blocks of `data`. */
  type Compressor = (Chaining, Block) -> Chaining

  function Fold(c: Compressor, v: Chaining, data: seq<byte>): (r: Chaining)
    decreases |data|
  {
    if |data| < 64 then v else Fold(c, c(v, data[..64]), data[64..])
  }

  /** Four octets of a word, low-order octet first. */
  function Le32(w: word): (r: seq<byte>)
    ensures |r| == 4
  {
    [w % 0x100, w / 0x100 % 0x100, w / 0x1_0000 % 0x100, w / 0x100_0000]
  }

  function Zeros(n: nat): (r: seq<byte>)
    ensures |r| == n
    ensures forall i :: 0 <= i < n ==> r[i] == 0
  {
    seq(n, _ => 0)
  }

  /** Sections 3.1 and 3.2: a one bit and zero bits up to 56 modulo 64 octets. */
  function Filler(n: nat): (r: seq<byte>)
  {
    [0x80] + Zeros((119 - n % 64) % 64)
  }

  /** The length in bits modulo 2^64 as two words, low-order word first. */
  function LengthWords(n: nat): (r: seq<byte>)
    ensures |r| == 8
  {
    Le32(8 * n % WORD) + Le32(8 * n / WORD % WORD)
  }

  function Pad(data: seq<byte>): (r: seq<byte>)
  {
    data + Filler(|data|) + LengthWords(|data|)
  }

  /** Section 3.5: the digest, beginning with the low-order octet of a. */
  function Digest(v: Chaining): (r: Digest16)
  {
    Le32(v.a) + Le32(v.b) + Le32(v.c) + Le32(v.d)
  }

  function Md5(data: seq<byte>): (r: Digest16)
  {
    Digest(Fold(Compress, INIT, Pad(data)))
  }

  /** Padding ends on a block boundary: one more block, or two when the tail leaves no room for the length. */
  lemma PadFillsBlocks(data: seq<byte>, q: nat)
    requires 64 * q <= |data| < 64 * q + 64
    ensures |Pad(data)| == 64 * q + (if |data| - 64 * q < 56 then 64 else 128)
  {
    hide LengthWords;
    var t := |data| - 64 * q;
    assert |data| % 64 == t;
    FillerLength(|data|, t);
    hide Filler;
  }

  lemma FillerLength(n: nat, t: nat)
    requires n % 64 == t
    ensures |Filler(n)| == if t < 56 then 56 - t else 120 - t
  {
  }

  /** Section 3.3 gives the initial value in octets, low-order octet first. */
  lemma InitOctets()
    ensures Digest(INIT) == [0x01, 0x23, 0x45, 0x67, 0x89, 0xab, 0xcd, 0xef] +
                            [0xfe, 0xdc, 0xba, 0x98, 0x76, 0x54, 0x32, 0x10]
  {
  }

  /** Octets as a number, low-order octet first. */
  function LittleEndian(s: seq<byte>): (r: nat)
    decreases |s|
  {
    if s == [] then 0 else s[0] + 256 * LittleEndian(s[1..])
  }

  /** A padded message: the data, a one bit, zeros, and in the last eight octets the length in bits modulo 2^64. */
  lemma PadIs(data: seq<byte>)
    ensures var p, n := Pad(data), |data|;
            && |p| % 64 == 0 && n + 9 <= |p| < n + 73
            && p[..n] == data && p[n] == 0x80 && p[n + 1..|p| - 8] == Zeros(|p| - n - 9)
            && LittleEndian(p[|p| - 8..]) == 8 * n % 0x1_0000_0000_0000_0000
  {
    hide LengthWords, LittleEndian, Zeros;
    var p, n := Pad(data), |data|;
    PadFillsBlocks(data, n / 64);
    LengthIs(n);
    var words, zeros := LengthWords(n), Zeros((119 - n % 64) % 64);
    assert p == data + [0x80] + zeros + words;
    hide Pad, Filler;
    assert |zeros| == |p| - n - 9 && p[|p| - 8..] == words;
  }

  lemma LengthIs(n: nat)
    ensures LittleEndian(LengthWords(n)) == 8 * n % 0x1_0000_0000_0000_0000
  {
    hide Le32, LittleEndian;
    var low, high := 8 * n % WORD, 8 * n / WORD % WORD;
    LengthParts(8 * n);
    WordOctets(low, Le32(high));
    WordOctets(high, []);
    assert Le32(high) + [] == Le32(high);
    NoOctets();
  }

  lemma NoOctets()
    ensures LittleEndian([]) == 0
  {
  }

  lemma LengthParts(x: nat)
    ensures x % WORD + WORD * (x / WORD % WORD) == x % 0x1_0000_0000_0000_0000
  {
  }

  lemma LowOctet(s: seq<byte>)
    requires s != []
    ensures LittleEndian(s) == s[0] + 256 * LittleEndian(s[1..])
  {
  }

  lemma WordOctets(w: word, rest: seq<byte>)
    ensures LittleEndian(Le32(w) + rest) == w + WORD * LittleEndian(rest)
  {
    hide LittleEndian;
    FourDigits(w);
    var s := Le32(w) + rest;
    assert s[1..][1..][1..][1..] == rest;
    LowOctet(s);
    LowOctet(s[1..]);
    LowOctet(s[1..][1..]);
    LowOctet(s[1..][1..][1..]);
  }

  lemma FourDigits(w: nat)
    ensures w ==
            w % 0x100 + 0x100 * (w / 0x100 % 0x100) + 0x1_0000 * (w / 0x1_0000 % 0x100) + 0x100_0000 * (w / 0x100_0000)
  {
    var a, b, c := w / 0x100, w / 0x1_0000, w / 0x100_0000;
    Quarters(w);
    assert w == 0x100 * a + w % 0x100 && a == 0x100 * b + a % 0x100 && b == 0x100 * c + b % 0x100;
  }

  lemma Quarters(x: nat)
    ensures x / 0x1_0000 == x / 0x100 / 0x100 && x / 0x100_0000 == x / 0x1_0000 / 0x100
  {
  }

  lemma {:induction false} FoldConcat(c: Compressor, v: Chaining, a: seq<byte>, b: seq<byte>, q: nat)
    requires |a| == 64 * q
    ensures Fold(c, v, a + b) == Fold(c, Fold(c, v, a), b)
    decreases q
  {
    if q == 0 {
      assert a + b == b;
    } else {
      assert (a + b)[..64] == a[..64];
      assert (a + b)[64..] == a[64..] + b;
      FoldConcat(c, c(v, a[..64]), a[64..], b, q - 1);
    }
  }

  /** Absorbing one more block. */
  lemma FoldBlock(c: Compressor, v: Chaining, data: seq<byte>, q: nat)
    requires 64 * q + 64 <= |data|
    ensures Fold(c, v, data[..64 * q + 64]) == c(Fold(c, v, data[..64 * q]), data[64 * q..64 * q + 64])
  {
    var b := data[64 * q..64 * q + 64];
    assert data[..64 * q + 64] == data[..64 * q] + b;
    FoldConcat(c, v, data[..64 * q], b, q);
    assert b[..64] == b;
  }
}
