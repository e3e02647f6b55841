/** MD5Transform (md5_internal.c): the macro forms of the auxiliary functions and the unrolled 64 steps. */
module Md5Block {
  import opened Bytes
  import opened Bits
  import opened Md5Spec

  lemma AndBit(p: nat, i: nat, q: nat, j: nat)
    requires i < 2 && j < 2
    ensures AndBits(2 * p + i, 2 * q + j) == 2 * AndBits(p, q) + if i == 1 && j == 1 then 1 else 0
  {
  }

  lemma OrBit(p: nat, i: nat, q: nat, j: nat)
    requires i < 2 && j < 2
    ensures OrBits(2 * p + i, 2 * q + j) == 2 * OrBits(p, q) + if i == 1 || j == 1 then 1 else 0
  {
  }

  lemma XorBit(p: nat, i: nat, q: nat, j: nat)
    requires i < 2 && j < 2
    ensures XorBits(2 * p + i, 2 * q + j) == 2 * XorBits(p, q) + if i != j then 1 else 0
  {
    hide XorBits;
    var a, b := 2 * p + i, 2 * q + j;
    XorHalves(a, b);
    assert a / 2 == p && b / 2 == q && a + b == 2 * (p + q) + (i + j);
    assert (a + b) % 2 == if i != j then 1 else 0;
  }

  /** One more bit of the selection x ? y : z, where n is the complement of p. */
  lemma SelectBit(p: nat, q: nat, r: nat, n: nat, i: nat, j: nat, l: nat)
    requires i < 2 && j < 2 && l < 2
    requires XorBits(r, AndBits(p, XorBits(q, r))) == OrBits(AndBits(p, q), AndBits(n, r))
    ensures XorBits(2 * r + l, AndBits(2 * p + i, XorBits(2 * q + j, 2 * r + l))) ==
            OrBits(AndBits(2 * p + i, 2 * q + j), AndBits(2 * n + 1 - i, 2 * r + l))
  {
    hide AndBits, OrBits, XorBits;
    var differ := if j != l then 1 else 0;
    XorBit(q, j, r, l);
    AndBit(p, i, XorBits(q, r), differ);
    XorBit(r, l, AndBits(p, XorBits(q, r)), if i == 1 && differ == 1 then 1 else 0);
    AndBit(p, i, q, j);
    AndBit(n, 1 - i, r, l);
    OrBit(AndBits(p, q), if i == 1 && j == 1 then 1 else 0, AndBits(n, r), if 1 - i == 1 && l == 1 then 1 else 0);
  }

  lemma SelectNone(x: nat, y: nat, z: nat)
    requires x < Pow2(0) && y < Pow2(0) && z < Pow2(0)
    ensures XorBits(z, AndBits(x, XorBits(y, z))) == OrBits(AndBits(x, y), AndBits(Pow2(0) - 1 - x, z))
  {
  }

  /** The selection with three operations instead of four, on k-bit words. */
  lemma {:induction false} Select(x: nat, y: nat, z: nat, k: nat)
    requires x < Pow2(k) && y < Pow2(k) && z < Pow2(k)
    ensures XorBits(z, AndBits(x, XorBits(y, z))) == OrBits(AndBits(x, y), AndBits(Pow2(k) - 1 - x, z))
    decreases k
  {
    hide AndBits, OrBits, XorBits, Pow2;
    if k == 0 {
      SelectNone(x, y, z);
    } else {
      Half(x, k);
      Select(x / 2, y / 2, z / 2, k - 1);
      var n := Pow2(k - 1) - 1 - x / 2;
      SelectBit(x / 2, y / 2, z / 2, n, x % 2, y % 2, z % 2);
    }
  }

  lemma Half(x: nat, k: nat)
    requires k > 0 && x < Pow2(k)
    ensures Pow2(k) == 2 * Pow2(k - 1) && x / 2 < Pow2(k - 1) && x == 2 * (x / 2) + x % 2
  {
  }

  lemma {:induction false} Pow2Add(a: nat, b: nat)
    ensures Pow2(a + b) == Pow2(a) * Pow2(b)
    decreases a
  {
    if a > 0 {
      Pow2Add(a - 1, b);
    }
  }

  lemma WordPow()
    ensures Pow2(32) == WORD && Pow2(31) == 0x8000_0000
  {
    Pow2Of8();
    hide Pow2;
    Pow2Add(8, 8);
    Pow2Add(16, 16);
    Half32();
  }

  lemma Half32()
    ensures Pow2(32) == 2 * Pow2(31)
  {
  }

  /** The macro F1, and F2 as F1 with its arguments turned. */
  lemma F1IsF(x: word, y: word, z: word)
    ensures XorBits(z, AndBits(x, XorBits(y, z))) == F(x, y, z)
  {
    hide AndBits, OrBits, XorBits, Pow2;
    WordPow();
    Select(x, y, z, 32);
  }

  lemma {:induction false} AndBitsCommute(a: nat, b: nat)
    ensures AndBits(a, b) == AndBits(b, a)
    decreases a + b
  {
    if a != 0 && b != 0 {
      AndBitsCommute(a / 2, b / 2);
    }
  }

  lemma F2IsG(x: word, y: word, z: word)
    ensures XorBits(y, AndBits(z, XorBits(x, y))) == G(x, y, z)
  {
    hide AndBits, OrBits, XorBits;
    F1IsF(z, x, y);
    AndBitsCommute(x, z);
    AndBitsCommute(y, Not(z));
  }

  /** The auxiliary functions of section 3.4 bit by bit: F takes y where x is set and z elsewhere, G takes x where z is
      set and y elsewhere, H is the parity, and I differs from y where x is set or z is not. */
  lemma AuxBits(x: word, y: word, z: word, j: nat)
    requires j < 32
    ensures Bit(F(x, y, z), j) == if Bit(x, j) == 1 then Bit(y, j) else Bit(z, j)
    ensures Bit(G(x, y, z), j) == if Bit(z, j) == 1 then Bit(x, j) else Bit(y, j)
    ensures Bit(H(x, y, z), j) == (Bit(x, j) + Bit(y, j) + Bit(z, j)) % 2
    ensures Bit(I(x, y, z), j) != Bit(y, j) <==> Bit(x, j) == 1 || Bit(z, j) == 0
  {
    hide Bit, AndBits, OrBits, XorBits;
    NotBit(x, j);
    NotBit(z, j);
    BitOps(x, y, j);
    BitOps(Not(x), z, j);
    BitOps(AndBits(x, y), AndBits(Not(x), z), j);
    BitOps(x, z, j);
    BitOps(y, Not(z), j);
    BitOps(AndBits(x, z), AndBits(y, Not(z)), j);
    BitOps(XorBits(x, y), z, j);
    BitOps(x, Not(z), j);
    BitOps(y, OrBits(x, Not(z)), j);
  }

  lemma NotBit(x: word, j: nat)
    requires j < 32
    ensures Bit(Not(x), j) == 1 - Bit(x, j)
  {
    hide Pow2;
    WordPow();
    ComplementBit(x, 32, j);
  }

  lemma {:induction false} ComplementBit(x: nat, n: nat, j: nat)
    requires x < Pow2(n) && j < n
    ensures Bit(Pow2(n) - 1 - x, j) == 1 - Bit(x, j)
    decreases n
  {
    Half(x, n);
    hide Pow2;
    var y := Pow2(n) - 1 - x;
    assert y == 2 * (Pow2(n - 1) - 1 - x / 2) + (1 - x % 2);
    if j > 0 {
      ComplementBit(x / 2, n - 1, j - 1);
    }
  }

  /** One more position: the top bit comes back in at the low end. */
  lemma RotlNext(q: nat, r: nat, half: nat, p: nat, v: word)
    requires r < half && half * p == 0x8000_0000 && q / 2 < p && v == (r + half * (q % 2)) * p + q / 2
    ensures (if v < 0x8000_0000 then 2 * v else 2 * v - WORD + 1) == r * (2 * p) + q
  {
    Spread(r, half, p);
    if q % 2 == 0 {
      assert v == r * p + q / 2;
    } else {
      assert v == r * p + 0x8000_0000 + q / 2;
    }
  }

  lemma Spread(r: nat, half: nat, p: nat)
    requires r < half
    ensures r * p + p <= half * p && (r + half) * p == r * p + half * p && r * (2 * p) == 2 * (r * p)
  {
    TimesMore(r + 1, half, p);
    assert (r + 1) * p == r * p + p;
  }

  /** One bit less in the quotient is one more in the remainder. */
  lemma HalfStep(w: nat, q: nat, r: nat, half: nat, whole: nat)
    requires w == half * q + r && r < half && whole == 2 * half
    ensures w == whole * (q / 2) + (r + half * (q % 2)) && r + half * (q % 2) < whole
  {
    var a, b := q / 2, q % 2;
    assert half * (2 * a + b) == whole * a + half * b;
  }

  /** Rotation takes the high s bits to the low end. */
  lemma {:induction false} RotlIs(w: word, s: nat, q: nat, r: nat)
    requires s <= 32 && w == Pow2(32 - s) * q + r && r < Pow2(32 - s)
    ensures Rotl(w, s) == r * Pow2(s) + q && q < Pow2(s)
    decreases s
  {
    hide Pow2;
    WordPow();
    Pow2Zero();
    if s == 0 {
      assert q == 0;
    } else {
      var half, p := Pow2(32 - s), Pow2(s - 1);
      TwicePow(33 - s);
      TwicePow(s);
      Pow2Add(32 - s, s - 1);
      HalfStep(w, q, r, half, Pow2(33 - s));
      RotlIs(w, s - 1, q / 2, r + half * (q % 2));
      RotlNext(q, r, half, p, Rotl(w, s - 1));
    }
  }

  lemma Pow2Zero()
    ensures Pow2(0) == 1
  {
  }

  lemma TwicePow(k: nat)
    requires k > 0
    ensures Pow2(k) == 2 * Pow2(k - 1)
  {
  }

  lemma ShiftLeft(w: word, s: nat, q: nat, r: nat)
    requires s <= 32 && w == Pow2(32 - s) * q + r && r < Pow2(32 - s)
    ensures w * Pow2(s) % WORD == r * Pow2(s)
  {
    hide Pow2;
    WordPow();
    Pow2Add(32 - s, s);
    Product(Pow2(32 - s), Pow2(s), q, r);
    ModIs(w * Pow2(s), q, r * Pow2(s));
  }

  lemma Product(a: nat, b: nat, q: nat, r: nat)
    requires r < a && b > 0
    ensures (a * q + r) * b == a * b * q + r * b && r * b < a * b
  {
    TimesMore(r + 1, a, b);
    assert (r + 1) * b == r * b + b;
  }

  lemma ModIs(n: nat, q: nat, r: nat)
    requires n == WORD * q + r && r < WORD
    ensures n % WORD == r
  {
  }

  /** The rotation written with two shifts and an or, on 32-bit words. */
  method Rotate(w: word, s: nat) returns (v: word)
    requires s <= 32
    ensures v == Rotl(w, s)
  {
    hide Pow2, OrBits, Rotl;
    var q, r := w / Pow2(32 - s), w % Pow2(32 - s);
    RotlIs(w, s, q, r);
    ShiftLeft(w, s, q, r);
    OrBitsDisjoint(r, q, s);
    v := OrBits(w * Pow2(s) % WORD, w / Pow2(32 - s));
  }

  /** What operation i of section 3.4 takes from its tables. */
  predicate Row(i: nat, k: nat, t: word, s: nat)
  {
    i < 64 && k == WordIndex(i) && t == T(i) && s == ShiftOf(i)
  }

  // The four macros F1 to F4.

  function F1(x: word, y: word, z: word): nat { XorBits(z, AndBits(x, XorBits(y, z))) }

  function F2(x: word, y: word, z: word): nat { F1(z, x, y) }

  function F3(x: word, y: word, z: word): nat { XorBits(XorBits(x, y), z) }

  function F4(x: word, y: word, z: word): nat { XorBits(y, OrBits(x, Not(z))) }

  /** The macros are the auxiliary functions of section 3.4. */
  lemma MacroIsAux(f: nat, i: nat, x: word, y: word, z: word)
    requires f == i / 16 + 1 && i < 64
    ensures Aux(i, x, y, z) == if f == 1 then F1(x, y, z) else if f == 2 then F2(x, y, z)
                               else if f == 3 then F3(x, y, z) else F4(x, y, z)
  {
    hide AndBits, OrBits, XorBits;
    F1IsF(x, y, z);
    F2IsG(x, y, z);
  }

  /** MD5STEP with macro F1 to F4: with the chaining values in the roles w, x, y, z, the new w is the second value of
      the state after operation i. */
  method Step(f: nat, w: word, x: word, y: word, z: word, data: seq<word>, k: nat, t: word, s: nat,
              ghost i: nat, ghost v: Chaining) returns (next: word)
    requires |data| == 16 && Row(i, k, t, s) && f == i / 16 + 1
    requires Rounds(v, data, i) == Chaining(w, x, y, z)
    ensures Rounds(v, data, i + 1) == Chaining(z, next, x, y)
  {
    hide Aux, Rotl, WordIndex, ShiftOf, T, F1, F2, F3, F4;
    MacroIsAux(f, i, x, y, z);
    var aux := if f == 1 then F1(x, y, z) else if f == 2 then F2(x, y, z)
               else if f == 3 then F3(x, y, z) else F4(x, y, z);
    next := (w + aux + (data[k] + t) % WORD) % WORD;
    SumOnce(w + aux, data[k] + t);
    next := Rotate(next, s);
    next := (next + x) % WORD;
  }

  lemma SumOnce(a: nat, b: nat)
    ensures (a + b % WORD) % WORD == (a + b) % WORD
  {
  }

  lemma Rows1()
    ensures Row(0, 0, 0xd76aa478, 7) && Row(1, 1, 0xe8c7b756, 12)
    ensures Row(2, 2, 0x242070db, 17) && Row(3, 3, 0xc1bdceee, 22)
    ensures Row(4, 4, 0xf57c0faf, 7) && Row(5, 5, 0x4787c62a, 12)
    ensures Row(6, 6, 0xa8304613, 17) && Row(7, 7, 0xfd469501, 22)
    ensures Row(8, 8, 0x698098d8, 7) && Row(9, 9, 0x8b44f7af, 12)
    ensures Row(10, 10, 0xffff5bb1, 17) && Row(11, 11, 0x895cd7be, 22)
    ensures Row(12, 12, 0x6b901122, 7) && Row(13, 13, 0xfd987193, 12)
    ensures Row(14, 14, 0xa679438e, 17) && Row(15, 15, 0x49b40821, 22)
  {
  }

  lemma Rows2()
    ensures Row(16, 1, 0xf61e2562, 5) && Row(17, 6, 0xc040b340, 9)
    ensures Row(18, 11, 0x265e5a51, 14) && Row(19, 0, 0xe9b6c7aa, 20)
    ensures Row(20, 5, 0xd62f105d, 5) && Row(21, 10, 0x02441453, 9)
    ensures Row(22, 15, 0xd8a1e681, 14) && Row(23, 4, 0xe7d3fbc8, 20)
    ensures Row(24, 9, 0x21e1cde6, 5) && Row(25, 14, 0xc33707d6, 9)
    ensures Row(26, 3, 0xf4d50d87, 14) && Row(27, 8, 0x455a14ed, 20)
    ensures Row(28, 13, 0xa9e3e905, 5) && Row(29, 2, 0xfcefa3f8, 9)
    ensures Row(30, 7, 0x676f02d9, 14) && Row(31, 12, 0x8d2a4c8a, 20)
  {
  }

  lemma Rows3()
    ensures Row(32, 5, 0xfffa3942, 4) && Row(33, 8, 0x8771f681, 11)
    ensures Row(34, 11, 0x6d9d6122, 16) && Row(35, 14, 0xfde5380c, 23)
    ensures Row(36, 1, 0xa4beea44, 4) && Row(37, 4, 0x4bdecfa9, 11)
    ensures Row(38, 7, 0xf6bb4b60, 16) && Row(39, 10, 0xbebfbc70, 23)
    ensures Row(40, 13, 0x289b7ec6, 4) && Row(41, 0, 0xeaa127fa, 11)
    ensures Row(42, 3, 0xd4ef3085, 16) && Row(43, 6, 0x04881d05, 23)
    ensures Row(44, 9, 0xd9d4d039, 4) && Row(45, 12, 0xe6db99e5, 11)
    ensures Row(46, 15, 0x1fa27cf8, 16) && Row(47, 2, 0xc4ac5665, 23)
  {
  }

  lemma Rows4()
    ensures Row(48, 0, 0xf4292244, 6) && Row(49, 7, 0x432aff97, 10)
    ensures Row(50, 14, 0xab9423a7, 15) && Row(51, 5, 0xfc93a039, 21)
    ensures Row(52, 12, 0x655b59c3, 6) && Row(53, 3, 0x8f0ccc92, 10)
    ensures Row(54, 10, 0xffeff47d, 15) && Row(55, 1, 0x85845dd1, 21)
    ensures Row(56, 8, 0x6fa87e4f, 6) && Row(57, 15, 0xfe2ce6e0, 10)
    ensures Row(58, 6, 0xa3014314, 15) && Row(59, 13, 0x4e0811a1, 21)
    ensures Row(60, 4, 0xf7537e82, 6) && Row(61, 11, 0xbd3af235, 10)
    ensures Row(62, 2, 0x2ad7d2bb, 15) && Row(63, 9, 0xeb86d391, 21)
  {
  }

  method Round1(v: Chaining, x: seq<word>, ghost start: Chaining) returns (r: Chaining)
    requires |x| == 16 && v == Rounds(start, x, 0)
    ensures r == Rounds(start, x, 16)
  {
    hide Rounds, Row;
    Rows1();
    var a, b, c, d := v.a, v.b, v.c, v.d;
    a := Step(1, a, b, c, d, x, 0, 0xd76aa478, 7, 0, start);
    d := Step(1, d, a, b, c, x, 1, 0xe8c7b756, 12, 1, start);
    c := Step(1, c, d, a, b, x, 2, 0x242070db, 17, 2, start);
    b := Step(1, b, c, d, a, x, 3, 0xc1bdceee, 22, 3, start);
    a := Step(1, a, b, c, d, x, 4, 0xf57c0faf, 7, 4, start);
    d := Step(1, d, a, b, c, x, 5, 0x4787c62a, 12, 5, start);
    c := Step(1, c, d, a, b, x, 6, 0xa8304613, 17, 6, start);
    b := Step(1, b, c, d, a, x, 7, 0xfd469501, 22, 7, start);
    a := Step(1, a, b, c, d, x, 8, 0x698098d8, 7, 8, start);
    d := Step(1, d, a, b, c, x, 9, 0x8b44f7af, 12, 9, start);
    c := Step(1, c, d, a, b, x, 10, 0xffff5bb1, 17, 10, start);
    b := Step(1, b, c, d, a, x, 11, 0x895cd7be, 22, 11, start);
    a := Step(1, a, b, c, d, x, 12, 0x6b901122, 7, 12, start);
    d := Step(1, d, a, b, c, x, 13, 0xfd987193, 12, 13, start);
    c := Step(1, c, d, a, b, x, 14, 0xa679438e, 17, 14, start);
    b := Step(1, b, c, d, a, x, 15, 0x49b40821, 22, 15, start);
    r := Chaining(a, b, c, d);
  }

  method Round2(v: Chaining, x: seq<word>, ghost start: Chaining) returns (r: Chaining)
    requires |x| == 16 && v == Rounds(start, x, 16)
    ensures r == Rounds(start, x, 32)
  {
    hide Rounds, Row;
    Rows2();
    var a, b, c, d := v.a, v.b, v.c, v.d;
    a := Step(2, a, b, c, d, x, 1, 0xf61e2562, 5, 16, start);
    d := Step(2, d, a, b, c, x, 6, 0xc040b340, 9, 17, start);
    c := Step(2, c, d, a, b, x, 11, 0x265e5a51, 14, 18, start);
    b := Step(2, b, c, d, a, x, 0, 0xe9b6c7aa, 20, 19, start);
    a := Step(2, a, b, c, d, x, 5, 0xd62f105d, 5, 20, start);
    d := Step(2, d, a, b, c, x, 10, 0x02441453, 9, 21, start);
    c := Step(2, c, d, a, b, x, 15, 0xd8a1e681, 14, 22, start);
    b := Step(2, b, c, d, a, x, 4, 0xe7d3fbc8, 20, 23, start);
    a := Step(2, a, b, c, d, x, 9, 0x21e1cde6, 5, 24, start);
    d := Step(2, d, a, b, c, x, 14, 0xc33707d6, 9, 25, start);
    c := Step(2, c, d, a, b, x, 3, 0xf4d50d87, 14, 26, start);
    b := Step(2, b, c, d, a, x, 8, 0x455a14ed, 20, 27, start);
    a := Step(2, a, b, c, d, x, 13, 0xa9e3e905, 5, 28, start);
    d := Step(2, d, a, b, c, x, 2, 0xfcefa3f8, 9, 29, start);
    c := Step(2, c, d, a, b, x, 7, 0x676f02d9, 14, 30, start);
    b := Step(2, b, c, d, a, x, 12, 0x8d2a4c8a, 20, 31, start);
    r := Chaining(a, b, c, d);
  }

  method Round3(v: Chaining, x: seq<word>, ghost start: Chaining) returns (r: Chaining)
    requires |x| == 16 && v == Rounds(start, x, 32)
    ensures r == Rounds(start, x, 48)
  {
    hide Rounds, Row;
    Rows3();
    var a, b, c, d := v.a, v.b, v.c, v.d;
    a := Step(3, a, b, c, d, x, 5, 0xfffa3942, 4, 32, start);
    d := Step(3, d, a, b, c, x, 8, 0x8771f681, 11, 33, start);
    c := Step(3, c, d, a, b, x, 11, 0x6d9d6122, 16, 34, start);
    b := Step(3, b, c, d, a, x, 14, 0xfde5380c, 23, 35, start);
    a := Step(3, a, b, c, d, x, 1, 0xa4beea44, 4, 36, start);
    d := Step(3, d, a, b, c, x, 4, 0x4bdecfa9, 11, 37, start);
    c := Step(3, c, d, a, b, x, 7, 0xf6bb4b60, 16, 38, start);
    b := Step(3, b, c, d, a, x, 10, 0xbebfbc70, 23, 39, start);
    a := Step(3, a, b, c, d, x, 13, 0x289b7ec6, 4, 40, start);
    d := Step(3, d, a, b, c, x, 0, 0xeaa127fa, 11, 41, start);
    c := Step(3, c, d, a, b, x, 3, 0xd4ef3085, 16, 42, start);
    b := Step(3, b, c, d, a, x, 6, 0x04881d05, 23, 43, start);
    a := Step(3, a, b, c, d, x, 9, 0xd9d4d039, 4, 44, start);
    d := Step(3, d, a, b, c, x, 12, 0xe6db99e5, 11, 45, start);
    c := Step(3, c, d, a, b, x, 15, 0x1fa27cf8, 16, 46, start);
    b := Step(3, b, c, d, a, x, 2, 0xc4ac5665, 23, 47, start);
    r := Chaining(a, b, c, d);
  }

  method Round4(v: Chaining, x: seq<word>, ghost start: Chaining) returns (r: Chaining)
    requires |x| == 16 && v == Rounds(start, x, 48)
    ensures r == Rounds(start, x, 64)
  {
    hide Rounds, Row;
    Rows4();
    var a, b, c, d := v.a, v.b, v.c, v.d;
    a := Step(4, a, b, c, d, x, 0, 0xf4292244, 6, 48, start);
    d := Step(4, d, a, b, c, x, 7, 0x432aff97, 10, 49, start);
    c := Step(4, c, d, a, b, x, 14, 0xab9423a7, 15, 50, start);
    b := Step(4, b, c, d, a, x, 5, 0xfc93a039, 21, 51, start);
    a := Step(4, a, b, c, d, x, 12, 0x655b59c3, 6, 52, start);
    d := Step(4, d, a, b, c, x, 3, 0x8f0ccc92, 10, 53, start);
    c := Step(4, c, d, a, b, x, 10, 0xffeff47d, 15, 54, start);
    b := Step(4, b, c, d, a, x, 1, 0x85845dd1, 21, 55, start);
    a := Step(4, a, b, c, d, x, 8, 0x6fa87e4f, 6, 56, start);
    d := Step(4, d, a, b, c, x, 15, 0xfe2ce6e0, 10, 57, start);
    c := Step(4, c, d, a, b, x, 6, 0xa3014314, 15, 58, start);
    b := Step(4, b, c, d, a, x, 13, 0x4e0811a1, 21, 59, start);
    a := Step(4, a, b, c, d, x, 4, 0xf7537e82, 6, 60, start);
    d := Step(4, d, a, b, c, x, 11, 0xbd3af235, 10, 61, start);
    c := Step(4, c, d, a, b, x, 2, 0x2ad7d2bb, 15, 62, start);
    b := Step(4, b, c, d, a, x, 9, 0xeb86d391, 21, 63, start);
    r := Chaining(a, b, c, d);
  }

  /** MD5Transform: the unrolled steps compute the compression function of section 3.4. */
  method Transform(buf: Chaining, block: Block) returns (r: Chaining)
    ensures r == Compress(buf, block)
  {
    hide Rounds, Words, Compress;
    var x := Words(block);
    NoRounds(buf, x);
    CompressIs(buf, block);
    r := Round1(buf, x, buf);
    r := Round2(r, x, buf);
    r := Round3(r, x, buf);
    r := Round4(r, x, buf);
    r := Chaining((buf.a + r.a) % WORD, (buf.b + r.b) % WORD, (buf.c + r.c) % WORD, (buf.d + r.d) % WORD);
  }

  lemma NoRounds(v: Chaining, x: seq<word>)
    requires |x| == 16
    ensures Rounds(v, x, 0) == v
  {
  }

  lemma CompressIs(v: Chaining, block: Block)
    ensures Compress(v, block) == Plus(v, Rounds(v, Words(block), 64))
  {
  }
}
