/** What the text is, without its own definition: the alphabets as RFC 4648 prints them, characters as six bits of the
    data each, padding and lines. */
module Base64Text {
  import opened Bytes
  import opened Bits
  import opened Options
  import opened Base64

  function Upper(): (r: string)
    ensures |r| == 26
  {
    "ABCDEFGHIJKLMNOPQRSTUVWXYZ"
  }

  function Lower(): (r: string)
    ensures |r| == 26
  {
    "abcdefghijklmnopqrstuvwxyz"
  }

  function Numerals(): (r: string)
    ensures |r| == 10
  {
    "0123456789"
  }

  function Others(url: bool): (r: string)
    ensures |r| == 2
  {
    if url then "-_" else "+/"
  }

  /** Tables 1 and 2 of RFC 4648. */
  function Alphabet(url: bool): (r: string)
    ensures |r| == 64
  {
    Upper() + Lower() + Numerals() + Others(url)
  }

  lemma SymbolTable(url: bool, v: nat)
    requires v < 64
    ensures Symbol(url, v) == Alphabet(url)[v] as int
  {
    hide Upper, Lower, Numerals, Others;
    if v < 26 {
      UpperIs(v);
    } else if v < 52 {
      LowerIs(v - 26);
    } else if v < 62 {
      NumeralIs(v - 52);
    } else {
      OtherIs(url, v - 62);
    }
  }

  lemma UpperIs(k: nat)
    requires k < 26
    ensures Upper()[k] as int == 65 + k
  {
  }

  lemma LowerIs(k: nat)
    requires k < 26
    ensures Lower()[k] as int == 97 + k
  {
  }

  lemma NumeralIs(k: nat)
    requires k < 10
    ensures Numerals()[k] as int == 48 + k
  {
  }

  lemma OtherIs(url: bool, k: nat)
    requires k < 2
    ensures Others(url)[k] as int == if k == 0 then if url then 45 else 43 else if url then 95 else 47
  {
  }

  /** Bit i of the data, counted from the high end of the first octet; zero behind the last. */
  function DataBit(data: seq<byte>, i: nat): (r: nat)
    ensures r < 2
  {
    if i / 8 < |data| then Bit(data[i / 8], 7 - i % 8) else 0
  }

  /** Six of them as a number. */
  function SixBits(data: seq<byte>, at: nat): (r: nat)
    ensures r < 64
  {
    32 * DataBit(data, at) + 16 * DataBit(data, at + 1) + 8 * DataBit(data, at + 2) + 4 * DataBit(data, at + 3) +
    2 * DataBit(data, at + 4) + DataBit(data, at + 5)
  }

  lemma ByteBits(a: byte)
    ensures a == 128 * Bit(a, 7) + 64 * Bit(a, 6) + 32 * Bit(a, 5) + 16 * Bit(a, 4) +
                 8 * Bit(a, 3) + 4 * Bit(a, 2) + 2 * Bit(a, 1) + Bit(a, 0)
  {
    TopBits(a, 0);
    TopBits(a, 1);
    TopBits(a, 2);
    TopBits(a, 3);
    TopBits(a, 4);
    TopBits(a, 5);
    TopBits(a, 6);
    TopBits(a, 7);
    hide Bit, Shifted;
    assert Shifted(a, 8) == 0 by { EightGone(a); }
    assert Shifted(a, 0) == a by { NoneGone(a); }
  }

  lemma {:induction false} TopBits(x: nat, k: nat)
    ensures Shifted(x, k) == 2 * Shifted(x, k + 1) + Bit(x, k)
    decreases k
  {
    if k > 0 {
      TopBits(x / 2, k - 1);
    }
  }

  lemma EightGone(a: byte)
    ensures Shifted(a, 8) == 0
  {
    ShiftedIs(a, 8);
    Pow2Of8();
  }

  lemma NoneGone(a: nat)
    ensures Shifted(a, 0) == a
  {
  }

  /** The parts an octet is cut into. */
  lemma Cuts(a: byte)
    ensures a / 4 == 32 * Bit(a, 7) + 16 * Bit(a, 6) + 8 * Bit(a, 5) + 4 * Bit(a, 4) + 2 * Bit(a, 3) + Bit(a, 2)
    ensures a % 4 == 2 * Bit(a, 1) + Bit(a, 0)
    ensures a / 16 == 8 * Bit(a, 7) + 4 * Bit(a, 6) + 2 * Bit(a, 5) + Bit(a, 4)
    ensures a % 16 == 8 * Bit(a, 3) + 4 * Bit(a, 2) + 2 * Bit(a, 1) + Bit(a, 0)
    ensures a / 64 == 2 * Bit(a, 7) + Bit(a, 6)
    ensures a % 64 == 32 * Bit(a, 5) + 16 * Bit(a, 4) + 8 * Bit(a, 3) + 4 * Bit(a, 2) + 2 * Bit(a, 1) + Bit(a, 0)
  {
    hide Bit;
    ByteBits(a);
  }

  lemma BitAt(data: seq<byte>, a: byte, b: byte, c: byte, i: nat)
    requires data != [] && a == data[0] && i < 24
    requires (b == if |data| > 1 then data[1] else 0) && (c == if |data| > 2 then data[2] else 0)
    ensures DataBit(data, i) == Bit(if i < 8 then a else if i < 16 then b else c, 7 - i % 8)
  {
    hide Bit;
    BitZero(7 - i % 8);
    assert i / 8 == if i < 8 then 0 else if i < 16 then 1 else 2;
  }

  lemma Sextet0(data: seq<byte>, a: byte, b: byte, c: byte)
    requires data != [] && a == data[0]
    requires (b == if |data| > 1 then data[1] else 0) && (c == if |data| > 2 then data[2] else 0)
    ensures SixBits(data, 0) == a / 4
  {
    hide Bit, DataBit;
    Cuts(a);
    BitAt(data, a, b, c, 0);
    BitAt(data, a, b, c, 1);
    BitAt(data, a, b, c, 2);
    BitAt(data, a, b, c, 3);
    BitAt(data, a, b, c, 4);
    BitAt(data, a, b, c, 5);
  }

  lemma Sextet1(data: seq<byte>, a: byte, b: byte, c: byte)
    requires data != [] && a == data[0]
    requires (b == if |data| > 1 then data[1] else 0) && (c == if |data| > 2 then data[2] else 0)
    ensures SixBits(data, 6) == a % 4 * 16 + b / 16
  {
    hide Bit, DataBit;
    Cuts(a);
    Cuts(b);
    BitAt(data, a, b, c, 6);
    BitAt(data, a, b, c, 7);
    BitAt(data, a, b, c, 8);
    BitAt(data, a, b, c, 9);
    BitAt(data, a, b, c, 10);
    BitAt(data, a, b, c, 11);
  }

  lemma Sextet2(data: seq<byte>, a: byte, b: byte, c: byte)
    requires data != [] && a == data[0]
    requires (b == if |data| > 1 then data[1] else 0) && (c == if |data| > 2 then data[2] else 0)
    ensures SixBits(data, 12) == b % 16 * 4 + c / 64
  {
    hide Bit, DataBit;
    Cuts(b);
    Cuts(c);
    BitAt(data, a, b, c, 12);
    BitAt(data, a, b, c, 13);
    BitAt(data, a, b, c, 14);
    BitAt(data, a, b, c, 15);
    BitAt(data, a, b, c, 16);
    BitAt(data, a, b, c, 17);
  }

  lemma Sextet3(data: seq<byte>, a: byte, b: byte, c: byte)
    requires data != [] && a == data[0]
    requires (b == if |data| > 1 then data[1] else 0) && (c == if |data| > 2 then data[2] else 0)
    ensures SixBits(data, 18) == c % 64
  {
    hide Bit, DataBit;
    Cuts(c);
    BitAt(data, a, b, c, 18);
    BitAt(data, a, b, c, 19);
    BitAt(data, a, b, c, 20);
    BitAt(data, a, b, c, 21);
    BitAt(data, a, b, c, 22);
    BitAt(data, a, b, c, 23);
  }

  /** The four sextets of a group are its bits six at a time, for a last group of one or two octets with zeros
      behind. */
  lemma SextetBits(data: seq<byte>, a: byte, b: byte, c: byte, i: nat)
    requires data != [] && a == data[0] && i < 4
    requires (b == if |data| > 1 then data[1] else 0) && (c == if |data| > 2 then data[2] else 0)
    ensures Sextets(a, b, c)[i] == SixBits(data, 6 * i)
  {
    hide SixBits;
    Sextet0(data, a, b, c);
    Sextet1(data, a, b, c);
    Sextet2(data, a, b, c);
    Sextet3(data, a, b, c);
  }

  lemma LaterBit(data: seq<byte>, j: nat)
    requires |data| >= 3
    ensures DataBit(data, 24 + j) == DataBit(data[3..], j)
  {
    hide Bit;
    assert (24 + j) / 8 == 3 + j / 8 && (24 + j) % 8 == j % 8;
  }

  lemma LaterBits(data: seq<byte>, at: nat)
    requires |data| >= 3
    ensures SixBits(data, 24 + at) == SixBits(data[3..], at)
  {
    hide DataBit;
    LaterBit(data, at);
    LaterBit(data, at + 1);
    LaterBit(data, at + 2);
    LaterBit(data, at + 3);
    LaterBit(data, at + 4);
    LaterBit(data, at + 5);
  }

  /** Without padding, the text has a character for every six bits, rounded up, and the i-th is the table entry of the
      bits from 6i on. */
  lemma {:induction false} TextIs(url: bool, data: seq<byte>, i: nat)
    ensures |Core(url, false, data)| == (8 * |data| + 5) / 6
    ensures i < |Core(url, false, data)| ==> Core(url, false, data)[i] == Alphabet(url)[SixBits(data, 6 * i)] as int
    decreases |data|
  {
    hide SixBits, Symbol, Sextets, Alphabet;
    if data != [] {
      var a, b, c := data[0], if |data| > 1 then data[1] else 0, if |data| > 2 then data[2] else 0;
      if i < 4 {
        SextetBits(data, a, b, c, i);
        SymbolTable(url, Sextets(a, b, c)[i]);
      }
      if |data| >= 3 {
        TextIs(url, data[3..], if i < 4 then 0 else i - 4);
        if i >= 4 {
          LaterBits(data, 6 * (i - 4));
        }
      }
    }
  }

  /** Padding completes the last group of four. */
  lemma PaddingIs(url: bool, data: seq<byte>)
    ensures var bare, full := Core(url, false, data), Core(url, true, data);
            full == bare + seq(Missing(|bare|), _ => 61) && |full| % 4 == 0
  {
    hide Core;
    PaddedCore(url, false, data);
  }

  /** Lines of 72 characters, each ended by a line feed; the first has room for some less. */
  function Lines(text: seq<byte>, room: nat): (r: seq<byte>)
    requires 0 < room <= 72
    decreases |text|
  {
    if text == [] then if room < 72 then [10] else []
    else if |text| < room then text + [10]
    else text[..room] + [10] + Lines(text[room..], 72)
  }

  /** Without padding there are no lines. */
  lemma {:induction false} NoLines(url: bool, data: seq<byte>, line: nat)
    ensures Encode(url, false, data, line) == Core(url, false, data)
    decreases |data|
  {
    hide Symbols, Sextets;
    if |data| >= 3 {
      NoLines(url, data[3..], line + 4);
    }
  }

  lemma GroupText(url: bool, data: seq<byte>, line: nat)
    requires |data| >= 3
    ensures var group := Symbols(url, Sextets(data[0], data[1], data[2]));
            && Core(url, true, data) == group + Core(url, true, data[3..])
            && Encode(url, true, data, line) ==
               if line + 4 >= 72 then group + [10] + Encode(url, true, data[3..], 0)
               else group + Encode(url, true, data[3..], line + 4)
  {
    hide Symbols, Sextets;
  }

  lemma ShortText(url: bool, data: seq<byte>, line: nat)
    requires 0 < |data| < 3
    ensures Encode(url, true, data, line) == Core(url, true, data) + [10] && |Core(url, true, data)| == 4
  {
    hide Symbols, Sextets;
  }

  /** With padding, the text is laid out in lines. */
  lemma {:induction false} LayoutIs(url: bool, data: seq<byte>, line: nat)
    requires line < 72 && line % 4 == 0
    ensures Encode(url, true, data, line) == Lines(Core(url, true, data), 72 - line)
    decreases |data|
  {
    hide Symbols, Sextets, Lines, Encode, Core;
    if |data| >= 3 {
      GroupText(url, data, line);
      LayoutIs(url, data[3..], if line + 4 >= 72 then 0 else line + 4);
      LinesGroup(Symbols(url, Sextets(data[0], data[1], data[2])), Core(url, true, data[3..]), 72 - line);
    } else if data != [] {
      ShortText(url, data, line);
      LinesGroup(Core(url, true, data), [], 72 - line);
      assert Core(url, true, data) + [] == Core(url, true, data);
      LastLine(if line + 4 >= 72 then 72 else 68 - line);
    } else {
      NoText(url, line);
      LastLine(72 - line);
    }
  }

  lemma NoText(url: bool, line: nat)
    ensures Core(url, true, []) == [] && Encode(url, true, [], line) == if line > 0 then [10] else []
  {
  }

  lemma LastLine(room: nat)
    requires 0 < room <= 72
    ensures Lines([], room) == if room < 72 then [10] else []
  {
  }

  lemma LinesGroup(group: seq<byte>, rest: seq<byte>, room: nat)
    requires |group| == 4 && 4 <= room <= 72 && room % 4 == 0
    ensures Lines(group + rest, room) ==
            if room == 4 then group + [10] + Lines(rest, 72) else group + Lines(rest, room - 4)
  {
    var text := group + rest;
    if |text| >= room {
      assert text[..room] == group + rest[..room - 4] && text[room..] == rest[room - 4..];
    }
  }

  /** Reading ends with a padded group: what follows a padded text changes nothing. */
  lemma {:induction false} BlocksStop(url: bool, data: seq<byte>, more: seq<byte>)
    requires |data| % 3 != 0 && forall c :: c in more ==> Counts(url, c)
    ensures Blocks(url, Core(url, true, data) + more) == Some(data)
    decreases |data|
  {
    hide Symbols, Sextets, Counts, Octets, BlockBits, Pads;
    var core := Core(url, true, data);
    if |data| >= 3 {
      var v := Sextets(data[0], data[1], data[2]);
      GroupBits(url, v);
      OctetsSextets(data[0], data[1], data[2]);
      BlocksStop(url, data[3..], more);
      assert (core + more)[..4] == Symbols(url, v) && (core + more)[4..] == Core(url, true, data[3..]) + more;
      assert data == [data[0], data[1], data[2]] + data[3..];
    } else {
      var b: byte := if |data| == 2 then data[1] else 0;
      Tail(data[0], b);
      ShortGroup(url, Sextets(data[0], b, 0), |data| + 1);
      OctetsSextets(data[0], b, 0);
      assert (core + more)[..4] == core;
      assert [data[0], b, 0][..|data|] == data;
    }
  }

  lemma AfterPadding(url: bool, data: seq<byte>, junk: seq<byte>)
    requires |data| % 3 != 0
    ensures Decode(url, Encode(url, true, data, 0) + junk) == Some(data)
  {
    hide Encode, Core, Blocks, Kept, Counts, Missing;
    var core, rest := Core(url, true, data), Kept(url, junk);
    KeptEncode(url, true, data, 0);
    KeptConcat(url, Encode(url, true, data, 0), junk);
    var pads := seq(Missing(|core + rest|), _ => PAD);
    assert Padded(core + rest) == core + (rest + pads);
    assert forall c :: c in pads ==> Counts(url, c) by { PadCounts(url); }
    BlocksStop(url, data, rest + pads);
  }

  lemma PadCounts(url: bool)
    ensures Counts(url, PAD)
  {
  }
}
