/** Base64 text (RFC 4648, sections 4 and 5) and its reading, as base64.c writes and reads it. */
module Base64 {
  import opened Bytes
  import opened Options

  const PAD: byte := 61
  const NEWLINE: byte := 10
  const LINE := 72

  /** base64_table and base64_url_table. */
  function Symbol(url: bool, v: nat): (r: byte)
    requires v < 64
  {
    if v < 26 then 65 + v
    else if v < 52 then 71 + v
    else if v < 62 then v - 4
    else if v == 62 then if url then 45 else 43
    else if url then 95 else 47
  }

  /** The value of a symbol. */
  function Value(url: bool, c: byte): (r: Option<nat>)
    ensures r.Some? ==> r.value < 64 && Symbol(url, r.value) == c
  {
    if 65 <= c <= 90 then Some(c - 65)
    else if 97 <= c <= 122 then Some(c - 71)
    else if 48 <= c <= 57 then Some(c + 4)
    else if c == Symbol(url, 62) then Some(62)
    else if c == Symbol(url, 63) then Some(63)
    else None
  }

  lemma ValueSymbol(url: bool, v: nat)
    requires v < 64
    ensures Value(url, Symbol(url, v)) == Some(v) && Symbol(url, v) != PAD
  {
  }

  /** Six bits at a time. */
  function Sextets(a: byte, b: byte, c: byte): (r: seq<nat>)
    ensures |r| == 4 && forall i :: 0 <= i < 4 ==> r[i] < 64
  {
    [a / 4, a % 4 * 16 + b / 16, b % 16 * 4 + c / 64, c % 64]
  }

  function Octets(v: seq<nat>): (r: seq<byte>)
    requires |v| == 4 && forall i :: 0 <= i < 4 ==> v[i] < 64
    ensures |r| == 3
  {
    [v[0] * 4 + v[1] / 16, v[1] % 16 * 16 + v[2] / 4, v[2] % 4 * 64 + v[3]]
  }

  lemma OctetsSextets(a: byte, b: byte, c: byte)
    ensures Octets(Sextets(a, b, c)) == [a, b, c]
  {
  }

  function Symbols(url: bool, v: seq<nat>): (r: seq<byte>)
    requires forall i :: 0 <= i < |v| ==> v[i] < 64
    ensures |r| == |v| && forall i :: 0 <= i < |v| ==> r[i] == Symbol(url, v[i])
  {
    seq(|v|, i requires 0 <= i < |v| => Symbol(url, v[i]))
  }

  /** The padding characters of the last group, if there is padding. */
  function Padding(pad: bool, n: nat): (r: seq<byte>) { if pad then seq(n, _ => PAD) else [] }

  function Break(pad: bool): (r: seq<byte>) { if pad then [NEWLINE] else [] }

  /** The text of some octets, when `line` characters of the current line are already there. With padding, lines are
      broken after 72 characters and the last one is ended. */
  function Encode(url: bool, pad: bool, data: seq<byte>, line: nat): (r: seq<byte>)
    decreases |data|
  {
    if |data| >= 3 then
      var group := Symbols(url, Sextets(data[0], data[1], data[2]));
      if pad && line + 4 >= LINE then group + [NEWLINE] + Encode(url, pad, data[3..], 0)
      else group + Encode(url, pad, data[3..], line + 4)
    else if |data| == 2 then
      Symbols(url, Sextets(data[0], data[1], 0))[..3] + Padding(pad, 1) + Break(pad)
    else if |data| == 1 then
      Symbols(url, Sextets(data[0], 0, 0))[..2] + Padding(pad, 2) + Break(pad)
    else if line > 0 then Break(pad)
    else []
  }

  predicate Counts(url: bool, c: byte) { c == PAD || Value(url, c).Some? }

  /** The characters a reader looks at. */
  function Kept(url: bool, text: seq<byte>): (r: seq<byte>)
    ensures |r| <= |text| && forall c :: c in r ==> Counts(url, c)
    decreases |text|
  {
    if text == [] then []
    else
      var n := |text| - 1;
      Kept(url, text[..n]) + (if Counts(url, text[n]) then [text[n]] else [])
  }

  /** How many characters of padding a group needs. */
  function Missing(n: nat): (r: nat)
    ensures (n + r) % 4 == 0 && r < 4
  {
    (4 - n % 4) % 4
  }

  function Bits(url: bool, c: byte): (r: nat)
    requires Counts(url, c)
    ensures r < 64
  {
    if c == PAD then 0 else Value(url, c).value
  }

  function BlockBits(url: bool, block: seq<byte>): (r: seq<nat>)
    requires forall c :: c in block ==> Counts(url, c)
    ensures |r| == |block| && forall i :: 0 <= i < |r| ==> r[i] < 64
  {
    seq(|block|, i requires 0 <= i < |block| => assert block[i] in block; Bits(url, block[i]))
  }

  function Pads(block: seq<byte>): (r: nat)
    ensures r <= |block|
    decreases |block|
  {
    if block == [] then 0 else Pads(block[..|block| - 1]) + (if block[|block| - 1] == PAD then 1 else 0)
  }

  /** Groups of four up to the first that is padded; more than two padding characters in it are an error. */
  function Blocks(url: bool, kept: seq<byte>): (r: Option<seq<byte>>)
    requires forall c :: c in kept ==> Counts(url, c)
    decreases |kept|
  {
    if |kept| < 4 then Some([])
    else
      var out, pads := Octets(BlockBits(url, kept[..4])), Pads(kept[..4]);
      if pads > 2 then None
      else if pads > 0 then Some(out[..3 - pads])
      else
        var rest := Blocks(url, kept[4..]);
        if rest.None? then None else Some(out + rest.value)
  }

  function Padded(kept: seq<byte>): (r: seq<byte>)
    ensures |r| == |kept| + Missing(|kept|) && forall c :: c in r ==> c in kept || c == PAD
  {
    kept + seq(Missing(|kept|), _ => PAD)
  }

  /** base64_gen_decode. */
  function Decode(url: bool, text: seq<byte>): (r: Option<seq<byte>>)
  {
    var kept := Kept(url, text);
    if kept == [] then None else Blocks(url, Padded(kept))
  }

  /** The text without its line feeds. */
  function Core(url: bool, pad: bool, data: seq<byte>): (r: seq<byte>)
    ensures forall c :: c in r ==> Counts(url, c)
    ensures |r| >= |data|
    decreases |data|
  {
    if |data| >= 3 then
      var v := Sextets(data[0], data[1], data[2]);
      SymbolsCount(url, v);
      Symbols(url, v) + Core(url, pad, data[3..])
    else if |data| == 2 then
      SymbolsCount(url, Sextets(data[0], data[1], 0));
      Symbols(url, Sextets(data[0], data[1], 0))[..3] + Padding(pad, 1)
    else if |data| == 1 then
      SymbolsCount(url, Sextets(data[0], 0, 0));
      Symbols(url, Sextets(data[0], 0, 0))[..2] + Padding(pad, 2)
    else []
  }

  lemma SymbolsCount(url: bool, v: seq<nat>)
    requires forall i :: 0 <= i < |v| ==> v[i] < 64
    ensures forall c :: c in Symbols(url, v) ==> Counts(url, c) && c != PAD
  {
  }

  lemma {:induction false} KeptConcat(url: bool, a: seq<byte>, b: seq<byte>)
    ensures Kept(url, a + b) == Kept(url, a) + Kept(url, b)
    decreases |b|
  {
    hide Counts;
    if b == [] {
      assert a + b == a;
    } else {
      var n := |b| - 1;
      var last := if Counts(url, b[n]) then [b[n]] else [];
      assert (a + b)[..|a + b| - 1] == a + b[..n];
      KeptConcat(url, a, b[..n]);
      assert Kept(url, a + b) == Kept(url, a + b[..n]) + last;
    }
  }

  lemma {:induction false} KeptAll(url: bool, a: seq<byte>)
    requires forall c :: c in a ==> Counts(url, c)
    ensures Kept(url, a) == a
    decreases |a|
  {
    hide Counts;
    if a != [] {
      KeptAll(url, a[..|a| - 1]);
    }
  }

  lemma KeptBreak(url: bool, pad: bool)
    ensures Kept(url, Break(pad)) == [] && Kept(url, [NEWLINE]) == []
  {
  }

  /** Reading skips the line feeds. */
  lemma {:induction false} KeptEncode(url: bool, pad: bool, data: seq<byte>, line: nat)
    ensures Kept(url, Encode(url, pad, data, line)) == Core(url, pad, data)
    decreases |data|
  {
    hide Counts, Kept, Symbols, Sextets;
    KeptBreak(url, pad);
    if |data| >= 3 {
      var v := Sextets(data[0], data[1], data[2]);
      var group, next := Symbols(url, v), if pad && line + 4 >= LINE then 0 else line + 4;
      var rest := Encode(url, pad, data[3..], next);
      SymbolsCount(url, v);
      KeptAll(url, group);
      KeptEncode(url, pad, data[3..], next);
      KeptConcat(url, group, [NEWLINE]);
      KeptConcat(url, group + [NEWLINE], rest);
      KeptConcat(url, group, rest);
    } else if |data| > 0 {
      var core := Core(url, pad, data);
      KeptAll(url, core);
      KeptConcat(url, core, Break(pad));
    }
  }

  lemma PaddedGroup(group: seq<byte>, rest: seq<byte>)
    requires |group| == 4
    ensures Padded(group + rest) == group + Padded(rest)
  {
  }

  lemma PaddedShort(url: bool, pad: bool, data: seq<byte>)
    requires |data| < 3
    ensures Padded(Core(url, pad, data)) == Core(url, true, data)
  {
  }

  /** A reader completes an unpadded text to the padded one. */
  lemma {:induction false} PaddedCore(url: bool, pad: bool, data: seq<byte>)
    ensures Padded(Core(url, pad, data)) == Core(url, true, data)
    decreases |data|
  {
    hide Symbols, Sextets, Counts, Padded, Padding;
    if |data| >= 3 {
      PaddedCore(url, pad, data[3..]);
      PaddedGroup(Symbols(url, Sextets(data[0], data[1], data[2])), Core(url, pad, data[3..]));
    } else {
      PaddedShort(url, pad, data);
    }
  }

  lemma GroupBits(url: bool, v: seq<nat>)
    requires |v| == 4 && forall i :: 0 <= i < 4 ==> v[i] < 64
    ensures var b := Symbols(url, v); (forall c :: c in b ==> Counts(url, c)) && BlockBits(url, b) == v && Pads(b) == 0
  {
    var b := Symbols(url, v);
    assert forall i :: 0 <= i < 4 ==> Value(url, b[i]) == Some(v[i]);
    NoPads(b);
  }

  lemma {:induction false} NoPads(b: seq<byte>)
    requires PAD !in b
    ensures Pads(b) == 0
    decreases |b|
  {
    if b != [] {
      NoPads(b[..|b| - 1]);
    }
  }

  /** A padded group: the padding stands for zero bits. */
  lemma ShortGroup(url: bool, v: seq<nat>, n: nat)
    requires |v| == 4 && (forall i :: 0 <= i < 4 ==> v[i] < 64) && 2 <= n <= 3 && forall i :: n <= i < 4 ==> v[i] == 0
    ensures var b := Symbols(url, v)[..n] + Padding(true, 4 - n);
            |b| == 4 && (forall c :: c in b ==> Counts(url, c)) && BlockBits(url, b) == v && Pads(b) == 4 - n
  {
    var s := Symbols(url, v);
    var b := s[..n] + Padding(true, 4 - n);
    assert forall i :: 0 <= i < 4 ==> Counts(url, b[i]) && Bits(url, b[i]) == v[i];
    NoPads(s[..n]);
    assert b[..3] == s[..n] + Padding(true, 3 - n) && b[..3][..2] == s[..2];
  }

  /** Groups of four give back groups of three. */
  lemma {:induction false} BlocksCore(url: bool, data: seq<byte>)
    ensures Blocks(url, Core(url, true, data)) == Some(data)
    decreases |data|
  {
    hide Symbols, Sextets, Counts, Octets, BlockBits, Pads;
    var core := Core(url, true, data);
    if |data| >= 3 {
      var v := Sextets(data[0], data[1], data[2]);
      GroupBits(url, v);
      OctetsSextets(data[0], data[1], data[2]);
      BlocksCore(url, data[3..]);
      assert data == [data[0], data[1], data[2]] + data[3..];
    } else if |data| > 0 {
      var b: byte := if |data| == 2 then data[1] else 0;
      var v := Sextets(data[0], b, 0);
      Tail(data[0], b);
      ShortGroup(url, v, |data| + 1);
      OctetsSextets(data[0], b, 0);
      assert core[..4] == core;
      assert [data[0], b, 0][..|data|] == data;
    }
  }

  lemma Tail(a: byte, b: byte)
    ensures Sextets(a, b, 0)[3] == 0 && Sextets(a, 0, 0)[2] == 0
  {
  }

  /** What is written is read back, in both alphabets, with padding and line feeds or without, unless it is empty. */
  lemma RoundTrip(url: bool, pad: bool, data: seq<byte>)
    ensures Decode(url, Encode(url, pad, data, 0)) == Some(data) <==> data != []
  {
    hide Encode, Core, Blocks, Kept;
    KeptEncode(url, pad, data, 0);
    PaddedCore(url, pad, data);
    BlocksCore(url, data);
    if data == [] {
      EmptyText(url, pad);
    }
  }

  /** Reading depends only on the characters that count. */
  lemma DecodeKept(url: bool, text: seq<byte>)
    ensures Decode(url, text) == Decode(url, Kept(url, text))
  {
    KeptAll(url, Kept(url, text));
  }

  lemma EmptyText(url: bool, pad: bool)
    ensures Core(url, pad, []) == []
  {
  }

  const SIZE_MAX := 0xffff_ffff_ffff_ffff

  /** The buffer size base64_gen_encode computes. */
  function Size(pad: bool, n: nat): (r: nat)
  {
    var olen := n * 4 / 3 + 4;
    olen + (if pad then olen / LINE else 0) + 1
  }

  lemma ThirdOf(n: nat)
    requires n >= 3
    ensures n * 4 / 3 == (n - 3) * 4 / 3 + 4
  {
  }

  /** The text and its end mark fit the computed size, line feeds included. */
  lemma {:induction false} EncodeFits(url: bool, pad: bool, data: seq<byte>, line: nat)
    requires line % 4 == 0 && line < LINE
    ensures var olen := |data| * 4 / 3 + 4;
            |Encode(url, pad, data, line)| <= olen + if pad then (line + olen) / LINE else 0
    decreases |data|
  {
    hide Symbols, Sextets;
    if |data| >= 3 {
      ThirdOf(|data|);
      if pad && line + 4 < LINE {
        EncodeFits(url, pad, data[3..], line + 4);
      } else {
        EncodeFits(url, pad, data[3..], 0);
        LineFree(url, data[3..], line + 4);
      }
    }
  }

  /** Without padding the line does not matter. */
  lemma {:induction false} LineFree(url: bool, data: seq<byte>, line: nat)
    ensures Encode(url, false, data, line) == Encode(url, false, data, 0)
    decreases |data|
  {
    hide Symbols, Sextets;
    if |data| >= 3 {
      LineFree(url, data[3..], line + 4);
      LineFree(url, data[3..], 4);
    }
  }
}
