/** base64_gen_encode and base64_gen_decode (base64.c) over arrays. */
module Base64Code {
  import opened Bytes
  import opened Options
  import opened Base64

  lemma Shifts()
    ensures Pow2(2) == 4 && Pow2(4) == 16 && Pow2(6) == 64
  {
  }

  /** The four table indices of three octets. */
  method Split(a: byte, b: byte, c: byte) returns (v: seq<nat>)
    ensures v == Sextets(a, b, c)
  {
    hide OrBits, Pow2;
    Shifts();
    OrBitsDisjoint(a % 4, b / 16, 4);
    OrBitsDisjoint(b % 16, c / 64, 2);
    v := [a / 4, OrBits(a % 4 * 16, b / 16), OrBits(b % 16 * 4, c / 64), c % 64];
  }

  /** The three octets of four table indices, each cut to eight bits. */
  method Merge(v: seq<nat>) returns (r: seq<byte>)
    requires |v| == 4 && forall i :: 0 <= i < 4 ==> v[i] < 64
    ensures r == Octets(v)
  {
    hide OrBits, Pow2;
    Shifts();
    OrBitsDisjoint(v[0], v[1] / 16, 2);
    OrBitsDisjoint(v[1] % 16, v[2] / 4, 4);
    OrBitsDisjoint(v[2] % 4, v[3], 6);
    assert v[1] * 16 % 256 == v[1] % 16 * 16 && v[2] * 64 % 256 == v[2] % 4 * 64;
    r := [OrBits(v[0] * 4, v[1] / 16), OrBits(v[1] * 16 % 256, v[2] / 4), OrBits(v[2] * 64 % 256, v[3])];
  }

  lemma EncodeStep(url: bool, pad: bool, src: seq<byte>, i: nat, line: nat)
    requires i + 3 <= |src|
    ensures var group := Symbols(url, Sextets(src[i], src[i + 1], src[i + 2]));
            Encode(url, pad, src[i..], line) ==
              if pad && line + 4 >= LINE then group + [NEWLINE] + Encode(url, pad, src[i + 3..], 0)
              else group + Encode(url, pad, src[i + 3..], line + 4)
  {
  }

  lemma EncodeTail(url: bool, pad: bool, tail: seq<byte>, line: nat)
    requires |tail| < 3
    ensures Encode(url, pad, tail, line) ==
            (if |tail| == 2 then Symbols(url, Sextets(tail[0], tail[1], 0))[..3] + Padding(pad, 1) + Break(pad)
             else if |tail| == 1 then Symbols(url, Sextets(tail[0], 0, 0))[..2] + Padding(pad, 2) + Break(pad)
             else if line > 0 then Break(pad) else [])
  {
  }

  /** Appends to the text at the head of a buffer. */
  method Put(out: array<byte>, pos: nat, s: seq<byte>) returns (next: nat)
    requires pos + |s| <= out.Length
    modifies out
    ensures next == pos + |s| && out[..next] == old(out[..pos]) + s
  {
    ghost var was := out[..];
    WriteAt(out, pos, s);
    next := pos + |s|;
  }

  /** One whole group, and the line feed when the line is full. */
  method EncodeGroup(url: bool, pad: bool, src: seq<byte>, i: nat, line: nat, out: array<byte>, at: nat)
    returns (pos: nat, next: nat)
    requires i + 3 <= |src| && at + |Encode(url, pad, src[i..], line)| < out.Length
    modifies out
    ensures at <= pos <= out.Length
    ensures out[..pos] + Encode(url, pad, src[i + 3..], next) == old(out[..at]) + Encode(url, pad, src[i..], line)
  {
    hide Encode, Symbols, Sextets;
    EncodeStep(url, pad, src, i, line);
    var v := Split(src[i], src[i + 1], src[i + 2]);
    pos := Put(out, at, Symbols(url, v));
    next := line + 4;
    if pad && next >= LINE {
      pos := Put(out, pos, [NEWLINE]);
      next := 0;
    }
  }

  /** The loop over whole groups. */
  method EncodeGroups(url: bool, pad: bool, src: seq<byte>, out: array<byte>) returns (i: nat, pos: nat, line: nat)
    requires |Encode(url, pad, src, 0)| < out.Length
    modifies out
    ensures |src| - 3 < i <= |src| && pos <= out.Length
    ensures out[..pos] + Encode(url, pad, src[i..], line) == Encode(url, pad, src, 0)
  {
    hide Encode;
    i, pos, line := 0, 0, 0;
    while |src| - i >= 3
      invariant 0 <= i <= |src| && pos <= out.Length
      invariant out[..pos] + Encode(url, pad, src[i..], line) == Encode(url, pad, src, 0)
    {
      pos, line := EncodeGroup(url, pad, src, i, line, out, pos);
      i := i + 3;
    }
  }

  /** The last one or two octets, the padding and the last line feed. */
  method EncodeRest(url: bool, pad: bool, tail: seq<byte>, line: nat, out: array<byte>, at: nat) returns (pos: nat)
    requires |tail| < 3 && at + |Encode(url, pad, tail, line)| <= out.Length
    modifies out
    ensures pos <= out.Length && out[..pos] == old(out[..at]) + Encode(url, pad, tail, line)
  {
    hide Encode, Symbols, Sextets;
    EncodeTail(url, pad, tail, line);
    pos := at;
    var len := line;
    if |tail| > 0 {
      var v;
      if |tail| == 1 {
        v := Split(tail[0], 0, 0);
        pos := Put(out, pos, Symbols(url, v)[..2]);
      } else {
        v := Split(tail[0], tail[1], 0);
        pos := Put(out, pos, Symbols(url, v)[..3]);
      }
      pos := Put(out, pos, Padding(pad, 3 - |tail|));
      len := len + 4;
    }
    if pad && len > 0 {
      pos := Put(out, pos, [NEWLINE]);
    }
  }

  /** base64_gen_encode: NULL for a length whose text could not be sized, else a terminated text. */
  method GenEncode(url: bool, pad: bool, src: seq<byte>) returns (out: array?<byte>, len: nat)
    ensures out == null <==> |src| >= SIZE_MAX / 4
    ensures out != null ==> fresh(out) && out.Length == Size(pad, |src|) <= SIZE_MAX
    ensures out != null ==> len < out.Length && out[len] == 0
    ensures out != null ==> out[..len] == Encode(url, pad, src, 0)
  {
    hide Encode;
    if |src| >= SIZE_MAX / 4 {
      return null, 0;
    }
    EncodeFits(url, pad, src, 0);
    var olen := |src| * 4 / 3 + 4;
    if pad {
      olen := olen + olen / LINE;
    }
    olen := olen + 1;
    out := new byte[olen];
    var i, pos, line := EncodeGroups(url, pad, src, out);
    len := EncodeRest(url, pad, src[i..], line, out, pos);
    out[len] := 0;
  }

  const SKIP: byte := 0x80

  /** dtable: the value of every character, 0x80 for those to skip. */
  method DecodeTable(url: bool) returns (t: array<byte>)
    ensures fresh(t) && t.Length == 256
    ensures forall c: byte :: t[c] == if Counts(url, c) then Bits(url, c) else SKIP
  {
    hide Symbol, Value;
    t := new byte[256](_ => SKIP);
    var i := 0;
    while i < 64
      invariant 0 <= i <= 64
      invariant forall c: byte ::
                  t[c] == if Value(url, c).Some? && Value(url, c).value < i then Value(url, c).value else SKIP
    {
      ValueSymbol(url, i);
      t[Symbol(url, i)] := i;
      i := i + 1;
    }
    t[PAD] := 0;
  }

  lemma KeptStep(url: bool, text: seq<byte>, i: nat)
    requires i < |text|
    ensures Kept(url, text[..i + 1]) == Kept(url, text[..i]) + (if Counts(url, text[i]) then [text[i]] else [])
    ensures Kept(url, text[..i + 1]) <= Kept(url, text)
  {
    hide Counts;
    assert text[..i + 1][..i] == text[..i];
    assert text == text[..i + 1] + text[i + 1..];
    KeptConcat(url, text[..i + 1], text[i + 1..]);
  }

  method CountKept(url: bool, t: array<byte>, src: seq<byte>) returns (count: nat)
    requires t.Length == 256 && forall c: byte :: t[c] == if Counts(url, c) then Bits(url, c) else SKIP
    ensures count == |Kept(url, src)|
  {
    hide Counts, Kept;
    count := 0;
    var i := 0;
    while i < |src|
      invariant 0 <= i <= |src| && count == |Kept(url, src[..i])|
    {
      KeptStep(url, src, i);
      if t[src[i]] != SKIP {
        count := count + 1;
      }
      i := i + 1;
    }
    assert src[..i] == src;
  }

  function Prefixed(p: seq<byte>, r: Option<seq<byte>>): Option<seq<byte>>
  {
    if r.None? then None else Some(p + r.value)
  }

  /** The text completed with padding characters keeps the completed characters. */
  lemma KeptPadded(url: bool, src: seq<byte>, extra: seq<byte>)
    requires extra == seq(Missing(|Kept(url, src)|), _ => PAD)
    ensures Kept(url, src + extra) == Padded(Kept(url, src))
  {
    hide Kept, Missing;
    KeptConcat(url, src, extra);
    KeptAll(url, extra);
  }

  lemma BlocksStep(url: bool, kept: seq<byte>, n: nat, out: seq<byte>, pads: nat)
    requires n + 4 <= |kept| && (forall c :: c in kept ==> Counts(url, c))
    requires out == Octets(BlockBits(url, kept[n..n + 4])) && pads == Pads(kept[n..n + 4])
    ensures Blocks(url, kept[n..]) ==
            if pads > 2 then None
            else if pads > 0 then Some(out[..3 - pads])
            else Prefixed(out, Blocks(url, kept[n + 4..]))
  {
    hide Counts, Octets, BlockBits, Pads;
    assert kept[n..][..4] == kept[n..n + 4] && kept[n..][4..] == kept[n + 4..];
  }

  lemma BlockNext(url: bool, kept: seq<byte>, n: nat, k: nat)
    requires n <= k < |kept| && (forall c :: c in kept ==> Counts(url, c))
    ensures BlockBits(url, kept[n..k + 1]) == BlockBits(url, kept[n..k]) + [Bits(url, kept[k])]
    ensures Pads(kept[n..k + 1]) == Pads(kept[n..k]) + if kept[k] == PAD then 1 else 0
  {
    hide Counts, Bits;
    assert kept[n..k + 1][..k - n] == kept[n..k] && kept[n..k + 1][k - n] == kept[k];
  }

  /** Where the reading loop is: `k` characters are kept, the last |block| of them wait for their group to fill, and
      the groups before went to the output. */
  ghost predicate Reading(url: bool, kept: seq<byte>, done: seq<byte>, q: nat, k: nat, block: seq<nat>, pads: nat)
  {
    && (forall c :: c in kept ==> Counts(url, c))
    && 4 * q <= k <= |kept| && k == 4 * q + |block|
    && block == BlockBits(url, kept[4 * q..k]) && pads == Pads(kept[4 * q..k])
    && |done| == 3 * q
    && Blocks(url, kept) == Prefixed(done, Blocks(url, kept[4 * q..]))
  }

  lemma ReadingNext(url: bool, kept: seq<byte>, done: seq<byte>, q: nat, k: nat, block: seq<nat>, pads: nat)
    requires Reading(url, kept, done, q, k, block, pads) && k < |kept|
    ensures Counts(url, kept[k])
    ensures Reading(url, kept, done, q, k + 1, block + [Bits(url, kept[k])], pads + if kept[k] == PAD then 1 else 0)
  {
    hide Counts, Blocks, BlockBits, Pads;
    BlockNext(url, kept, 4 * q, k);
  }

  lemma ReadingStart(url: bool, kept: seq<byte>)
    requires forall c :: c in kept ==> Counts(url, c)
    ensures Reading(url, kept, [], 0, 0, [], 0)
  {
    hide Counts, Blocks;
    var r := Blocks(url, kept);
    assert r.Some? ==> [] + r.value == r.value;
  }

  /** A full group goes to the output; if it is padded, that ends the text. */
  lemma ReadingFull(url: bool, kept: seq<byte>, done: seq<byte>, q: nat, k: nat, block: seq<nat>, pads: nat)
    requires Reading(url, kept, done, q, k, block, pads) && |block| == 4
    ensures (forall i :: 0 <= i < 4 ==> block[i] < 64) && 3 * q + 3 <= |kept| / 4 * 3
    ensures pads > 2 ==> Blocks(url, kept) == None
    ensures 0 < pads <= 2 ==> Blocks(url, kept) == Some(done + Octets(block)[..3 - pads])
    ensures pads == 0 ==> Reading(url, kept, done + Octets(block), q + 1, k, [], 0)
  {
    hide Counts, Blocks, BlockBits, Pads, Octets;
    BlocksStep(url, kept, 4 * q, Octets(block), pads);
    if pads == 0 {
      var rest := Blocks(url, kept[k..]);
      assert rest.Some? ==> done + (Octets(block) + rest.value) == done + Octets(block) + rest.value;
    }
  }

  lemma ReadingEnds(url: bool, kept: seq<byte>, done: seq<byte>, q: nat, block: seq<nat>, pads: nat)
    requires Reading(url, kept, done, q, |kept|, block, pads) && |block| < 4
    ensures Blocks(url, kept) == Some(done)
  {
    hide Counts, BlockBits, Pads;
    assert done + [] == done;
  }

  /** One counting character: stored in the group, which goes to the output when it is full. */
  method Feed(url: bool, value: byte, isPad: bool, out: array<byte>, at: nat, waiting: seq<nat>, padsSoFar: nat,
              ghost kept: seq<byte>, ghost q: nat, ghost k: nat)
    returns (ended: bool, ok: bool, pos: nat, block: seq<nat>, pads: nat, ghost groups: nat)
    requires at <= out.Length && at == 3 * q && |waiting| < 4 && k < |kept|
    requires Reading(url, kept, out[..at], q, k, waiting, padsSoFar)
    requires Counts(url, kept[k]) && value == Bits(url, kept[k]) && isPad == (kept[k] == PAD)
    requires out.Length == |kept| / 4 * 3
    modifies out
    ensures pos <= out.Length
    ensures !ended ==> ok && |block| < 4 && pos == 3 * groups
    ensures !ended ==> Reading(url, kept, out[..pos], groups, k + 1, block, pads)
    ensures ended ==> Blocks(url, kept) == if ok then Some(out[..pos]) else None
  {
    hide Counts, Blocks, Reading, Octets;
    ReadingNext(url, kept, out[..at], q, k, waiting, padsSoFar);
    pads := padsSoFar + if isPad then 1 else 0;
    block, ended, ok, pos, groups := waiting + [value], false, true, at, q;
    if |block| == 4 {
      ghost var done := out[..at];
      ReadingFull(url, kept, done, q, k + 1, block, pads);
      var three := Merge(block);
      pos := Put(out, at, three);
      if pads > 2 {
        ended, ok := true, false;
      } else if pads > 0 {
        pos, ended := pos - pads, true;
        assert out[..pos] == done + three[..3 - pads];
      } else {
        block, groups := [], q + 1;
      }
    }
  }

  /** The second loop of base64_gen_decode, over the text and the padding it lacks. */
  method DecodeInto(url: bool, t: array<byte>, src: seq<byte>, extra: nat, out: array<byte>)
    returns (ok: bool, pos: nat)
    requires t.Length == 256 && t != out && forall c: byte :: t[c] == if Counts(url, c) then Bits(url, c) else SKIP
    requires extra == Missing(|Kept(url, src)|) && out.Length == (|Kept(url, src)| + extra) / 4 * 3
    modifies out
    ensures pos <= out.Length && Blocks(url, Padded(Kept(url, src))) == if ok then Some(out[..pos]) else None
  {
    hide Counts, Kept, Missing, Blocks, Reading, Bits, Padded;
    ghost var text := src + seq(extra, _ => PAD);
    ghost var kept := Padded(Kept(url, src));
    KeptPadded(url, src, seq(extra, _ => PAD));
    ReadingStart(url, kept);
    KeptAll(url, text[..0]);
    var i, pads, ended := 0, 0, false;
    var block: seq<nat> := [];
    ghost var q := 0;
    pos, ok := 0, true;
    while i < |src| + extra
      invariant 0 <= i <= |text| && pos == 3 * q && pos <= out.Length && |block| < 4 && ok
      invariant Kept(url, text[..i]) <= kept
      invariant Reading(url, kept, out[..pos], q, |Kept(url, text[..i])|, block, pads)
    {
      var c := if i >= |src| then PAD else src[i];
      ghost var k := |Kept(url, text[..i])|;
      KeptStep(url, text, i);
      i := i + 1;
      if t[c] != SKIP {
        ended, ok, pos, block, pads, q := Feed(url, t[c], c == PAD, out, pos, block, pads, kept, q, k);
        if ended {
          return;
        }
      }
    }
    assert text[..i] == text;
    ReadingEnds(url, kept, out[..pos], q, block, pads);
  }

  /** base64_gen_decode: only characters of the alphabet and padding characters count. */
  method GenDecode(url: bool, src: seq<byte>) returns (out: array?<byte>, len: nat)
    ensures out == null <==> Decode(url, src).None?
    ensures out != null ==> fresh(out) && len <= out.Length && Decode(url, src) == Some(out[..len])
    ensures out != null ==> out.Length == (|Kept(url, src)| + Missing(|Kept(url, src)|)) / 4 * 3
  {
    hide Counts, Kept, Blocks;
    var t := DecodeTable(url);
    var count := CountKept(url, t, src);
    if count == 0 {
      return null, 0;
    }
    var extra := (4 - count % 4) % 4;
    out := new byte[(count + extra) / 4 * 3];
    var ok;
    ok, len := DecodeInto(url, t, src, extra, out);
    if !ok {
      out := null;
    }
  }
}
