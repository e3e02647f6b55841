/** printf_encode (common.h): octets as printable text, one way to read it back. */
module PrintfEncode {
  import opened Bytes
  import opened Options

  const QUOTE: byte := 34
  const BACKSLASH: byte := 92

  function HexDigit(v: nat): (r: byte)
    requires v < 16
  {
    if v < 10 then 48 + v else 87 + v
  }

  /** The text of one octet. */
  function EncodeOctet(x: byte): (r: seq<byte>)
    ensures 1 <= |r| <= 4 && forall y :: y in r ==> 32 <= y <= 126
  {
    if x == QUOTE || x == BACKSLASH then [BACKSLASH, x]
    else if x == 27 then [BACKSLASH, 101]
    else if x == 10 then [BACKSLASH, 110]
    else if x == 13 then [BACKSLASH, 114]
    else if x == 9 then [BACKSLASH, 116]
    else if 32 <= x <= 126 then [x]
    else [BACKSLASH, 120, HexDigit(x / 16), HexDigit(x % 16)]
  }

  /** The octets of a text of ASCII characters. */
  function Ascii(s: string): (r: seq<byte>)
    requires forall i :: 0 <= i < |s| ==> s[i] < 128 as char
    ensures |r| == |s| && forall i :: 0 <= i < |s| ==> r[i] == s[i] as int
  {
    seq(|s|, i requires 0 <= i < |s| => s[i] as int)
  }

  /** The text of every octet, in characters. */
  lemma OctetText(x: byte)
    ensures EncodeOctet(x) ==
            if x == 34 then Ascii("\\\"")
            else if x == 92 then Ascii("\\\\")
            else if x == 27 then Ascii("\\e")
            else if x == 10 then Ascii("\\n")
            else if x == 13 then Ascii("\\r")
            else if x == 9 then Ascii("\\t")
            else if 32 <= x <= 126 then [x]
            else Ascii("\\x") + Ascii(["0123456789abcdef"[x / 16], "0123456789abcdef"[x % 16]])
  {
    HexText(x / 16);
    HexText(x % 16);
  }

  lemma HexText(v: nat)
    requires v < 16
    ensures HexDigit(v) == "0123456789abcdef"[v] as int && "0123456789abcdef"[v] < 128 as char
  {
  }

  /** Printable text, at most four characters an octet. */
  function Encode(data: seq<byte>): (r: seq<byte>)
    ensures |data| <= |r| <= 4 * |data| && forall y :: y in r ==> 32 <= y <= 126
    decreases |data|
  {
    if data == [] then [] else Encode(data[..|data| - 1]) + EncodeOctet(data[|data| - 1])
  }

  function Unhex(y: byte): (r: Option<nat>)
    ensures r.Some? ==> r.value < 16
  {
    if 48 <= y <= 57 then Some(y - 48) else if 97 <= y <= 102 then Some(y - 87) else None
  }

  /** Reads one octet from the head of a text, and says how many characters it took. */
  function DecodeOctet(t: seq<byte>): (r: Option<(byte, nat)>)
    ensures r.Some? ==> 1 <= r.value.1 <= |t|
  {
    if t == [] then None
    else if t[0] != BACKSLASH then Some((t[0], 1))
    else if |t| < 2 then None
    else if t[1] == 101 then Some((27, 2))
    else if t[1] == 110 then Some((10, 2))
    else if t[1] == 114 then Some((13, 2))
    else if t[1] == 116 then Some((9, 2))
    else if t[1] != 120 then Some((t[1], 2))
    else if |t| < 4 || Unhex(t[2]).None? || Unhex(t[3]).None? then None
    else Some((16 * Unhex(t[2]).value + Unhex(t[3]).value, 4))
  }

  function Decode(t: seq<byte>): (r: Option<seq<byte>>)
    decreases |t|
  {
    if t == [] then Some([])
    else
      var one := DecodeOctet(t);
      if one.None? then None
      else
        var rest := Decode(t[one.value.1..]);
        if rest.None? then None else Some([one.value.0] + rest.value)
  }

  lemma DecodeEncodeOctet(x: byte, more: seq<byte>)
    ensures DecodeOctet(EncodeOctet(x) + more) == Some((x, |EncodeOctet(x)|))
  {
  }

  lemma {:induction false} EncodeHead(data: seq<byte>)
    requires data != []
    ensures Encode(data) == EncodeOctet(data[0]) + Encode(data[1..])
    decreases |data|
  {
    hide EncodeOctet;
    if |data| == 1 {
      assert data[..0] == [] && data[1..] == [];
    } else {
      var init := data[..|data| - 1];
      EncodeHead(init);
      var tail, last := data[1..], EncodeOctet(data[|data| - 1]);
      assert init[1..] == tail[..|tail| - 1] && tail[|tail| - 1] == data[|data| - 1];
      assert Encode(tail) == Encode(init[1..]) + last;
      assert Encode(data) == EncodeOctet(init[0]) + Encode(init[1..]) + last;
    }
  }

  /** The text can be read back, whatever the octets. */
  lemma {:induction false} DecodeEncode(data: seq<byte>)
    ensures Decode(Encode(data)) == Some(data)
    decreases |data|
  {
    hide EncodeOctet, DecodeOctet;
    if data != [] {
      var one, rest := EncodeOctet(data[0]), Encode(data[1..]);
      EncodeHead(data);
      DecodeEncodeOctet(data[0], rest);
      DecodeEncode(data[1..]);
      assert data == [data[0]] + data[1..];
    }
  }

  /** So two names are written alike only if they are equal. */
  lemma EncodeInjective(a: seq<byte>, b: seq<byte>)
    requires Encode(a) == Encode(b)
    ensures a == b
  {
    DecodeEncode(a);
    DecodeEncode(b);
  }

  lemma Longer(data: seq<byte>, n: nat, next: seq<byte>)
    requires n < |data| && next == EncodeOctet(data[n])
    ensures Encode(data[..n + 1]) == Encode(data[..n]) + next
  {
    hide EncodeOctet;
    assert data[..n + 1][..n] == data[..n];
  }

  /** printf_encode: encodes octets while four characters and the end mark are sure to fit. */
  method EncodeInto(txt: array<byte>, data: seq<byte>) returns (n: nat, len: nat)
    requires txt.Length >= 1
    modifies txt
    ensures n <= |data| && len == |Encode(data[..n])| < txt.Length
    ensures txt[..len] == Encode(data[..n]) && txt[len] == 0
    ensures n < |data| ==> len + 4 >= txt.Length
    ensures n > 0 ==> |Encode(data[..n - 1])| + 4 < txt.Length
    ensures txt.Length == 4 * |data| + 1 ==> n == |data|
    ensures txt[len + 1..] == old(txt[len + 1..])
  {
    hide EncodeOctet, Encode;
    n, len := 0, 0;
    while n < |data| && len + 4 < txt.Length
      invariant 0 <= n <= |data| && len == |Encode(data[..n])| < txt.Length
      invariant txt[..len] == Encode(data[..n])
      invariant txt[len..] == old(txt[len..])
      invariant n > 0 ==> |Encode(data[..n - 1])| + 4 < txt.Length
    {
      var next := EncodeOctet(data[n]);
      Longer(data, n, next);
      ghost var was := txt[..];
      WriteAt(txt, len, next);
      Written(was, len, next, txt[..]);
      assert was[len + |next|..] == was[len..][|next|..];
      len := len + |next|;
      n := n + 1;
    }
    txt[len] := 0;
  }
}
