/** RADIUS attributes on the wire (RFC 2865 section 5), as values. */
module RadiusCodec {
  import opened Bytes
  import opened Options

  const HEADER: nat := 20
  const MAX_ATTR: nat := 253

  datatype Attr = Attr(typ: byte, value: seq<byte>)

  predicate Fits(a: Attr) { |a.value| <= MAX_ATTR }

  predicate AllFit(attrs: seq<Attr>) { forall a :: a in attrs ==> Fits(a) }

  /** Type, length including the two header octets, value. */
  function EncodeAttr(a: Attr): (r: seq<byte>)
    requires Fits(a)
    ensures |r| == 2 + |a.value|
  {
    [a.typ, 2 + |a.value|] + a.value
  }

  function TotalSize(attrs: seq<Attr>): (r: nat)
    decreases |attrs|
  {
    if attrs == [] then 0 else 2 + |attrs[0].value| + TotalSize(attrs[1..])
  }

  function EncodeAttrs(attrs: seq<Attr>): (r: seq<byte>)
    requires AllFit(attrs)
    ensures |r| == TotalSize(attrs)
    decreases |attrs|
  {
    if attrs == [] then [] else EncodeAttr(attrs[0]) + EncodeAttrs(attrs[1..])
  }

  /** The loop of radius_msg_parse: attributes that tile `b` exactly, or failure. */
  function ParseAttrs(b: seq<byte>): (r: Option<seq<Attr>>)
    decreases |b|
  {
    if b == [] then Some([])
    else if |b| < 2 || b[1] > |b| || b[1] < 2 then None
    else match ParseAttrs(b[b[1]..])
         case None => None
         case Some(rest) => Some([Attr(b[0], b[2..b[1]])] + rest)
  }

  lemma {:induction false} ParseEncode(attrs: seq<Attr>)
    requires AllFit(attrs)
    ensures ParseAttrs(EncodeAttrs(attrs)) == Some(attrs)
    decreases |attrs|
  {
    if attrs != [] {
      ParseEncode(attrs[1..]);
      var b, n := EncodeAttrs(attrs), 2 + |attrs[0].value|;
      assert b[0] == attrs[0].typ && b[1] == n && b[2..n] == attrs[0].value && b[n..] == EncodeAttrs(attrs[1..]);
      assert attrs == [attrs[0]] + attrs[1..];
    }
  }

  lemma EncodeFirst(a: Attr, tail: seq<Attr>)
    requires Fits(a) && AllFit(tail)
    ensures AllFit([a] + tail) && EncodeAttrs([a] + tail) == EncodeAttr(a) + EncodeAttrs(tail)
  {
    assert ([a] + tail)[1..] == tail;
  }

  lemma FirstAttr(b: seq<byte>)
    requires |b| >= 2 && 2 <= b[1] <= |b|
    ensures EncodeAttr(Attr(b[0], b[2..b[1]])) + b[b[1]..] == b
  {
  }

  lemma {:induction false} EncodeParse(b: seq<byte>)
    requires ParseAttrs(b).Some?
    ensures AllFit(ParseAttrs(b).value) && EncodeAttrs(ParseAttrs(b).value) == b
    decreases |b|
  {
    if b != [] {
      var a, tail := Attr(b[0], b[2..b[1]]), ParseAttrs(b[b[1]..]).value;
      EncodeParse(b[b[1]..]);
      hide EncodeAttr, EncodeAttrs, AllFit;
      EncodeFirst(a, tail);
      FirstAttr(b);
    }
  }

  /** Parsing succeeds exactly on the octet strings that some sequence of attributes tiles without gaps. */
  lemma ParseIsTiling(b: seq<byte>)
    ensures ParseAttrs(b).Some? <==> exists attrs :: AllFit(attrs) && EncodeAttrs(attrs) == b
  {
    if ParseAttrs(b).Some? {
      EncodeParse(b);
    }
    forall attrs | AllFit(attrs) && EncodeAttrs(attrs) == b ensures ParseAttrs(b).Some? {
      ParseEncode(attrs);
    }
  }

  lemma {:induction false} EncodeConcat(a: seq<Attr>, b: seq<Attr>)
    requires AllFit(a) && AllFit(b)
    ensures AllFit(a + b) && EncodeAttrs(a + b) == EncodeAttrs(a) + EncodeAttrs(b)
    decreases |a|
  {
    if a == [] {
      assert a + b == b;
    } else {
      assert (a + b)[1..] == a[1..] + b;
      EncodeConcat(a[1..], b);
    }
  }

  /** Appending an encoded attribute appends the attribute. */
  lemma ParseAppend(b: seq<byte>, a: Attr)
    requires ParseAttrs(b).Some? && Fits(a)
    ensures ParseAttrs(b + EncodeAttr(a)) == Some(ParseAttrs(b).value + [a])
  {
    var attrs := ParseAttrs(b).value;
    EncodeParse(b);
    EncodeConcat(attrs, [a]);
    ParseEncode(attrs + [a]);
    assert EncodeAttrs([a]) == EncodeAttr(a) by { assert [a][1..] == []; }
  }

  /** The offset of each attribute when the first one starts at `from`: what attr_pos must hold. */
  function Positions(attrs: seq<Attr>, from: nat): (r: seq<nat>)
    ensures |r| == |attrs|
    decreases |attrs|
  {
    if attrs == [] then [] else [from] + Positions(attrs[1..], from + 2 + |attrs[0].value|)
  }

  lemma {:induction false} PositionsAppend(attrs: seq<Attr>, a: Attr, from: nat)
    ensures Positions(attrs + [a], from) == Positions(attrs, from) + [from + TotalSize(attrs)]
    decreases |attrs|
  {
    var all := attrs + [a];
    if attrs == [] {
    } else {
      var next := from + 2 + |attrs[0].value|;
      assert all[1..] == attrs[1..] + [a];
      PositionsAppend(attrs[1..], a, next);
    }
  }

  lemma {:induction false} TotalSizeConcat(a: seq<Attr>, b: seq<Attr>)
    ensures TotalSize(a + b) == TotalSize(a) + TotalSize(b)
    decreases |a|
  {
    if a == [] {
      assert a + b == b;
    } else {
      assert (a + b)[1..] == a[1..] + b;
      TotalSizeConcat(a[1..], b);
    }
  }

  lemma {:induction false} TotalSizeAppend(attrs: seq<Attr>, a: Attr)
    ensures TotalSize(attrs + [a]) == TotalSize(attrs) + 2 + |a.value|
    decreases |attrs|
  {
    if attrs == [] {
    } else {
      assert (attrs + [a])[1..] == attrs[1..] + [a];
      TotalSizeAppend(attrs[1..], a);
    }
  }

  lemma {:induction false} PositionIs(attrs: seq<Attr>, from: nat, i: nat)
    requires i < |attrs|
    ensures Positions(attrs, from)[i] == from + TotalSize(attrs[..i])
    decreases i
  {
    if i > 0 {
      var n := 2 + |attrs[0].value|;
      PositionIs(attrs[1..], from + n, i - 1);
      assert attrs[1..][..i - 1] == attrs[..i][1..];
    }
  }

  /** The octets at offset p of `raw` are the encoding of attribute `a`. */
  ghost predicate EncodedAt(raw: seq<byte>, p: nat, a: Attr)
  {
    && p + 2 + |a.value| <= |raw|
    && raw[p] == a.typ && raw[p + 1] == 2 + |a.value|
    && raw[p + 2..p + 2 + |a.value|] == a.value
  }

  lemma HeadRead(raw: seq<byte>, from: nat, a: Attr, rest: seq<byte>)
    requires Fits(a) && from <= |raw| && raw[from..] == EncodeAttr(a) + rest
    ensures EncodedAt(raw, from, a)
    ensures from + 2 + |a.value| <= |raw| && raw[from + 2 + |a.value|..] == rest
  {
  }

  /** Every recorded offset points at its attribute. */
  lemma {:induction false} PositionRead(raw: seq<byte>, from: nat, attrs: seq<Attr>, i: nat)
    requires AllFit(attrs) && from <= |raw| && raw[from..] == EncodeAttrs(attrs) && i < |attrs|
    ensures from <= Positions(attrs, from)[i] && EncodedAt(raw, Positions(attrs, from)[i], attrs[i])
    decreases i
  {
    hide EncodeAttr, EncodedAt;
    HeadRead(raw, from, attrs[0], EncodeAttrs(attrs[1..]));
    if i > 0 {
      var next := from + 2 + |attrs[0].value|;
      PositionRead(raw, next, attrs[1..], i - 1);
    }
  }
}
