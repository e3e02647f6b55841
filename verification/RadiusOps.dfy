/** Operations of radius.c that read or append groups of attributes. */
module RadiusOps {
  import opened Bytes
  import opened RadiusCodec
  import opened RadiusAuth
  import opened RadiusMsg

  const EAP_MESSAGE: byte := 79

  /** The attributes of one type, in order. */
  function OfType(attrs: seq<Attr>, typ: byte): (r: seq<Attr>)
    decreases |attrs|
  {
    if attrs == [] then []
    else (if attrs[0].typ == typ then [attrs[0]] else []) + OfType(attrs[1..], typ)
  }

  lemma {:induction false} OfTypeConcat(a: seq<Attr>, b: seq<Attr>, typ: byte)
    ensures OfType(a + b, typ) == OfType(a, typ) + OfType(b, typ)
    decreases |a|
  {
    if a == [] {
      assert a + b == b;
    } else {
      var here := if a[0].typ == typ then [a[0]] else [];
      var x, y := OfType(a[1..], typ), OfType(b, typ);
      assert (a + b)[1..] == a[1..] + b;
      OfTypeConcat(a[1..], b, typ);
      assert here + (x + y) == here + x + y;
    }
  }

  lemma OfTypeNext(attrs: seq<Attr>, i: nat, typ: byte)
    requires i < |attrs|
    ensures OfType(attrs[..i + 1], typ) == OfType(attrs[..i], typ) + (if attrs[i].typ == typ then [attrs[i]] else [])
  {
    assert attrs[..i + 1] == attrs[..i] + [attrs[i]];
    OfTypeConcat(attrs[..i], [attrs[i]], typ);
  }

  /** The values of a list of attributes, one after the other. */
  function Joined(attrs: seq<Attr>): (r: seq<byte>)
    decreases |attrs|
  {
    if attrs == [] then [] else attrs[0].value + Joined(attrs[1..])
  }

  lemma JoinedOne(a: Attr)
    ensures Joined([a]) == a.value
  {
  }

  lemma {:induction false} JoinedConcat(a: seq<Attr>, b: seq<Attr>)
    ensures Joined(a + b) == Joined(a) + Joined(b)
    decreases |a|
  {
    if a == [] {
      assert a + b == b;
    } else {
      assert (a + b)[1..] == a[1..] + b;
      JoinedConcat(a[1..], b);
    }
  }

  /** The EAP packet a message carries. */
  function EapPayload(attrs: seq<Attr>): (r: seq<byte>) { Joined(OfType(attrs, EAP_MESSAGE)) }

  /** RFC 3579 section 3.1: consecutive EAP-Message attributes of at most 253 octets. */
  function Fragments(data: seq<byte>): (r: seq<Attr>)
    decreases |data|
  {
    if data == [] then []
    else if |data| <= MAX_ATTR then [Attr(EAP_MESSAGE, data)]
    else [Attr(EAP_MESSAGE, data[..MAX_ATTR])] + Fragments(data[MAX_ATTR..])
  }

  /** Fragment i is an attribute of type 79 with the octets from 253i on, as many as there are up to 253. */
  lemma {:induction false} FragmentIs(data: seq<byte>, i: nat)
    ensures |Fragments(data)| == (|data| + 252) / 253
    ensures i < |Fragments(data)| ==>
              && 253 * i < |data|
              && Fragments(data)[i] == Attr(79, data[253 * i..if 253 * i + 253 < |data| then 253 * i + 253 else |data|])
    decreases |data|
  {
    if |data| > MAX_ATTR {
      FragmentIs(data[MAX_ATTR..], if i > 0 then i - 1 else 0);
    }
  }

  lemma {:induction false} FragmentsJoin(data: seq<byte>)
    ensures AllFit(Fragments(data)) && OfType(Fragments(data), EAP_MESSAGE) == Fragments(data)
    ensures Joined(Fragments(data)) == data
    decreases |data|
  {
    if |data| > MAX_ATTR {
      FragmentsJoin(data[MAX_ATTR..]);
    }
  }

  /** Reassembly after fragmentation: the earlier payload followed by the new data, whatever its length. */
  lemma EapRoundTrip(attrs: seq<Attr>, data: seq<byte>)
    ensures EapPayload(attrs + Fragments(data)) == EapPayload(attrs) + data
  {
    OfTypeConcat(attrs, Fragments(data), EAP_MESSAGE);
    FragmentsJoin(data);
    JoinedConcat(OfType(attrs, EAP_MESSAGE), Fragments(data));
  }

  lemma NoFragments(data: seq<byte>, pos: nat)
    requires pos == |data|
    ensures Fragments(data[pos..]) == []
  {
  }

  /** radius_msg_add_eap */
  method AddEap(msg: Message, data: seq<byte>) returns (ok: bool)
    requires msg.Valid()
    modifies msg, msg.buf, msg.buf.data
    ensures msg.Valid() && msg.buf == old(msg.buf) && (msg.buf.data == old(msg.buf.data) || fresh(msg.buf.data))
    ensures ok && msg.Attrs() == old(msg.Attrs()) + Fragments(data)
    ensures EapPayload(msg.Attrs()) == old(EapPayload(msg.Attrs())) + data
  {
    hide WellFormed, AttrsOf, EncodeAttr, Positions, EapPayload, Fragments;
    ghost var before := msg.Attrs();
    EapRoundTrip(before, data);
    var pos := 0;
    ghost var done: seq<Attr> := [];
    assert data[0..] == data && before + [] == before;
    while pos < |data|
      invariant 0 <= pos <= |data|
      invariant msg.Valid() && msg.buf == old(msg.buf) && (msg.buf.data == old(msg.buf.data) || fresh(msg.buf.data))
      invariant msg.Attrs() == before + done
      invariant Fragments(data) == done + Fragments(data[pos..])
    {
      var len := if |data| - pos > MAX_ATTR then MAX_ATTR else |data| - pos;
      var good, at := msg.AddAttr(EAP_MESSAGE, data[pos..pos + len]);
      ghost var a := Attr(EAP_MESSAGE, data[pos..pos + len]);
      FragmentsNext(data, pos, len);
      assert done + ([a] + Fragments(data[pos + len..])) == (done + [a]) + Fragments(data[pos + len..]);
      assert (before + done) + [a] == before + (done + [a]);
      done := done + [a];
      pos := pos + len;
    }
    NoFragments(data, pos);
    ok := true;
  }

  lemma FragmentsNext(data: seq<byte>, pos: nat, len: nat)
    requires pos < |data| && len == if |data| - pos > MAX_ATTR then MAX_ATTR else |data| - pos
    ensures Fragments(data[pos..]) == [Attr(EAP_MESSAGE, data[pos..pos + len])] + Fragments(data[pos + len..])
  {
    var tail := data[pos..];
    assert tail[..len] == data[pos..pos + len] && tail[len..] == data[pos + len..];
    if |tail| <= MAX_ATTR {
      assert tail[..len] == tail && tail[len..] == [];
    }
  }

  /** radius_get_attr_hdr and the value behind it. */
  method ReadAttr(msg: Message, i: nat) returns (a: Attr)
    requires msg.Valid() && i < |msg.attrPos|
    ensures |msg.attrPos| == |msg.Attrs()| && a == msg.Attrs()[i]
  {
    hide ParseAttrs, Positions;
    PositionRead(msg.Raw(), HEADER, msg.Attrs(), i);
    var p, d := msg.attrPos[i], msg.buf.data;
    assert msg.Raw()[p] == d[p] && msg.Raw()[p + 1] == d[p + 1];
    assert msg.Raw()[p + 2..p + d[p + 1]] == d[p + 2..p + d[p + 1]];
    a := Attr(d[p], d[p + 2..p + d[p + 1]]);
  }

  /** How much of the payload the first i attributes carry. */
  lemma PayloadNext(attrs: seq<Attr>, i: nat)
    requires i < |attrs|
    ensures EapPayload(attrs[..i + 1]) ==
            EapPayload(attrs[..i]) + (if attrs[i].typ == EAP_MESSAGE then attrs[i].value else [])
    ensures |EapPayload(attrs[..i + 1])| <= |EapPayload(attrs)|
  {
    hide Joined, OfType;
    OfTypeNext(attrs, i, EAP_MESSAGE);
    var before := OfType(attrs[..i], EAP_MESSAGE);
    if attrs[i].typ == EAP_MESSAGE {
      JoinedConcat(before, [attrs[i]]);
      JoinedOne(attrs[i]);
    } else {
      assert before + [] == before;
    }
    assert attrs == attrs[..i + 1] + attrs[i + 1..];
    OfTypeConcat(attrs[..i + 1], attrs[i + 1..], EAP_MESSAGE);
    JoinedConcat(OfType(attrs[..i + 1], EAP_MESSAGE), OfType(attrs[i + 1..], EAP_MESSAGE));
  }

  lemma PayloadEnds(attrs: seq<Attr>)
    ensures EapPayload(attrs[..0]) == [] && attrs[..|attrs|] == attrs
  {
  }

  /** radius_msg_get_eap: a first pass sizes the buffer, a second one fills it exactly. */
  method GetEap(msg: Message) returns (eap: WpaBuf?)
    requires msg.Valid()
    ensures eap == null <==> EapPayload(msg.Attrs()) == []
    ensures eap != null ==> fresh(eap) && fresh(eap.data) && eap.Valid()
    ensures eap != null ==> eap.Contents() == EapPayload(msg.Attrs()) && eap.Tailroom() == 0
  {
    hide WellFormed, AttrsOf, Positions, EapPayload;
    ghost var attrs := msg.Attrs();
    PayloadEnds(attrs);
    var len, i := 0, 0;
    while i < |msg.attrPos|
      invariant 0 <= i <= |msg.attrPos| == |attrs|
      invariant len == |EapPayload(attrs[..i])|
    {
      var a := ReadAttr(msg, i);
      PayloadNext(attrs, i);
      if a.typ == EAP_MESSAGE && |a.value| > 0 {
        len := len + |a.value|;
      }
      i := i + 1;
    }
    if len == 0 {
      return null;
    }
    eap := new WpaBuf(len);
    var d := eap.data;
    i := 0;
    while i < |msg.attrPos|
      invariant 0 <= i <= |msg.attrPos| == |attrs|
      invariant fresh(eap) && fresh(d) && eap.data == d && eap.Valid() && d.Length == len
      invariant eap.Contents() == EapPayload(attrs[..i])
      invariant msg.Valid() && msg.Attrs() == attrs
      modifies eap, d
    {
      var a := ReadAttr(msg, i);
      PayloadNext(attrs, i);
      if a.typ == EAP_MESSAGE && |a.value| > 0 {
        eap.PutData(a.value);
      }
      i := i + 1;
    }
  }

  lemma OfTypeNone(typ: byte)
    ensures OfType([], typ) == []
  {
  }

  ghost predicate Separate(a: Message, b: Message)
    reads a, b, a.buf, b.buf
  {
    a != b && a.buf != b.buf && a.buf.data != b.buf.data
  }

  /** One turn of the loop of radius_msg_copy_attr. */
  method CopyOne(dst: Message, src: Message, typ: byte, i: nat) returns (copied: bool)
    requires dst.Valid() && src.Valid() && Separate(dst, src) && i < |src.attrPos| == |src.Attrs()|
    modifies dst, dst.buf, dst.buf.data
    ensures dst.Valid() && dst.buf == old(dst.buf) && (dst.buf.data == old(dst.buf.data) || fresh(dst.buf.data))
    ensures src.Valid() && src.Raw() == old(src.Raw()) && src.attrPos == old(src.attrPos) && Separate(dst, src)
    ensures copied <==> src.Attrs()[i].typ == typ
    ensures dst.Attrs() == old(dst.Attrs()) + if copied then [src.Attrs()[i]] else []
    ensures dst.Raw()[..HEADER] == old(dst.Raw())[..HEADER]
  {
    hide ParseAttrs, AttrsOf, Positions;
    var a := ReadAttr(src, i);
    copied := a.typ == typ;
    if copied {
      assert a in src.Attrs() && Fits(a);
      hide Message.Valid;
      var ok, _ := dst.AddAttr(typ, a.value);
    }
  }

  /** radius_msg_copy_attr: all attributes of one type, in order. */
  method CopyAttr(dst: Message, src: Message, typ: byte) returns (count: int)
    requires dst.Valid() && src.Valid() && Separate(dst, src)
    modifies dst, dst.buf, dst.buf.data
    ensures dst.Valid() && dst.buf == old(dst.buf) && (dst.buf.data == old(dst.buf.data) || fresh(dst.buf.data))
    ensures src.Valid() && src.Raw() == old(src.Raw()) && Separate(dst, src)
    ensures dst.Attrs() == old(dst.Attrs()) + OfType(src.Attrs(), typ)
    ensures dst.Raw()[..HEADER] == old(dst.Raw())[..HEADER]
    ensures count == |OfType(src.Attrs(), typ)|
  {
    hide ParseAttrs, AttrsOf, Positions, OfType;
    OfTypeNone(typ);
    ghost var before, attrs := dst.Attrs(), src.Attrs();
    assert |src.attrPos| == |attrs| && before + [] == before && attrs[..0] == [];
    hide Message.Valid, Separate;
    count := 0;
    var i := 0;
    while i < |src.attrPos|
      invariant 0 <= i <= |src.attrPos| == |attrs|
      invariant dst.Valid() && dst.buf == old(dst.buf) && (dst.buf.data == old(dst.buf.data) || fresh(dst.buf.data))
      invariant src.Valid() && src.Raw() == old(src.Raw()) && Separate(dst, src)
      invariant dst.Attrs() == before + OfType(attrs[..i], typ) && count == |OfType(attrs[..i], typ)|
      invariant dst.Raw()[..HEADER] == old(dst.Raw())[..HEADER]
    {
      OfTypeNext(attrs, i, typ);
      var copied := CopyOne(dst, src, typ, i);
      count := count + if copied then 1 else 0;
      i := i + 1;
    }
    assert attrs[..i] == attrs;
  }
}
