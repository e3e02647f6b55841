/** The growable buffer of wpabuf.c and the message object of radius.c, updated in place. */
module RadiusMsg {
  import opened Bytes
  import opened Options
  import opened Md5Spec
  import opened Hmac
  import opened KeyHiding
  import opened RadiusCodec
  import opened RadiusAuth

  /** struct wpabuf: `used` octets of content in an allocation of data.Length octets. */
  class WpaBuf {
    var data: array<byte>
    var used: nat

    ghost predicate Valid()
      reads this
    {
      used <= data.Length
    }

    ghost function Contents(): (r: seq<byte>)
      requires Valid()
      reads this, data
    {
      data[..used]
    }

    /** wpabuf_alloc */
    constructor (size: nat)
      ensures Valid() && fresh(data) && data.Length == size && Contents() == []
      ensures forall i :: 0 <= i < size ==> data[i] == 0
    {
      data := new byte[size](_ => 0);
      used := 0;
    }

    /** wpabuf_tailroom */
    function Tailroom(): (r: int)
      reads this
    {
      data.Length - used
    }

    /** wpabuf_resize: room for `add` more octets, content kept. */
    method Resize(add: nat)
      requires Valid()
      modifies this`data
      ensures Valid() && used == old(used) && Tailroom() >= add
      ensures Contents() == old(Contents())
      ensures data == old(data) || fresh(data)
    {
      if used + add > data.Length {
        var n, d, u := used + add, data, used;
        var bigger := new byte[n](i requires 0 <= i < n reads d => if i < u && i < d.Length then d[i] else 0);
        data := bigger;
      }
    }

    /** wpabuf_put and wpabuf_put_data: the precondition is what keeps wpabuf_overflow from aborting. */
    method PutData(src: seq<byte>)
      requires Valid() && Tailroom() >= |src|
      modifies this`used, data
      ensures Valid() && used == old(used) + |src|
      ensures Contents() == old(Contents()) + src
    {
      WriteAt(data, used, src);
      used := used + |src|;
    }

    /** Overwrite content octets in place. */
    method Store(at: nat, src: seq<byte>)
      requires Valid() && at + |src| <= used
      modifies data
      ensures Contents() == old(Contents())[..at] + src + old(Contents())[at + |src|..]
      ensures data[used..] == old(data[used..])
    {
      WriteAt(data, at, src);
    }
  }

  function Be16At(data: seq<byte>, i: nat): (r: nat)
    requires i + 2 <= |data|
    ensures r < 65536
  {
    var hi: int, lo: int := data[i], data[i + 1];
    256 * hi + lo
  }

  /** radius_msg_parse: the declared length counts, octets after it are ignored. */
  function Accepted(data: seq<byte>): (r: Option<seq<byte>>)
  {
    if |data| < HEADER then None else
      var len := Be16At(data, 2);
      if len < HEADER || len > |data| || ParseAttrs(data[HEADER..len]).None? then None else Some(data[..len])
  }

  /** Accepted are exactly the datagrams whose declared length is tiled by attributes. */
  lemma AcceptedIff(data: seq<byte>)
    ensures Accepted(data).Some? <==>
            && |data| >= HEADER && HEADER <= Be16At(data, 2) <= |data|
            && exists attrs :: AllFit(attrs) && EncodeAttrs(attrs) == data[HEADER..Be16At(data, 2)]
  {
    hide ParseAttrs, EncodeAttrs;
    if |data| >= HEADER && HEADER <= Be16At(data, 2) <= |data| {
      ParseIsTiling(data[HEADER..Be16At(data, 2)]);
    }
  }

  /** Octets after the declared length change nothing. */
  lemma TrailingIgnored(data: seq<byte>, more: seq<byte>)
    requires Accepted(data).Some?
    ensures Accepted(data + more) == Accepted(data)
  {
    hide ParseAttrs;
    var len := Be16At(data, 2);
    assert (data + more)[..len] == data[..len] && (data + more)[HEADER..len] == data[HEADER..len];
  }

  /** struct radius_msg: the buffer and the side index of attribute offsets. */
  class Message {
    var buf: WpaBuf
    var attrPos: seq<nat>

    ghost predicate Valid()
      reads this, buf, buf.data
    {
      && buf.Valid()
      && WellFormed(buf.Contents())
      && attrPos == Positions(AttrsOf(buf.Contents()), HEADER)
    }

    ghost function Raw(): (r: seq<byte>)
      requires Valid()
      reads this, buf, buf.data
      ensures |r| >= HEADER
    {
      buf.Contents()
    }

    ghost function Attrs(): (r: seq<Attr>)
      requires Valid()
      reads this, buf, buf.data
    {
      AttrsOf(Raw())
    }

    /** radius_msg_new: a header with code and identifier, no attributes. */
    constructor (code: byte, identifier: byte)
      ensures Valid() && fresh(buf) && fresh(buf.data)
      ensures Raw() == [code, identifier] + Zeros(18) && Attrs() == []
    {
      var b := new WpaBuf(1024);
      b.PutData([code, identifier] + Zeros(18));
      buf := b;
      attrPos := [];
      new;
    }

    /** A message over a copy of `raw` whose attributes start at the given offsets. */
    constructor Wrap(raw: seq<byte>, pos: seq<nat>)
      requires WellFormed(raw) && pos == Positions(AttrsOf(raw), HEADER)
      ensures Valid() && fresh(buf) && fresh(buf.data)
      ensures Raw() == raw
    {
      var b := new WpaBuf(|raw|);
      b.PutData(raw);
      buf := b;
      attrPos := pos;
      new;
      assert buf.Contents() == raw;
    }

    /** radius_msg_add_attr: values of more than 253 octets are refused, others appended; `at` is the offset. */
    method AddAttr(typ: byte, value: seq<byte>) returns (ok: bool, at: nat)
      requires Valid()
      modifies this, buf, buf.data
      ensures Valid() && buf == old(buf) && (buf.data == old(buf.data) || fresh(buf.data))
      ensures ok <==> |value| <= MAX_ATTR
      ensures !ok ==> Raw() == old(Raw()) && Attrs() == old(Attrs())
      ensures ok ==> at == |old(Raw())| && Raw() == old(Raw()) + EncodeAttr(Attr(typ, value))
      ensures ok ==> Attrs() == old(Attrs()) + [Attr(typ, value)]
    {
      at := buf.used;
      if |value| > MAX_ATTR {
        return false, at;
      }
      hide WellFormed, AttrsOf, Positions, EncodeAttr;
      Appended(Raw(), Attr(typ, value));
      PutAttr(buf, typ, value);
      attrPos := attrPos + [at];
      ok := true;
    }

    /** radius_msg_finish. */
    method Finish(secret: Option<seq<byte>>) returns (res: int)
      requires Valid() && |Raw()| + 18 < WORD
      requires secret.Some? ==> |secret.value| < WORD
      modifies this, buf, buf.data
      ensures Valid() && buf == old(buf) && (buf.data == old(buf.data) || fresh(buf.data))
      ensures Raw() == if secret.Some? then Finished(Md5, old(Raw()), secret.value) else SetLength(old(Raw()))
      ensures res == if |Raw()| > 0xffff then -1 else 0
    {
      hide WellFormed, AttrsOf, Positions, EncodeAttr, Md5, HmacOf, Be16, MacPositions;
      ghost var raw := Raw();
      if secret.Some? {
        FinishKeepsIndex(Md5, raw, secret.value);
        var ok, at := AddAttr(MESSAGE_AUTHENTICATOR, Zeros(16));
        buf.Store(2, Be16(buf.used));
        Sign(buf, secret.value, at);
      } else {
        LengthKeepsIndex(raw);
        buf.Store(2, Be16(buf.used));
      }
      res := if buf.used > 0xffff then -1 else 0;
    }

    /** radius_msg_finish_srv. */
    method FinishReply(secret: seq<byte>, auth: Digest16) returns (res: int)
      requires Valid() && |Raw()| + 18 < WORD && |secret| < WORD
      modifies this, buf, buf.data
      ensures Valid() && buf == old(buf) && (buf.data == old(buf.data) || fresh(buf.data))
      ensures Raw() == FinishedReply(Md5, old(Raw()), secret, auth)
      ensures res == if |Raw()| > 0xffff then -1 else 0
    {
      hide WellFormed, AttrsOf, Positions, EncodeAttr, Md5, HmacOf, Be16, MacPositions;
      FinishReplyKeepsIndex(Md5, Raw(), secret, auth);
      var ok, at := AddAttr(MESSAGE_AUTHENTICATOR, Zeros(16));
      buf.Store(2, Be16(buf.used));
      buf.Store(4, auth);
      Sign(buf, secret, at);
      Respond(buf, secret, auth);
      res := if buf.used > 0xffff then -1 else 0;
    }

    /** The scan of radius_msg_verify_msg_auth: the offset of the only Message-Authenticator. */
    method FindMac() returns (found: Option<nat>)
      requires Valid()
      ensures found.Some? <==> |MacPositions(Attrs(), HEADER)| == 1
      ensures found.Some? ==> [found.value] == MacPositions(Attrs(), HEADER)
    {
      hide MacPositions, ParseAttrs, Positions;
      ghost var attrs := Attrs();
      found := None;
      var i := 0;
      MacPositionsNone();
      while i < |attrPos|
        invariant 0 <= i <= |attrPos| == |attrs|
        invariant MacPositions(attrs[..i], HEADER) == if found.Some? then [found.value] else []
      {
        PositionRead(Raw(), HEADER, attrs, i);
        MacPositionsNext(attrs, i);
        if buf.data[attrPos[i]] == MESSAGE_AUTHENTICATOR {
          if found.Some? {
            return None;
          }
          found := Some(attrPos[i]);
        }
        i := i + 1;
      }
      assert attrs[..i] == attrs;
    }

    /** radius_msg_verify_msg_auth: the message is overwritten, hashed and restored. */
    method VerifyMsgAuth(secret: seq<byte>, req: Option<Digest16>) returns (res: int)
      requires Valid() && MacInside(Raw()) && |Raw()| < WORD && |secret| < WORD
      modifies buf.data
      ensures Valid() && Raw() == old(Raw()) && buf.data[buf.used..] == old(buf.data[buf.used..])
      ensures res == 0 <==> MsgAuthVerified(Md5, Raw(), secret, req)
    {
      hide WellFormed, AttrsOf, Positions, Md5, HmacOf, MacPositions;
      var found := FindMac();
      if found.None? {
        return 1;
      }
      var at := found.value;
      var auth, orig := HashZeroed(buf, at, secret, req);
      res := if orig != auth then 1 else 0;
    }

    /** radius_msg_verify, with or without the Message-Authenticator check. */
    method Verify(secret: seq<byte>, req: Digest16, check: bool) returns (res: int)
      requires Valid() && MacInside(Raw()) && |Raw()| < WORD && |secret| < WORD
      modifies buf.data
      ensures Valid() && Raw() == old(Raw()) && buf.data[buf.used..] == old(buf.data[buf.used..])
      ensures res == 0 <==> ReplyVerified(Md5, Raw(), secret, req, check)
    {
      hide ParseAttrs, AttrsOf, Positions, Md5, HmacOf, MacPositions, MsgAuthVerified;
      if check {
        var bad := VerifyMsgAuth(secret, Some(req));
        if bad != 0 {
          return 1;
        }
      }
      var hash := HashReply(buf, req, secret);
      res := if hash != buf.data[4..HEADER] then 1 else 0;
    }
  }

  function After(done: seq<Attr>, r: Option<seq<Attr>>): Option<seq<Attr>>
  {
    if r.None? then None else Some(done + r.value)
  }

  lemma AfterAssoc(done: seq<Attr>, a: Attr, r: Option<seq<Attr>>)
    ensures After(done, After([a], r)) == After(done + [a], r)
    ensures After([], r) == r
  {
    if r.Some? {
      assert done + ([a] + r.value) == (done + [a]) + r.value;
      assert [] + r.value == r.value;
    }
  }

  /** One attribute at offset `pos`, or a failed parse. */
  lemma ParseStep(b: seq<byte>, pos: nat)
    requires pos < |b|
    ensures |b| - pos < 2 || b[pos + 1] > |b| - pos || b[pos + 1] < 2 ==> ParseAttrs(b[pos..]).None?
    ensures |b| - pos >= 2 && 2 <= b[pos + 1] <= |b| - pos ==>
              ParseAttrs(b[pos..]) == After([Attr(b[pos], b[pos + 2..pos + b[pos + 1]])],
                                            ParseAttrs(b[pos + b[pos + 1]..]))
  {
    var tail := b[pos..];
    if |tail| >= 2 && 2 <= tail[1] <= |tail| {
      var n: nat := tail[1];
      assert tail[n..] == b[pos + n..] && tail[2..n] == b[pos + 2..pos + n];
    }
  }

  method Parse(data: seq<byte>) returns (msg: Message?)
    ensures msg == null <==> Accepted(data).None?
    ensures msg != null ==> fresh(msg) && fresh(msg.buf) && fresh(msg.buf.data)
    ensures msg != null ==> msg.Valid() && Some(msg.Raw()) == Accepted(data)
  {
    if |data| < HEADER {
      return null;
    }
    var len := Be16At(data, 2);
    if len < HEADER || len > |data| {
      return null;
    }
    var raw := data[..len];
    var ok, pos := AttributeOffsets(data[HEADER..len]);
    if !ok {
      return null;
    }
    msg := new Message.Wrap(raw, pos);
  }

  lemma EmptyAttrs()
    ensures ParseAttrs([]) == Some([]) && TotalSize([]) == 0
  {
  }

  /** The attribute loop of radius_msg_parse. */
  method AttributeOffsets(b: seq<byte>) returns (ok: bool, offsets: seq<nat>)
    ensures ok <==> ParseAttrs(b).Some?
    ensures ok ==> offsets == Positions(ParseAttrs(b).value, HEADER)
  {
    hide ParseAttrs, Positions, TotalSize;
    offsets := [];
    var pos := 0;
    ghost var done: seq<Attr> := [];
    AfterAssoc(done, Attr(0, []), ParseAttrs(b));
    EmptyAttrs();
    while pos < |b|
      invariant 0 <= pos <= |b| && pos == TotalSize(done)
      invariant offsets == Positions(done, HEADER)
      invariant ParseAttrs(b) == After(done, ParseAttrs(b[pos..]))
      decreases |b| - pos
    {
      ParseStep(b, pos);
      if |b| - pos < 2 || b[pos + 1] > |b| - pos || b[pos + 1] < 2 {
        return false, offsets;
      }
      ghost var a := Attr(b[pos], b[pos + 2..pos + b[pos + 1]]);
      PositionsAppend(done, a, HEADER);
      TotalSizeAppend(done, a);
      AfterAssoc(done, a, ParseAttrs(b[pos + b[pos + 1]..]));
      offsets := offsets + [HEADER + pos];
      pos := pos + b[pos + 1];
      done := done + [a];
    }
    assert b[pos..] == [] && done + [] == done;
    ok := true;
  }

  lemma PrefixSetMac(d: seq<byte>, used: nat, at: nat, mac: Digest16)
    requires at + 18 <= used <= |d|
    ensures (d[..at + 2] + mac + d[at + 18..])[..used] == SetMac(d[..used], at, mac)
  {
  }

  /** hmac_md5 of the whole buffer, written into the buffer at the authenticator's value. */
  method Sign(buf: WpaBuf, secret: seq<byte>, at: nat)
    requires buf.Valid() && at + 18 <= buf.used < WORD && |secret| < WORD
    modifies buf.data
    ensures buf.Contents() == SetMac(old(buf.Contents()), at, HmacOf(Md5, secret, old(buf.Contents())))
  {
    hide Md5, HmacOf, SetMac, Contents;
    var whole := Slice(buf.data, 0, buf.used);
    ContentsOne(whole);
    ghost var d, mac := buf.data[..], HmacOf(Md5, secret, buf.Contents());
    PrefixSetMac(d, buf.used, at, mac);
    var _ := HmacMd5Vector(secret, [whole], buf.data, at + 2);
  }

  /** The Response Authenticator of section 3 of RFC 2865: a digest of header, request authenticator, attributes and
      secret. */
  method HashReply(buf: WpaBuf, auth: Digest16, secret: seq<byte>) returns (hash: Digest16)
    requires buf.Valid() && HEADER <= buf.used < WORD && |secret| < WORD
    ensures hash == ResponseAuth(Md5, buf.Contents(), auth, secret)
  {
    hide Md5;
    var out := new byte[16](_ => 0);
    var head, attrs := Slice(buf.data, 0, 4), Slice(buf.data, HEADER, buf.used - HEADER);
    var ps := [head, Value(auth), attrs, Value(secret)];
    ghost var raw := buf.Contents();
    ContentsFour(head, Value(auth), attrs, Value(secret));
    assert Content(head) == raw[..4] && Content(attrs) == raw[HEADER..];
    Md5Vector(ps, out, 0);
    hash := out[..];
  }

  method Respond(buf: WpaBuf, secret: seq<byte>, auth: Digest16)
    requires buf.Valid() && HEADER <= buf.used < WORD && |secret| < WORD
    modifies buf.data
    ensures buf.Contents() == SetAuth(old(buf.Contents()), ResponseAuth(Md5, old(buf.Contents()), auth, secret))
  {
    hide Md5, ResponseAuth;
    var hash := HashReply(buf, auth, secret);
    PutAuth(buf, hash);
  }

  method HashWhole(buf: WpaBuf, secret: seq<byte>) returns (auth: Digest16)
    requires buf.Valid() && buf.used < WORD && |secret| < WORD
    ensures auth == HmacOf(Md5, secret, buf.Contents())
  {
    hide Md5, HmacOf;
    var out := new byte[16](_ => 0);
    var whole := Slice(buf.data, 0, buf.used);
    ContentsOne(whole);
    var _ := HmacMd5Vector(secret, [whole], out, 0);
    auth := out[..];
  }

  /** Putting back what was overwritten at two disjoint places restores the message. */
  lemma Restored(c: seq<byte>, at: nat, mac: Digest16, req: Digest16)
    requires HEADER <= at && at + 18 <= |c|
    ensures var zeroed := SetMac(c, at, mac);
            && SetMac(zeroed, at, c[at + 2..at + 18]) == c
            && zeroed[4..HEADER] == c[4..HEADER]
            && SetAuth(SetMac(SetAuth(zeroed, req), at, c[at + 2..at + 18]), c[4..HEADER]) == c
  {
  }

  method PutMac(buf: WpaBuf, at: nat, mac: Digest16)
    requires buf.Valid() && at + 18 <= buf.used
    modifies buf.data
    ensures buf.Contents() == SetMac(old(buf.Contents()), at, mac)
    ensures buf.data[buf.used..] == old(buf.data[buf.used..])
  {
    buf.Store(at + 2, mac);
  }

  method PutAuth(buf: WpaBuf, auth: Digest16)
    requires buf.Valid() && HEADER <= buf.used
    modifies buf.data
    ensures buf.Contents() == SetAuth(old(buf.Contents()), auth)
    ensures buf.data[buf.used..] == old(buf.data[buf.used..])
  {
    buf.Store(4, auth);
  }

  /** Zero the authenticator at `at`, put the request authenticator in the header, hash, and restore both. */
  method HashZeroed(buf: WpaBuf, at: nat, secret: seq<byte>, req: Option<Digest16>)
    returns (auth: Digest16, orig: Digest16)
    requires buf.Valid() && HEADER <= at && at + 18 <= buf.used < WORD && |secret| < WORD
    modifies buf.data
    ensures buf.Contents() == old(buf.Contents()) && buf.data[buf.used..] == old(buf.data[buf.used..])
    ensures orig == old(buf.Contents())[at + 2..at + 18]
    ensures auth == HmacOf(Md5, secret, var zeroed := SetMac(old(buf.Contents()), at, Zeros(16));
                                        if req.Some? then SetAuth(zeroed, req.value) else zeroed)
  {
    hide Md5, HmacOf, Zeros, SetMac, SetAuth;
    orig := buf.data[at + 2..at + 18];
    ghost var c := buf.Contents();
    Restored(c, at, Zeros(16), if req.Some? then req.value else orig);
    assert c[at + 2..at + 18] == orig;
    PutMac(buf, at, Zeros(16));
    var saved := buf.data[4..HEADER];
    assert saved == buf.Contents()[4..HEADER];
    if req.Some? {
      PutAuth(buf, req.value);
    }
    auth := HashWhole(buf, secret);
    PutMac(buf, at, orig);
    if req.Some? {
      PutAuth(buf, saved);
    }
  }

  lemma MacPositionsNone()
    ensures MacPositions([], HEADER) == []
  {
  }

  /** What scanning attribute i adds, and that nothing found is lost later. */
  lemma MacPositionsNext(attrs: seq<Attr>, i: nat)
    requires i < |attrs|
    ensures MacPositions(attrs[..i + 1], HEADER) == MacPositions(attrs[..i], HEADER) +
              (if attrs[i].typ == MESSAGE_AUTHENTICATOR then [Positions(attrs, HEADER)[i]] else [])
    ensures |MacPositions(attrs, HEADER)| >= |MacPositions(attrs[..i + 1], HEADER)|
  {
    PositionIs(attrs, HEADER, i);
    assert attrs[..i + 1] == attrs[..i] + [attrs[i]];
    MacPositionsConcat(attrs[..i], [attrs[i]], HEADER);
    assert attrs == attrs[..i + 1] + attrs[i + 1..];
    MacPositionsConcat(attrs[..i + 1], attrs[i + 1..], HEADER);
  }

  lemma FinishReplyKeepsIndex(h: Hash, raw: seq<byte>, secret: seq<byte>, auth: Digest16)
    requires WellFormed(raw)
    ensures var out := FinishedReply(h, raw, secret, auth);
            && WellFormed(out)
            && Positions(AttrsOf(out), HEADER) == Positions(AttrsOf(raw) + [MacAttr(Zeros(16))], HEADER)
  {
    hide FinishedReply, WellFormed, MacPositions;
    var mac := FinishedReplyAttrs(h, raw, secret, auth);
    PositionsAppend(AttrsOf(raw), MacAttr(mac), HEADER);
    PositionsAppend(AttrsOf(raw), MacAttr(Zeros(16)), HEADER);
  }

  lemma LengthKeepsIndex(raw: seq<byte>)
    requires WellFormed(raw)
    ensures WellFormed(SetLength(raw)) && AttrsOf(SetLength(raw)) == AttrsOf(raw)
  {
    assert SetLength(raw)[HEADER..] == raw[HEADER..];
  }

  /** Filling in the authenticator moves no attribute. */
  lemma FinishKeepsIndex(h: Hash, raw: seq<byte>, secret: seq<byte>)
    requires WellFormed(raw)
    ensures var out := Finished(h, raw, secret);
            && WellFormed(out)
            && Positions(AttrsOf(out), HEADER) == Positions(AttrsOf(raw) + [MacAttr(Zeros(16))], HEADER)
  {
    hide EncodeAttr, HmacOf, Be16, ParseAttrs, MacPositions, Zeros, Unsigned;
    var m := Unsigned(raw);
    var mac := HmacOf(h, secret, m);
    MacAppended(raw, m, mac);
    WithMac(raw, SetMac(m, |raw|, mac), mac);
    PositionsAppend(AttrsOf(raw), MacAttr(mac), HEADER);
    PositionsAppend(AttrsOf(raw), MacAttr(Zeros(16)), HEADER);
  }

  /** Make room for the attribute, then put its two header octets and its value. */
  method PutAttr(buf: WpaBuf, typ: byte, value: seq<byte>)
    requires buf.Valid() && |value| <= MAX_ATTR
    modifies buf, buf.data
    ensures buf.Valid() && (buf.data == old(buf.data) || fresh(buf.data))
    ensures buf.Contents() == old(buf.Contents()) + EncodeAttr(Attr(typ, value))
  {
    var needed := 2 + |value|;
    if buf.Tailroom() < needed {
      buf.Resize(needed);
    }
    buf.PutData([typ, 2 + |value|]);
    buf.PutData(value);
  }

  lemma Appended(raw: seq<byte>, a: Attr)
    requires WellFormed(raw) && Fits(a)
    ensures WellFormed(raw + EncodeAttr(a))
    ensures AttrsOf(raw + EncodeAttr(a)) == AttrsOf(raw) + [a]
    ensures Positions(AttrsOf(raw) + [a], HEADER) == Positions(AttrsOf(raw), HEADER) + [|raw|]
  {
    hide EncodeAttr;
    assert (raw + EncodeAttr(a))[HEADER..] == raw[HEADER..] + EncodeAttr(a);
    ParseAppend(raw[HEADER..], a);
    PositionsAppend(AttrsOf(raw), a, HEADER);
  }
}
