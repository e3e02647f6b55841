/** The access decision reply of radius_server.c, from the request octets to what the access point reads back. */
module RadiusReply {
  import opened Bytes
  import opened Options
  import opened Md5Spec
  import opened KeyHiding
  import opened KeyHidingCode
  import opened RadiusCodec
  import opened RadiusAuth
  import opened RadiusMsg
  import opened RadiusOps
  import opened Decimal
  import opened Tunnel
  import opened RadiusQueries

  const USER_PASSWORD: byte := 2
  const PROXY_STATE: byte := 33
  const ACCESS_ACCEPT: byte := 2
  const ACCESS_REJECT: byte := 3
  const MAX_MSG_LEN := 4096

  /** What the connection callback answers: a negative VLAN rejects. */
  datatype Conn = Conn(vlan: int, pass: seq<byte>)

  ghost function RequestAuth(request: seq<byte>): (r: Digest16)
    requires |request| >= HEADER
  {
    request[4..HEADER]
  }

  /** Accepted: the callback gives a VLAN and the request carries a User-Password. */
  predicate Accepts(attrs: seq<Attr>, conn: Conn)
  {
    conn.vlan >= 0 && OfType(attrs, USER_PASSWORD) != []
  }

  /** The VLAN as the 16-bit parameter of get_vlan_attribute gets it. */
  function Short(vlan: nat): (r: Vlan) { vlan % 0x1_0000 }

  /** Whether the text of an accepted VLAN stays inside its buffer. */
  predicate Writable(conn: Conn) { conn.vlan >= 0 ==> |Print(Short(conn.vlan))| + 1 <= ID_STR }

  /** Proxy-State attributes first, then for an accept the VLAN and the passphrase. */
  function ReplyAttrs(h: Hash, attrs: seq<Attr>, conn: Conn, salt: nat, auth: seq<byte>, secret: seq<byte>)
    : (r: seq<Attr>)
  {
    OfType(attrs, PROXY_STATE) +
    if Accepts(attrs, conn) then VlanAttrs(Short(conn.vlan)) + [PasswordAttr(h, conn.pass, salt, auth, secret)]
    else []
  }

  /** The reply before radius_msg_finish_srv. */
  ghost function Draft(h: Hash, request: seq<byte>, conn: Conn, salt: nat, secret: seq<byte>): (r: seq<byte>)
    requires WellFormed(request)
    requires AllFit(ReplyAttrs(h, AttrsOf(request), conn, salt, RequestAuth(request), secret))
  {
    var attrs := AttrsOf(request);
    [if Accepts(attrs, conn) then ACCESS_ACCEPT else ACCESS_REJECT, request[1]] + Zeros(18) +
    EncodeAttrs(ReplyAttrs(h, attrs, conn, salt, RequestAuth(request), secret))
  }

  lemma {:induction false} OfTypeMembers(attrs: seq<Attr>, typ: byte)
    ensures forall a :: a in OfType(attrs, typ) ==> a in attrs && a.typ == typ
    decreases |attrs|
  {
    if attrs != [] {
      OfTypeMembers(attrs[1..], typ);
    }
  }

  lemma {:induction false} OfTypeIdempotent(attrs: seq<Attr>, typ: byte)
    ensures OfType(OfType(attrs, typ), typ) == OfType(attrs, typ)
    decreases |attrs|
  {
    if attrs != [] {
      var rest := OfType(attrs[1..], typ);
      OfTypeIdempotent(attrs[1..], typ);
      assert ([attrs[0]] + rest)[1..] == rest && [] + rest == rest;
    }
  }

  lemma {:induction false} OfTypeSize(attrs: seq<Attr>, typ: byte)
    ensures TotalSize(OfType(attrs, typ)) <= TotalSize(attrs)
    decreases |attrs|
  {
    if attrs != [] {
      var rest := OfType(attrs[1..], typ);
      OfTypeSize(attrs[1..], typ);
      assert ([attrs[0]] + rest)[1..] == rest && [] + rest == rest;
    }
  }

  lemma DraftAttrs(h: Hash, request: seq<byte>, conn: Conn, salt: nat, secret: seq<byte>)
    requires WellFormed(request)
    requires AllFit(ReplyAttrs(h, AttrsOf(request), conn, salt, RequestAuth(request), secret))
    ensures var d := Draft(h, request, conn, salt, secret);
            WellFormed(d) && AttrsOf(d) == ReplyAttrs(h, AttrsOf(request), conn, salt, RequestAuth(request), secret)
  {
    hide ReplyAttrs, EncodeAttrs;
    var attrs := ReplyAttrs(h, AttrsOf(request), conn, salt, RequestAuth(request), secret);
    ParseEncode(attrs);
  }

  /** The attribute types a reply can carry. */
  lemma ReplyTypes(h: Hash, attrs: seq<Attr>, conn: Conn, salt: nat, auth: seq<byte>, secret: seq<byte>)
    ensures !HasMac(ReplyAttrs(h, attrs, conn, salt, auth, secret))
    ensures OfType(ReplyAttrs(h, attrs, conn, salt, auth, secret), PROXY_STATE) == OfType(attrs, PROXY_STATE)
  {
    hide PasswordAttr, Print;
    OfTypeMembers(attrs, PROXY_STATE);
    OfTypeIdempotent(attrs, PROXY_STATE);
    var proxies := OfType(attrs, PROXY_STATE);
    if Accepts(attrs, conn) {
      var p := PasswordAttr(h, conn.pass, salt, auth, secret);
      var v := VlanAttrs(Short(conn.vlan));
      assert p.typ == TUNNEL_PASSWORD by { PasswordType(h, conn.pass, salt, auth, secret); }
      OfTypeConcat(proxies, v + [p], PROXY_STATE);
      OthersNotOfType(v + [p], PROXY_STATE);
    } else {
      assert proxies + [] == proxies;
    }
  }

  lemma PasswordType(h: Hash, key: seq<byte>, salt: nat, auth: seq<byte>, secret: seq<byte>)
    ensures PasswordAttr(h, key, salt, auth, secret).typ == TUNNEL_PASSWORD
  {
  }

  lemma {:induction false} OthersNotOfType(attrs: seq<Attr>, typ: byte)
    requires forall a :: a in attrs ==> a.typ != typ
    ensures OfType(attrs, typ) == []
    decreases |attrs|
  {
    if attrs != [] {
      OthersNotOfType(attrs[1..], typ);
    }
  }

  lemma DraftHeader(h: Hash, request: seq<byte>, conn: Conn, salt: nat, secret: seq<byte>)
    requires WellFormed(request)
    requires AllFit(ReplyAttrs(h, AttrsOf(request), conn, salt, RequestAuth(request), secret))
    ensures var d := Draft(h, request, conn, salt, secret);
            && |d| >= HEADER && d[1] == request[1]
            && d[0] == if Accepts(AttrsOf(request), conn) then ACCESS_ACCEPT else ACCESS_REJECT
  {
  }

  lemma MacNotProxy(mac: Digest16)
    ensures OfType([MacAttr(mac)], PROXY_STATE) == []
  {
  }

  /** What the access point reads from an accept. */
  lemma AcceptReads(h: Hash, attrs: seq<Attr>, conn: Conn, salt: nat, auth: seq<byte>, secret: seq<byte>,
                    mac: Digest16, numTagged: nat)
    requires Accepts(attrs, conn)
    requires AllFit(ReplyAttrs(h, attrs, conn, salt, auth, secret))
    ensures var all := ReplyAttrs(h, attrs, conn, salt, auth, secret) + [MacAttr(mac)];
            && Untagged(ScanAll(all, numTagged), 0) == Short(conn.vlan)
            && (Short(conn.vlan) == conn.vlan <==> conn.vlan < 0x1_0000)
            && (Found(ScanAll(all, numTagged)) <==> Short(conn.vlan) > 0)
            && (Password(h, all, auth, secret, 0) == Some(conn.pass) <==> 1 <= |conn.pass| <= 239)
  {
    hide Print, EncryptKey, Be16, OfType, ScanAll, Password, Untagged;
    var proxies, v := OfType(attrs, PROXY_STATE), VlanAttrs(Short(conn.vlan));
    var p, m := PasswordAttr(h, conn.pass, salt, auth, secret), MacAttr(mac);
    var all := ReplyAttrs(h, attrs, conn, salt, auth, secret) + [m];
    OfTypeMembers(attrs, PROXY_STATE);
    assert all == proxies + v + ([p] + [m]);
    VlanRoundTrip(proxies, Short(conn.vlan), [p] + [m], numTagged);
    assert all == (proxies + v) + [p] + [m];
    PasswordRoundTrip(h, proxies + v, conn.pass, salt, auth, secret, [m]);
    assert Fits(p);
  }

  /** A reply of at most 65535 octets is accepted by the parser as it is, whatever follows it in the datagram. */
  lemma ReplyParses(out: seq<byte>, trailing: seq<byte>)
    requires WellFormed(out) && out[2..4] == Be16(|out|) && |out| <= 0xffff
    ensures Accepted(out + trailing) == Some(out)
  {
  }

  /** End to end, for every hash, request, callback answer, salt and secret: when the reply can be built and is no
      longer than 65535 octets it parses, verifies against the request authenticator, keeps the identifier and the
      Proxy-State list, and an accept yields the callback's VLAN and passphrase. */
  lemma ReplyEndToEnd(h: Hash, request: seq<byte>, conn: Conn, salt: nat, secret: seq<byte>, trailing: seq<byte>,
                      numTagged: nat)
    requires WellFormed(request)
    requires AllFit(ReplyAttrs(h, AttrsOf(request), conn, salt, RequestAuth(request), secret))
    requires |Draft(h, request, conn, salt, secret)| + 18 <= 0xffff
    ensures var out := FinishedReply(h, Draft(h, request, conn, salt, secret), secret, RequestAuth(request));
            && Accepted(out + trailing) == Some(out)
            && WellFormed(out) && MacInside(out)
            && ReplyVerified(h, out, secret, RequestAuth(request), true)
            && out[1] == request[1]
            && OfType(AttrsOf(out), PROXY_STATE) == OfType(AttrsOf(request), PROXY_STATE)
            && (out[0] == ACCESS_ACCEPT <==> Accepts(AttrsOf(request), conn))
            && (Found(ScanAll(AttrsOf(out), numTagged)) <==> Accepts(AttrsOf(request), conn) && Short(conn.vlan) > 0)
            && (Accepts(AttrsOf(request), conn) ==>
                  && (Untagged(ScanAll(AttrsOf(out), numTagged), 0) == conn.vlan <==> conn.vlan < 0x1_0000)
                  && (Password(h, AttrsOf(out), RequestAuth(request), secret, 0) == Some(conn.pass) <==>
                      1 <= |conn.pass| <= 239))
  {
    hide Draft, FinishedReply, ReplyAttrs, ParseAttrs, OfType, Accepted, ReplyVerified, MacInside, ScanAll,
         Untagged, Found, Password, Accepts, Be16, AttrsOf;
    var auth, attrs := RequestAuth(request), AttrsOf(request);
    var reply := ReplyAttrs(h, attrs, conn, salt, auth, secret);
    var draft := Draft(h, request, conn, salt, secret);
    DraftAttrs(h, request, conn, salt, secret);
    DraftHeader(h, request, conn, salt, secret);
    var out := FinishedReply(h, draft, secret, auth);
    ReplyTypes(h, attrs, conn, salt, auth, secret);
    FinishReplyVerifies(h, draft, secret, auth, true);
    var mac := FinishedReplyAttrs(h, draft, secret, auth);
    ReplyParses(out, trailing);
    OfTypeConcat(reply, [MacAttr(mac)], PROXY_STATE);
    MacNotProxy(mac);
    if Accepts(attrs, conn) {
      AcceptReads(h, attrs, conn, salt, auth, secret, mac, numTagged);
    } else {
      RejectReads(h, attrs, conn, salt, auth, secret, mac, numTagged);
    }
  }

  lemma RejectReads(h: Hash, attrs: seq<Attr>, conn: Conn, salt: nat, auth: seq<byte>, secret: seq<byte>,
                    mac: Digest16, numTagged: nat)
    requires !Accepts(attrs, conn)
    ensures !Found(ScanAll(ReplyAttrs(h, attrs, conn, salt, auth, secret) + [MacAttr(mac)], numTagged))
  {
    hide OfType, ScanAll, Found, Accepts;
    OfTypeMembers(attrs, PROXY_STATE);
    NoVlan(ReplyAttrs(h, attrs, conn, salt, auth, secret) + [MacAttr(mac)], numTagged);
  }

  /** The reply can be built unless it is an accept whose hidden passphrase takes more than 15 blocks, for a
      passphrase of at most 255 octets exactly up to 239 of them. It then stays far below the length limit. */
  lemma ReplyFits(h: Hash, request: seq<byte>, conn: Conn, salt: nat, secret: seq<byte>)
    requires WellFormed(request)
    ensures var fit := AllFit(ReplyAttrs(h, AttrsOf(request), conn, salt, RequestAuth(request), secret));
            && (fit <==> (Accepts(AttrsOf(request), conn) ==> PaddedBlocks(|conn.pass|) <= 15))
            && (fit ==> |Draft(h, request, conn, salt, secret)| <= |request| + 300)
    ensures |conn.pass| <= 255 ==> (PaddedBlocks(|conn.pass|) <= 15 <==> |conn.pass| <= 239)
  {
    hide OfType, ParseAttrs, EncodeAttrs, VlanAttrs, PasswordAttr, AllFit, TotalSize;
    BlocksBound(|conn.pass|);
    hide PaddedBlocks;
    var attrs, auth := AttrsOf(request), RequestAuth(request);
    var proxies := OfType(attrs, PROXY_STATE);
    OfTypeFits(attrs, PROXY_STATE);
    OfTypeSize(attrs, PROXY_STATE);
    if Accepts(attrs, conn) {
      var v, p := VlanAttrs(Short(conn.vlan)), PasswordAttr(h, conn.pass, salt, auth, secret);
      GrantFits(h, conn, salt, auth, secret);
      TotalSizeConcat(proxies, v + [p]);
      AllFitConcat(proxies, v + [p]);
    } else {
      assert proxies + [] == proxies;
    }
  }

  lemma OfTypeFits(attrs: seq<Attr>, typ: byte)
    requires AllFit(attrs)
    ensures AllFit(OfType(attrs, typ))
  {
    OfTypeMembers(attrs, typ);
    hide OfType;
  }

  lemma AllFitConcat(a: seq<Attr>, b: seq<Attr>)
    ensures AllFit(a + b) <==> AllFit(a) && AllFit(b)
  {
    assert forall x :: x in a + b <==> x in a || x in b;
  }

  /** The attributes of an accept: when they fit, and how long they are then. */
  lemma GrantFits(h: Hash, conn: Conn, salt: nat, auth: seq<byte>, secret: seq<byte>)
    requires conn.vlan >= 0
    ensures var grant := VlanAttrs(Short(conn.vlan)) + [PasswordAttr(h, conn.pass, salt, auth, secret)];
            && (AllFit(grant) <==> PaddedBlocks(|conn.pass|) <= 15)
            && (AllFit(grant) ==> TotalSize(grant) <= 280)
  {
    hide Print, EncryptKey, Be16, PaddedBlocks, TotalSize;
    var v, p := VlanAttrs(Short(conn.vlan)), PasswordAttr(h, conn.pass, salt, auth, secret);
    var grant := v + [p];
    EncryptedLength(h, conn.pass, salt, auth, secret);
    FiveDigits(Short(conn.vlan));
    assert grant == [v[0], v[1], v[2], p] && grant[3] == p;
    assert |p.value| == 3 + 16 * PaddedBlocks(|conn.pass|);
    assert Fits(v[0]) && Fits(v[1]) && Fits(v[2]);
    assert p in grant && forall a :: a in grant ==> a == v[0] || a == v[1] || a == v[2] || a == p;
    assert AllFit(grant) <==> Fits(p);
    FourSizes(v[0], v[1], v[2], p);
  }

  lemma BlocksBound(n: nat)
    ensures n <= 255 ==> (PaddedBlocks(n) <= 15 <==> n <= 239)
  {
  }

  lemma FiveDigits(vlan: Vlan)
    ensures |Print(vlan)| <= 5
  {
    assert Pow10(2) == 100;
    assert Pow10(4) == 10000;
    PrintLength(vlan, 5);
  }

  lemma FourSizes(a: Attr, b: Attr, c: Attr, d: Attr)
    ensures TotalSize([a, b, c, d]) == 8 + |a.value| + |b.value| + |c.value| + |d.value|
  {
    TotalSizeAppend([], a);
    TotalSizeAppend([a, b], c);
    TotalSizeAppend([a, b, c], d);
    assert [a, b, c] + [d] == [a, b, c, d];
  }

  lemma FourOctets(a: Attr, b: Attr, c: Attr, d: Attr)
    requires Fits(a) && Fits(b) && Fits(c) && Fits(d)
    ensures EncodeAttrs([a, b, c, d]) == EncodeAttr(a) + EncodeAttr(b) + EncodeAttr(c) + EncodeAttr(d)
  {
    hide EncodeAttr;
    EncodeFirst(a, [b, c, d]);
    EncodeFirst(b, [c, d]);
    EncodeFirst(c, [d]);
    EncodeFirst(d, []);
    assert [a] + [b, c, d] == [a, b, c, d] && [b] + [c, d] == [b, c, d] && [c] + [d] == [c, d] && [d] + [] == [d];
  }

  /** The octets an accept grants with: tunnel type 13 (64), medium 6 (65), the VLAN in decimal (81) and the hidden
      passphrase behind tag and salt (69). */
  ghost function GrantOctets(h: Hash, conn: Conn, salt: nat, auth: seq<byte>, secret: seq<byte>): (r: seq<byte>)
    requires conn.vlan >= 0
    requires |Print(conn.vlan % 0x1_0000)| <= 253 && |EncryptKey(h, conn.pass, salt, auth, secret)| <= 250
  {
    var text, hidden := Print(conn.vlan % 0x1_0000), EncryptKey(h, conn.pass, salt, auth, secret);
    [64, 6, 0, 0, 0, 13] + [65, 6, 0, 0, 0, 6] + ([81, 2 + |text|] + text) +
    ([69, 5 + |hidden|, 0, salt / 256 % 256, salt % 256] + hidden)
  }

  lemma GrantIs(h: Hash, conn: Conn, salt: nat, auth: seq<byte>, secret: seq<byte>)
    requires conn.vlan >= 0
    requires AllFit(VlanAttrs(Short(conn.vlan)) + [PasswordAttr(h, conn.pass, salt, auth, secret)])
    ensures |Print(conn.vlan % 0x1_0000)| <= 253 && |EncryptKey(h, conn.pass, salt, auth, secret)| <= 250
    ensures EncodeAttrs(VlanAttrs(Short(conn.vlan)) + [PasswordAttr(h, conn.pass, salt, auth, secret)]) ==
            GrantOctets(h, conn, salt, auth, secret)
  {
    hide Print, EncryptKey, EncodeAttrs;
    var v, p := VlanAttrs(Short(conn.vlan)), PasswordAttr(h, conn.pass, salt, auth, secret);
    assert v + [p] == [v[0], v[1], v[2], p] && p == (v + [p])[3] && v[2] == (v + [p])[2];
    FourOctets(v[0], v[1], v[2], p);
    PasswordOctets(h, conn.pass, salt, auth, secret);
  }

  lemma PasswordOctets(h: Hash, key: seq<byte>, salt: nat, auth: seq<byte>, secret: seq<byte>)
    requires Fits(PasswordAttr(h, key, salt, auth, secret))
    ensures var hidden := EncryptKey(h, key, salt, auth, secret);
            EncodeAttr(PasswordAttr(h, key, salt, auth, secret)) ==
            [69, 5 + |hidden|, 0, salt / 256 % 256, salt % 256] + hidden
  {
    hide EncryptKey;
  }

  /** The octets of a reply before it is finished: code 2 for an accept and 3 for a reject, the identifier, the
      Proxy-State attributes (33), and in an accept what it grants. An accept takes a User-Password (2). */
  lemma DraftOctets(h: Hash, request: seq<byte>, conn: Conn, salt: nat, secret: seq<byte>)
    requires WellFormed(request)
    requires AllFit(ReplyAttrs(h, AttrsOf(request), conn, salt, RequestAuth(request), secret))
    ensures var attrs, auth := AttrsOf(request), RequestAuth(request);
            var draft, proxies := Draft(h, request, conn, salt, secret), OfType(attrs, 33);
            var accept := conn.vlan >= 0 && OfType(attrs, 2) != [];
            && AllFit(proxies) && draft[..HEADER] == [if accept then 2 else 3, request[1]] + Zeros(18)
            && (accept ==> |Print(conn.vlan % 0x1_0000)| <= 253)
            && (accept ==> |EncryptKey(h, conn.pass, salt, auth, secret)| <= 250)
            && draft[HEADER..] ==
               EncodeAttrs(proxies) + if accept then GrantOctets(h, conn, salt, auth, secret) else []
  {
    hide OfType, ParseAttrs, Print, EncryptKey, Zeros, AllFit, VlanAttrs, PasswordAttr, EncodeAttrs, GrantOctets;
    var attrs, auth := AttrsOf(request), RequestAuth(request);
    var proxies := OfType(attrs, PROXY_STATE);
    OfTypeFits(attrs, PROXY_STATE);
    if Accepts(attrs, conn) {
      var grant := VlanAttrs(Short(conn.vlan)) + [PasswordAttr(h, conn.pass, salt, auth, secret)];
      AllFitConcat(proxies, grant);
      EncodeConcat(proxies, grant);
      GrantIs(h, conn, salt, auth, secret);
    } else {
      assert proxies + [] == proxies;
    }
  }

  /** get_password_attribute, with the random salt as a parameter. */
  method GetPasswordAttribute(auth: Digest16, secret: seq<byte>, key: seq<byte>, salt: nat) returns (value: seq<byte>)
    requires |secret| < WORD
    ensures Attr(TUNNEL_PASSWORD, value) == PasswordAttr(Md5, key, salt, auth, secret)
  {
    hide Md5, EncryptKey, Be16, PaddedBlocks;
    var buf := new byte[3 + 1 + |key| + 15](_ => 0);
    WriteAt(buf, 1, Be16(salt));
    assert buf[..3] == [0] + Be16(salt);
    var elen := EncryptMsKey(key, salt, auth, secret, buf, 3);
    value := buf[..3 + elen];
    assert value == buf[..3] + buf[3..3 + elen];
  }

  lemma AddedNone(before: seq<Attr>, attrs: seq<Attr>)
    ensures AllFit(attrs[..0]) && before + attrs[..0] == before
  {
  }

  lemma AddedNext(before: seq<Attr>, attrs: seq<Attr>, i: nat)
    requires i < |attrs| && AllFit(attrs[..i])
    ensures AllFit(attrs[..i + 1]) <==> Fits(attrs[i])
    ensures AllFit(attrs) ==> Fits(attrs[i])
    ensures before + attrs[..i + 1] == before + attrs[..i] + [attrs[i]]
  {
    assert attrs[..i + 1] == attrs[..i] + [attrs[i]];
  }

  /** Add attributes one by one until one is refused. */
  method AddAll(msg: Message, attrs: seq<Attr>) returns (ok: bool)
    requires msg.Valid()
    modifies msg, msg.buf, msg.buf.data
    ensures msg.Valid() && msg.buf == old(msg.buf) && (msg.buf.data == old(msg.buf.data) || fresh(msg.buf.data))
    ensures ok <==> AllFit(attrs)
    ensures ok ==> msg.Attrs() == old(msg.Attrs()) + attrs
    ensures msg.Raw()[..HEADER] == old(msg.Raw())[..HEADER]
  {
    hide ParseAttrs, AttrsOf, Positions, AllFit, Message.Valid;
    ghost var before := msg.Attrs();
    var i := 0;
    AddedNone(before, attrs);
    while i < |attrs|
      invariant 0 <= i <= |attrs|
      invariant msg.Valid() && msg.buf == old(msg.buf) && (msg.buf.data == old(msg.buf.data) || fresh(msg.buf.data))
      invariant AllFit(attrs[..i]) && msg.Attrs() == before + attrs[..i]
      invariant msg.Raw()[..HEADER] == old(msg.Raw())[..HEADER]
    {
      AddedNext(before, attrs, i);
      var at: nat;
      ok, at := msg.AddAttr(attrs[i].typ, attrs[i].value);
      if !ok {
        return;
      }
      i := i + 1;
    }
    assert attrs[..i] == attrs;
    ok := true;
  }

  lemma {:induction false} SizeBound(attrs: seq<Attr>)
    requires AllFit(attrs)
    ensures TotalSize(attrs) <= 255 * |attrs|
    decreases |attrs|
  {
    if attrs != [] {
      assert attrs[0] in attrs;
      SizeBound(attrs[1..]);
    }
  }

  lemma DraftLength(request: seq<byte>, extra: seq<Attr>)
    requires WellFormed(request) && AllFit(extra)
    ensures TotalSize(OfType(AttrsOf(request), PROXY_STATE) + extra) <= |request| + 255 * |extra|
  {
    hide ParseAttrs, OfType;
    OfTypeSize(AttrsOf(request), PROXY_STATE);
    TotalSizeConcat(OfType(AttrsOf(request), PROXY_STATE), extra);
    SizeBound(extra);
  }

  /** The reply before it is finished: header, copied Proxy-State attributes, the extra ones. */
  method DraftReply(request: Message, code: byte, extra: seq<Attr>) returns (reply: Message?)
    requires request.Valid() && |request.Raw()| <= 0xffff
    ensures reply == null <==> !AllFit(extra)
    ensures reply != null ==> fresh(reply) && fresh(reply.buf) && fresh(reply.buf.data) && reply.Valid()
    ensures reply != null ==>
            && reply.Raw()[..HEADER] == [code, request.Raw()[1]] + Zeros(18)
            && reply.Attrs() == OfType(request.Attrs(), PROXY_STATE) + extra
            && |reply.Raw()| <= 0x2_0000 + 255 * |extra|
  {
    hide ParseAttrs, AttrsOf, Positions, OfType, Zeros, EncodeAttrs;
    reply := new Message(code, request.buf.data[1]);
    ghost var head := reply.Raw();
    var _ := CopyAttr(reply, request, PROXY_STATE);
    ghost var proxies := OfType(request.Attrs(), PROXY_STATE);
    var ok := AddAll(reply, extra);
    if !ok {
      return null;
    }
    DraftLength(request.Raw(), extra);
  }

  lemma DraftIs(h: Hash, request: seq<byte>, conn: Conn, salt: nat, secret: seq<byte>, code: byte, extra: seq<Attr>,
                draft: seq<byte>)
    requires WellFormed(request) && WellFormed(draft)
    requires code == (if Accepts(AttrsOf(request), conn) then ACCESS_ACCEPT else ACCESS_REJECT)
    requires OfType(AttrsOf(request), PROXY_STATE) + extra
          == ReplyAttrs(h, AttrsOf(request), conn, salt, RequestAuth(request), secret)
    requires draft[..HEADER] == [code, request[1]] + Zeros(18)
    requires AttrsOf(draft) == OfType(AttrsOf(request), PROXY_STATE) + extra
    ensures AllFit(ReplyAttrs(h, AttrsOf(request), conn, salt, RequestAuth(request), secret))
    ensures draft == Draft(h, request, conn, salt, secret)
  {
    hide ParseAttrs, OfType, Zeros, EncodeAttrs, ReplyAttrs, Accepts;
  }

  /** get_vlan_attribute: the text goes through a buffer of five octets. */
  method GetVlanAttribute(vlan: Vlan) returns (attrs: seq<Attr>)
    requires |Print(vlan)| + 1 <= ID_STR
    ensures attrs == VlanAttrs(vlan)
  {
    hide Print;
    var idStr := new byte[ID_STR](_ => 0);
    WriteAt(idStr, 0, Print(vlan) + [0]);
    var text := idStr[..|Print(vlan)|];
    assert text == Print(vlan);
    attrs := [Attr(TUNNEL_TYPE, [0, 0, 0, TYPE_VLAN]), Attr(TUNNEL_MEDIUM_TYPE, [0, 0, 0, MEDIUM_802]),
              Attr(TUNNEL_PRIVATE_GROUP_ID, text)];
  }

  /** radius_server_macacl: the request is only read. */
  method Macacl(request: Message, conn: Conn, salt: nat, secret: seq<byte>) returns (reply: Message?)
    requires request.Valid() && |secret| < WORD && Writable(conn)
    requires |request.Raw()| <= 0xffff
    ensures reply == null <==>
            !AllFit(ReplyAttrs(Md5, request.Attrs(), conn, salt, RequestAuth(request.Raw()), secret))
    ensures reply != null ==> fresh(reply) && fresh(reply.buf) && fresh(reply.buf.data) && reply.Valid()
    ensures reply != null ==>
            reply.Raw() == FinishedReply(Md5, Draft(Md5, request.Raw(), conn, salt, secret), secret,
                                         RequestAuth(request.Raw()))
  {
    hide Md5, ParseAttrs, AttrsOf, Positions, OfType, PasswordAttr, FinishedReply, Draft, Print;
    var auth: Digest16 := request.buf.data[4..HEADER];
    assert auth == RequestAuth(request.Raw());
    var extra: seq<Attr> := [];
    var code := ACCESS_REJECT;
    if conn.vlan >= 0 {
      var value := GetPasswordAttribute(auth, secret, conn.pass, salt);
      extra := GetVlanAttribute(Short(conn.vlan));
      extra := extra + [Attr(TUNNEL_PASSWORD, value)];
      code := ACCESS_ACCEPT;
    }
    var pw := FirstOfType(request, USER_PASSWORD);
    if pw.None? {
      code := ACCESS_REJECT;
      extra := [];
    }
    reply := DraftReply(request, code, extra);
    if reply != null {
      DraftIs(Md5, request.Raw(), conn, salt, secret, code, extra, reply.Raw());
      var _ := reply.FinishReply(secret, auth);
    }
  }
}
