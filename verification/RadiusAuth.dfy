/** Message-Authenticator (RFC 3579 section 3.2) and Response Authenticator (RFC 2865 section 3) over whole
    messages given as octet strings, for every hash function. */
module RadiusAuth {
  import opened Bytes
  import opened Options
  import opened Md5Spec
  import opened Hmac
  import opened KeyHiding
  import opened RadiusCodec

  const MESSAGE_AUTHENTICATOR: byte := 80

  /** A header followed by attributes that tile the rest. */
  ghost predicate WellFormed(raw: seq<byte>)
  {
    |raw| >= HEADER && ParseAttrs(raw[HEADER..]).Some?
  }

  ghost function AttrsOf(raw: seq<byte>): (r: seq<Attr>)
    requires WellFormed(raw)
    ensures AllFit(r) && EncodeAttrs(r) == raw[HEADER..]
  {
    EncodeParse(raw[HEADER..]);
    ParseAttrs(raw[HEADER..]).value
  }

  /** The length field holds the length modulo 2^16. */
  function SetLength(raw: seq<byte>): (r: seq<byte>)
    requires |raw| >= HEADER
    ensures |r| == |raw|
  {
    raw[..2] + Be16(|raw|) + raw[4..]
  }

  function SetAuth(raw: seq<byte>, auth: Digest16): (r: seq<byte>)
    requires |raw| >= HEADER
    ensures |r| == |raw|
  {
    raw[..4] + auth + raw[HEADER..]
  }

  /** The value octets of a Message-Authenticator at offset p. */
  function SetMac(raw: seq<byte>, p: nat, mac: Digest16): (r: seq<byte>)
    requires p + 18 <= |raw|
    ensures |r| == |raw|
  {
    raw[..p + 2] + mac + raw[p + 18..]
  }

  function MacAttr(mac: Digest16): (a: Attr)
    ensures Fits(a)
  {
    Attr(MESSAGE_AUTHENTICATOR, mac)
  }

  function ResponseAuth(h: Hash, raw: seq<byte>, auth: Digest16, secret: seq<byte>): (r: Digest16)
    requires |raw| >= HEADER
  {
    h(raw[..4] + auth + raw[HEADER..] + secret)
  }

  /** radius_msg_finish with a secret. */
  function Finished(h: Hash, raw: seq<byte>, secret: seq<byte>): (r: seq<byte>)
    requires |raw| >= HEADER
    ensures |r| == |raw| + 18
  {
    var m := Unsigned(raw);
    SetMac(m, |raw|, HmacOf(h, secret, m))
  }

  /** radius_msg_finish_srv up to the Message-Authenticator. */
  function Sealed(h: Hash, raw: seq<byte>, secret: seq<byte>, auth: Digest16): (r: seq<byte>)
    requires |raw| >= HEADER
    ensures |r| == |raw| + 18
  {
    var m := SetAuth(Unsigned(raw), auth);
    SetMac(m, |raw|, HmacOf(h, secret, m))
  }

  /** radius_msg_finish_srv. */
  function FinishedReply(h: Hash, raw: seq<byte>, secret: seq<byte>, auth: Digest16): (r: seq<byte>)
    requires |raw| >= HEADER
    ensures |r| == |raw| + 18
  {
    var m := Sealed(h, raw, secret, auth);
    SetAuth(m, ResponseAuth(h, m, auth, secret))
  }

  /** Section 3 of RFC 2865: the digest of the message with the request authenticator in its header, and the secret. */
  lemma ResponseAuthIs(h: Hash, raw: seq<byte>, auth: Digest16, secret: seq<byte>)
    requires |raw| >= HEADER
    ensures ResponseAuth(h, raw, auth, secret) == h(SetAuth(raw, auth) + secret)
  {
  }

  /** A finished message octet for octet: its length in the header, the attributes, and in the end an attribute of 18
      octets with the HMAC of the message in which these 16 octets are zero (section 3.2 of RFC 3579). */
  lemma FinishedIs(h: Hash, raw: seq<byte>, secret: seq<byte>)
    requires |raw| >= HEADER
    ensures var out, n := Finished(h, raw, secret), |raw| + 18;
            && |out| == n && out[..2] == raw[..2] && out[2..4] == [n / 256 % 256, n % 256]
            && out[4..n - 18] == raw[4..] && out[n - 18..n - 16] == [80, 18]
            && out[n - 16..] == HmacOf(h, secret, out[..n - 16] + Zeros(16))
  {
    hide HmacOf, Zeros;
    var m := Unsigned(raw);
    UnsignedIs(raw);
    var mac := HmacOf(h, secret, m);
    MacLast(m, |raw|, mac);
  }

  /** A finished reply: the request authenticator stands in the header for the HMAC, and then for the digest with the
      secret that takes its place. */
  lemma FinishedReplyIs(h: Hash, raw: seq<byte>, secret: seq<byte>, auth: Digest16)
    requires |raw| >= HEADER
    ensures var out, n := FinishedReply(h, raw, secret, auth), |raw| + 18;
            && |out| == n && out[..2] == raw[..2] && out[2..4] == [n / 256 % 256, n % 256]
            && out[HEADER..n - 18] == raw[HEADER..] && out[n - 18..n - 16] == [80, 18]
            && out[n - 16..] == HmacOf(h, secret, out[..4] + auth + out[HEADER..n - 16] + Zeros(16))
            && out[4..HEADER] == h(out[..4] + auth + out[HEADER..] + secret)
  {
    hide HmacOf, Zeros, Unsigned, SetAuth, SetMac;
    UnsignedIs(raw);
    var n, m := |raw| + 18, Unsigned(raw);
    var head, body := m[..4], raw[HEADER..] + [80, 18];
    Parts(m, head, m[4..HEADER], body, Zeros(16), auth, Zeros(16));
    var signed := head + auth + body + Zeros(16);
    var mac := HmacOf(h, secret, signed);
    Parts(signed, head, auth, body, Zeros(16), auth, mac);
    var sealed := head + auth + body + mac;
    var response := h(head + auth + (body + mac) + secret);
    Parts(sealed, head, auth, body, mac, response, mac);
    Slices(head, auth, body, mac);
    Slices(head, response, body, mac);
    assert body[..|body| - 2] == raw[HEADER..] && body[|body| - 2..] == [80, 18];
  }

  /** Replacing the authenticator or the last value of a message given in parts. */
  lemma Parts(m: seq<byte>, head: seq<byte>, a: Digest16, body: seq<byte>, z: Digest16, b: Digest16, mac: Digest16)
    requires |head| == 4 && |body| >= 2 && m == head + a + body + z
    ensures |m| == HEADER + |body| + 16
    ensures SetAuth(m, b) == head + b + body + z && SetMac(m, HEADER + |body| - 2, mac) == head + a + body + mac
  {
  }

  lemma Slices(head: seq<byte>, a: Digest16, body: seq<byte>, mac: Digest16)
    requires |head| == 4
    ensures var m, n := head + a + body + mac, HEADER + |body| + 16;
            && |m| == n && m[..4] == head && m[4..HEADER] == a && m[HEADER..] == body + mac
            && m[HEADER..n - 16] == body && m[n - 16..] == mac
            && (|body| >= 2 ==> m[HEADER..n - 18] == body[..|body| - 2] && m[n - 18..n - 16] == body[|body| - 2..])
  {
  }

  lemma UnsignedIs(raw: seq<byte>)
    requires |raw| >= HEADER
    ensures var m, n := Unsigned(raw), |raw| + 18;
            && m[..2] == raw[..2] && m[2..4] == [n / 256 % 256, n % 256] && m[4..n - 18] == raw[4..]
            && m[n - 18..n - 16] == [80, 18] && m[n - 16..] == Zeros(16)
  {
    var a := EncodeAttr(MacAttr(Zeros(16)));
    assert Unsigned(raw) == raw[..2] + Be16(|raw + a|) + (raw[4..] + a);
  }

  lemma MacLast(m: seq<byte>, p: nat, mac: Digest16)
    requires p + 18 == |m|
    ensures SetMac(m, p, mac) == m[..p + 2] + mac && m == m[..p + 2] + m[p + 2..]
  {
  }

  /** The offsets of the Message-Authenticator attributes. */
  function MacPositions(attrs: seq<Attr>, from: nat): (r: seq<nat>)
    decreases |attrs|
  {
    if attrs == [] then []
    else (if attrs[0].typ == MESSAGE_AUTHENTICATOR then [from] else []) +
         MacPositions(attrs[1..], from + 2 + |attrs[0].value|)
  }

  function MacHere(a: Attr, from: nat): (r: seq<nat>) { if a.typ == MESSAGE_AUTHENTICATOR then [from] else [] }

  lemma MacPositionsHead(attrs: seq<Attr>, from: nat)
    requires attrs != []
    ensures MacPositions(attrs, from) == MacHere(attrs[0], from) + MacPositions(attrs[1..], from + 2 + |attrs[0].value|)
    ensures TotalSize(attrs) == 2 + |attrs[0].value| + TotalSize(attrs[1..])
  {
  }

  lemma NoMacs(from: nat)
    ensures MacPositions([], from) == [] && TotalSize([]) == 0
  {
  }

  lemma {:induction false} MacPositionsConcat(a: seq<Attr>, b: seq<Attr>, from: nat)
    ensures MacPositions(a + b, from) == MacPositions(a, from) + MacPositions(b, from + TotalSize(a))
    decreases |a|
  {
    hide MacPositions, TotalSize, MacHere;
    var all := a + b;
    if a == [] {
      NoMacs(from);
      assert all == b;
    } else {
      assert all[1..] == a[1..] + b;
      MacPositionsHead(a, from);
      MacPositionsHead(all, from);
      MacPositionsConcat(a[1..], b, from + 2 + |a[0].value|);
    }
  }

  ghost predicate HasMac(attrs: seq<Attr>) { exists a :: a in attrs && a.typ == MESSAGE_AUTHENTICATOR }

  lemma {:induction false} MacPositionsEmpty(attrs: seq<Attr>, from: nat)
    ensures MacPositions(attrs, from) == [] <==> !HasMac(attrs)
    decreases |attrs|
  {
    if attrs != [] {
      MacPositionsEmpty(attrs[1..], from + 2 + |attrs[0].value|);
    }
  }

  /** A single Message-Authenticator has its 16 octets inside the message. */
  ghost predicate MacInside(raw: seq<byte>)
    requires WellFormed(raw)
  {
    var ps := MacPositions(AttrsOf(raw), HEADER);
    |ps| == 1 ==> HEADER <= ps[0] && ps[0] + 18 <= |raw|
  }

  /** The attributes around the only Message-Authenticator. */
  ghost predicate OnlyMac(attrs: seq<Attr>, a: seq<Attr>, m: Attr, b: seq<Attr>)
  {
    attrs == a + ([m] + b) && m.typ == MESSAGE_AUTHENTICATOR && !HasMac(a) && !HasMac(b)
  }

  /** Left out are exactly the messages whose only Message-Authenticator starts fewer than 18 octets before the end. */
  lemma MacOutsideIff(raw: seq<byte>)
    requires WellFormed(raw)
    ensures !MacInside(raw) <==>
            exists a, m, b :: OnlyMac(AttrsOf(raw), a, m, b) && 2 + |m.value| + TotalSize(b) < 18
  {
    hide AttrsOf, ParseAttrs, OnlyMac, MacPositions, TotalSize;
    var attrs := AttrsOf(raw);
    assert |raw| == HEADER + TotalSize(attrs) by { assert |EncodeAttrs(attrs)| == |raw[HEADER..]|; }
    if !MacInside(raw) {
      var a, m, b := LoneMac(attrs, HEADER);
      OnlyMacPosition(attrs, a, m, b, HEADER);
    }
    forall a, m, b | OnlyMac(attrs, a, m, b) && 2 + |m.value| + TotalSize(b) < 18 ensures !MacInside(raw) {
      OnlyMacPosition(attrs, a, m, b, HEADER);
    }
  }

  lemma OnlyMacPosition(attrs: seq<Attr>, a: seq<Attr>, m: Attr, b: seq<Attr>, from: nat)
    requires OnlyMac(attrs, a, m, b)
    ensures MacPositions(attrs, from) == [from + TotalSize(a)]
    ensures TotalSize(attrs) == TotalSize(a) + (2 + |m.value| + TotalSize(b))
  {
    hide HasMac, MacPositions, TotalSize;
    var rest := [m] + b;
    assert rest[1..] == b;
    MacPositionsConcat(a, rest, from);
    MacPositionsHead(rest, from + TotalSize(a));
    MacPositionsEmpty(a, from);
    MacPositionsEmpty(b, from + TotalSize(a) + 2 + |m.value|);
    TotalSizeConcat(a, rest);
  }

  lemma {:induction false} LoneMac(attrs: seq<Attr>, from: nat) returns (a: seq<Attr>, m: Attr, b: seq<Attr>)
    requires |MacPositions(attrs, from)| == 1
    ensures OnlyMac(attrs, a, m, b)
    decreases |attrs|
  {
    var next := from + 2 + |attrs[0].value|;
    if attrs[0].typ == MESSAGE_AUTHENTICATOR {
      a, m, b := [], attrs[0], attrs[1..];
      MacPositionsEmpty(b, next);
    } else {
      a, m, b := LoneMac(attrs[1..], next);
      assert attrs == ([attrs[0]] + a) + ([m] + b);
      a := [attrs[0]] + a;
    }
  }

  /** What radius_msg_verify_msg_auth accepts: exactly one Message-Authenticator, and it is the HMAC of the
      message with that value zeroed and, for replies, the request authenticator in the header. */
  ghost predicate MsgAuthVerified(h: Hash, raw: seq<byte>, secret: seq<byte>, req: Option<Digest16>)
    requires WellFormed(raw) && MacInside(raw)
  {
    var ps := MacPositions(AttrsOf(raw), HEADER);
    && |ps| == 1
    && var zeroed := SetMac(raw, ps[0], Zeros(16));
       HmacOf(h, secret, if req.Some? then SetAuth(zeroed, req.value) else zeroed) == raw[ps[0] + 2..ps[0] + 18]
  }

  /** What radius_msg_verify accepts. */
  ghost predicate ReplyVerified(h: Hash, raw: seq<byte>, secret: seq<byte>, req: Digest16, auth: bool)
    requires WellFormed(raw) && MacInside(raw)
  {
    && (auth ==> MsgAuthVerified(h, raw, secret, Some(req)))
    && ResponseAuth(h, raw, req, secret) == raw[4..HEADER]
  }

  /** Header changes do not touch the attributes, and the appended authenticator parses as one more attribute. */
  lemma WithMac(raw: seq<byte>, r: seq<byte>, mac: Digest16)
    requires WellFormed(raw) && |r| == |raw| + 18
    requires r[HEADER..] == raw[HEADER..] + EncodeAttr(MacAttr(mac))
    ensures WellFormed(r) && AttrsOf(r) == AttrsOf(raw) + [MacAttr(mac)]
    ensures MacPositions(AttrsOf(r), HEADER) == MacPositions(AttrsOf(raw), HEADER) + [|raw|]
  {
    ParseAppend(raw[HEADER..], MacAttr(mac));
    MacPositionsConcat(AttrsOf(raw), [MacAttr(mac)], HEADER);
  }

  lemma MacSwap(m: seq<byte>, p: nat, a: Digest16, b: Digest16)
    requires p + 18 <= |m|
    ensures SetMac(SetMac(m, p, a), p, b) == SetMac(m, p, b)
    ensures m[p + 2..p + 18] == b ==> SetMac(m, p, b) == m
    ensures SetMac(m, p, a)[p + 2..p + 18] == a
  {
  }

  lemma AuthSwap(m: seq<byte>, p: nat, a: Digest16, b: Digest16, mac: Digest16)
    requires HEADER <= p && p + 18 <= |m|
    ensures SetAuth(SetAuth(m, a), b) == SetAuth(m, b)
    ensures m[4..HEADER] == b ==> SetAuth(m, b) == m
    ensures SetAuth(m, a)[4..HEADER] == a
    ensures SetAuth(m, a)[p + 2..p + 18] == m[p + 2..p + 18]
    ensures SetMac(SetAuth(m, a), p, mac) == SetAuth(SetMac(m, p, mac), a)
  {
  }

  lemma MacAppended(raw: seq<byte>, m: seq<byte>, mac: Digest16)
    requires |raw| >= HEADER && |m| == |raw| + 18
    requires m[HEADER..] == raw[HEADER..] + EncodeAttr(MacAttr(Zeros(16)))
    ensures SetMac(m, |raw|, mac)[HEADER..] == raw[HEADER..] + EncodeAttr(MacAttr(mac))
    ensures m[|raw| + 2..] == Zeros(16)
  {
  }

  /** The message with an empty Message-Authenticator and its length filled in. */
  function Unsigned(raw: seq<byte>): (n: seq<byte>)
    requires |raw| >= HEADER
    ensures |n| == |raw| + 18
    ensures n[HEADER..] == raw[HEADER..] + EncodeAttr(MacAttr(Zeros(16)))
    ensures n[..4] == raw[..2] + Be16(|n|)
  {
    var a := EncodeAttr(MacAttr(Zeros(16)));
    var n := SetLength(raw + a);
    assert n[HEADER..] == (raw + a)[HEADER..] == raw[HEADER..] + a;
    n
  }

  /** radius_msg_finish produces a message that verifies, exactly when it is the only Message-Authenticator. */
  lemma FinishVerifies(h: Hash, raw: seq<byte>, secret: seq<byte>)
    requires WellFormed(raw)
    ensures var out := Finished(h, raw, secret);
            && WellFormed(out) && MacInside(out)
            && (MsgAuthVerified(h, out, secret, None) <==> !HasMac(AttrsOf(raw)))
  {
    hide EncodeAttr, HmacOf, Be16, ParseAttrs, MacPositions, HasMac, Zeros, Unsigned;
    var m := Unsigned(raw);
    var mac := HmacOf(h, secret, m);
    var out := SetMac(m, |raw|, mac);
    MacAppended(raw, m, mac);
    WithMac(raw, out, mac);
    MacPositionsEmpty(AttrsOf(raw), HEADER);
    MacSwap(m, |raw|, mac, Zeros(16));
  }

  /** The attributes of a finished reply are those it was given and the Message-Authenticator. */
  lemma FinishedReplyAttrs(h: Hash, raw: seq<byte>, secret: seq<byte>, auth: Digest16) returns (mac: Digest16)
    requires WellFormed(raw)
    ensures var out := FinishedReply(h, raw, secret, auth);
            && WellFormed(out) && MacInside(out)
            && AttrsOf(out) == AttrsOf(raw) + [MacAttr(mac)]
            && out[..2] == raw[..2] && out[2..4] == Be16(|out|)
            && MacPositions(AttrsOf(out), HEADER) == MacPositions(AttrsOf(raw), HEADER) + [|raw|]
  {
    hide EncodeAttr, HmacOf, Be16, ParseAttrs, MacPositions, Zeros, Unsigned;
    var n := Unsigned(raw);
    var m := SetAuth(n, auth);
    mac := HmacOf(h, secret, m);
    var sealed := SetMac(m, |raw|, mac);
    var out := SetAuth(sealed, ResponseAuth(h, sealed, auth, secret));
    MacAppended(raw, m, mac);
    WithMac(raw, out, mac);
    assert out[..4] == sealed[..4] == m[..4] == n[..4];
  }

  /** radius_msg_finish_srv produces a reply that radius_msg_verify accepts against the same request
      authenticator and secret; when the Message-Authenticator is checked too, exactly if it is the only one. */
  lemma FinishReplyVerifies(h: Hash, raw: seq<byte>, secret: seq<byte>, auth: Digest16, check: bool)
    requires WellFormed(raw)
    ensures var out := FinishedReply(h, raw, secret, auth);
            && WellFormed(out) && MacInside(out)
            && (ReplyVerified(h, out, secret, auth, check) <==> (check ==> !HasMac(AttrsOf(raw))))
  {
    hide EncodeAttr, HmacOf, Be16, ParseAttrs, MacPositions, HasMac, Zeros, SetMac, Unsigned;
    var n := Unsigned(raw);
    var m := SetAuth(n, auth);
    var mac := HmacOf(h, secret, m);
    var sealed := SetMac(m, |raw|, mac);
    var resp := ResponseAuth(h, sealed, auth, secret);
    var out := SetAuth(sealed, resp);
    var _ := FinishedReplyAttrs(h, raw, secret, auth);
    assert out[..4] == sealed[..4] && out[HEADER..] == sealed[HEADER..] && out[4..HEADER] == resp;
    if !HasMac(AttrsOf(raw)) {
      MacPositionsEmpty(AttrsOf(raw), HEADER);
      MacAppended(raw, n, mac);
      SealedVerifies(n, |raw|, mac, auth, resp);
    } else {
      MacPositionsEmpty(AttrsOf(raw), HEADER);
    }
  }

  /** Zeroing the authenticator and putting the request authenticator back gives what was hashed. */
  lemma SealedVerifies(n: seq<byte>, p: nat, mac: Digest16, auth: Digest16, resp: Digest16)
    requires HEADER <= p && |n| == p + 18
    requires n[p + 2..] == Zeros(16)
    ensures var out := SetAuth(SetMac(SetAuth(n, auth), p, mac), resp);
            && SetAuth(SetMac(out, p, Zeros(16)), auth) == SetAuth(n, auth)
            && out[p + 2..p + 18] == mac
  {
    hide SetMac, SetAuth, Zeros;
    var m := SetAuth(n, auth);
    var sealed := SetMac(m, p, mac);
    var out := SetAuth(sealed, resp);
    AuthSwap(n, p, auth, auth, Zeros(16));
    AuthSwap(sealed, p, resp, auth, Zeros(16));
    AuthSwap(m, p, resp, auth, mac);
    MacSwap(m, p, mac, Zeros(16));
  }
}
