/** The loops of radius.c that look attributes up in a message, and the operations that add keys to one. */
module RadiusQueries {
  import opened Bytes
  import opened Options
  import opened Md5Spec
  import opened KeyHiding
  import opened KeyHidingCode
  import opened RadiusCodec
  import opened RadiusAuth
  import opened RadiusMsg
  import opened RadiusOps
  import opened Tunnel
  import opened Mppe

  /** radius_msg_get_attr_ptr without a start: the value of the first attribute of a type. */
  method FirstOfType(msg: Message, typ: byte) returns (r: Option<seq<byte>>)
    requires msg.Valid()
    ensures r.None? <==> OfType(msg.Attrs(), typ) == []
    ensures r.Some? ==> OfType(msg.Attrs(), typ) != [] && r.value == OfType(msg.Attrs(), typ)[0].value
  {
    hide WellFormed, AttrsOf, Positions, OfType;
    ghost var attrs := msg.Attrs();
    OfTypeNone(typ);
    var i := 0;
    while i < |msg.attrPos|
      invariant 0 <= i <= |msg.attrPos| == |attrs|
      invariant OfType(attrs[..i], typ) == []
    {
      var a := ReadAttr(msg, i);
      OfTypeNext(attrs, i, typ);
      assert attrs == attrs[..i + 1] + attrs[i + 1..];
      OfTypeConcat(attrs[..i + 1], attrs[i + 1..], typ);
      if a.typ == typ {
        return Some(a.value);
      }
      i := i + 1;
    }
    assert attrs[..i] == attrs;
    r := None;
  }

  /** The inner loop of radius_msg_get_vendor_attr. */
  method ScanVendor(sub: seq<byte>, subtype: byte) returns (r: Option<seq<byte>>)
    ensures r == VendorScan(sub, subtype)
  {
    var pos := 0;
    while |sub| - pos >= 2
      invariant 0 <= pos <= |sub|
      invariant VendorScan(sub[pos..], subtype) == VendorScan(sub, subtype)
      decreases |sub| - pos
    {
      ghost var tail := sub[pos..];
      var len: nat := sub[pos + 1];
      if len > |sub| - pos || len < 2 {
        return None;
      }
      SubSlice(sub, pos, 2, len);
      if sub[pos] == subtype {
        return Some(sub[pos + 2..pos + len]);
      }
      pos := pos + len;
    }
    r := None;
  }

  /** radius_msg_get_vendor_attr */
  method GetVendorAttr(msg: Message, vendor: nat, subtype: byte) returns (r: Option<seq<byte>>)
    requires msg.Valid()
    ensures r == FindVendor(msg.Attrs(), vendor, subtype)
  {
    hide WellFormed, AttrsOf, Positions, VendorScan;
    ghost var attrs := msg.Attrs();
    var i := 0;
    while i < |msg.attrPos|
      invariant 0 <= i <= |msg.attrPos| == |attrs|
      invariant FindVendor(attrs[i..], vendor, subtype) == FindVendor(attrs, vendor, subtype)
    {
      var a := ReadAttr(msg, i);
      if FromVendor(a, vendor) {
        r := ScanVendor(a.value[4..], subtype);
        if r.Some? {
          return;
        }
      }
      i := i + 1;
    }
    r := None;
  }

  /** radius_msg_get_ms_keys */
  method GetMsKeys(msg: Message, auth: Digest16, secret: seq<byte>)
    returns (send: Option<seq<byte>>, recv: Option<seq<byte>>)
    requires msg.Valid() && |secret| < WORD
    ensures send == MsKey(Md5, msg.Attrs(), SEND_KEY, auth, secret)
    ensures recv == MsKey(Md5, msg.Attrs(), RECV_KEY, auth, secret)
  {
    hide WellFormed, AttrsOf, Positions, Md5, FindVendor, DecryptKey;
    send, recv := None, None;
    var blob := GetVendorAttr(msg, MICROSOFT, SEND_KEY);
    if blob.Some? {
      send := DecryptMsKey(blob.value, auth, secret);
    }
    blob := GetVendorAttr(msg, MICROSOFT, RECV_KEY);
    if blob.Some? {
      recv := DecryptMsKey(blob.value, auth, secret);
    }
  }

  /** The nested scan gives the first of a list of subattributes with the wanted type, however many come before it. */
  lemma {:induction false} VendorScanIs(subs: seq<Attr>, tail: seq<byte>, subtype: byte)
    requires AllFit(subs) && |tail| < 2
    ensures VendorScan(EncodeAttrs(subs) + tail, subtype) ==
            var found := OfType(subs, subtype); if found == [] then None else Some(found[0].value)
    decreases |subs|
  {
    if subs == [] {
      assert [] + tail == tail;
    } else {
      var a, rest := subs[0], EncodeAttrs(subs[1..]) + tail;
      var s := EncodeAttrs(subs) + tail;
      assert s == EncodeAttr(a) + rest;
      assert s[0] == a.typ && s[1] == 2 + |a.value| && s[2..s[1]] == a.value && s[s[1]..] == rest;
      VendorScanIs(subs[1..], tail, subtype);
    }
  }

  /** The octets of the key attributes: vendor 311, subattribute 16 to send and 17 to receive, the salt, the hidden
      key. */
  lemma KeyOctets(h: Hash, key: seq<byte>, salt: nat, auth: seq<byte>, secret: seq<byte>)
    requires Fits(KeyAttr(h, SEND_KEY, key, salt, auth, secret)) || Fits(KeyAttr(h, RECV_KEY, key, salt, auth, secret))
    ensures var hidden, s := EncryptKey(h, key, salt, auth, secret), [salt / 256 % 256, salt % 256];
            var a, b := KeyAttr(h, SEND_KEY, key, salt, auth, secret), KeyAttr(h, RECV_KEY, key, salt, auth, secret);
            && Fits(a) && EncodeAttr(a) == [26, 10 + |hidden|, 0, 0, 1, 55, 16, 4 + |hidden|] + s + hidden
            && Fits(b) && EncodeAttr(b) == [26, 10 + |hidden|, 0, 0, 1, 55, 17, 4 + |hidden|] + s + hidden
  {
    hide EncryptKey;
  }

  /** One half of radius_msg_add_mppe_keys: lay out the vendor attribute in a buffer and add it. */
  method AddKey(msg: Message, subtype: byte, key: seq<byte>, salt: nat, auth: Digest16, secret: seq<byte>)
    returns (ok: bool)
    requires msg.Valid() && |secret| < WORD
    modifies msg, msg.buf, msg.buf.data
    ensures msg.Valid() && msg.buf == old(msg.buf) && (msg.buf.data == old(msg.buf.data) || fresh(msg.buf.data))
    ensures ok <==> Fits(KeyAttr(Md5, subtype, key, salt, auth, secret))
    ensures ok ==> msg.Attrs() == old(msg.Attrs()) + [KeyAttr(Md5, subtype, key, salt, auth, secret)]
    ensures !ok ==> msg.Attrs() == old(msg.Attrs())
  {
    hide WellFormed, AttrsOf, Positions, EncodeAttr, Md5, KeyAttr;
    var value := LayOutKey(subtype, key, salt, auth, secret);
    var at: nat;
    ok, at := msg.AddAttr(VENDOR_SPECIFIC, value);
  }

  /** Vendor id and type, salt, hidden key; the vendor length goes in last. */
  method LayOutKey(subtype: byte, key: seq<byte>, salt: nat, auth: Digest16, secret: seq<byte>)
    returns (value: seq<byte>)
    requires |secret| < WORD
    ensures Attr(VENDOR_SPECIFIC, value) == KeyAttr(Md5, subtype, key, salt, auth, secret)
  {
    hide Md5, EncryptKey, Be16, PaddedBlocks;
    var buf := new byte[8 + |key| + 16](_ => 0);
    WriteAt(buf, 0, [0, 0, 1, 55, subtype, 0] + Be16(salt));
    assert buf[..8] == [0, 0, 1, 55, subtype, 0] + Be16(salt);
    var elen := EncryptMsKey(key, salt, auth, secret, buf, 8);
    buf[5] := (4 + elen) % 256;
    value := buf[..8 + elen];
    assert value == buf[..8] + buf[8..8 + elen];
    assert buf[..8] == [0, 0, 1, 55] + [subtype, (4 + elen) % 256] + Be16(salt);
  }

  /** radius_msg_add_mppe_keys, with the random salt as a parameter. */
  method AddMppeKeys(msg: Message, auth: Digest16, secret: seq<byte>, send: seq<byte>, recv: seq<byte>, random: nat)
    returns (ok: bool)
    requires msg.Valid() && |secret| < WORD
    modifies msg, msg.buf, msg.buf.data
    ensures msg.Valid()
    ensures var a := KeyAttr(Md5, SEND_KEY, send, SendSalt(random), auth, secret);
            var b := KeyAttr(Md5, RECV_KEY, recv, RecvSalt(SendSalt(random)), auth, secret);
            && (ok <==> Fits(a) && Fits(b))
            && (ok ==> msg.Attrs() == old(msg.Attrs()) + [a] + [b])
            && (!ok ==> msg.Attrs() == old(msg.Attrs()) + if Fits(a) then [a] else [])
  {
    hide WellFormed, AttrsOf, Positions, EncodeAttr, Md5, EncryptKey, Be16, KeyAttr;
    var salt := SendSalt(random);
    ok := AddKey(msg, SEND_KEY, send, salt, auth, secret);
    assert old(msg.Attrs()) + [] == old(msg.Attrs());
    if ok {
      ok := AddKey(msg, RECV_KEY, recv, RecvSalt(salt), auth, secret);
    }
  }

  /** The attribute loop of radius_msg_get_vlanid over tunnel[32]. */
  method ScanTunnels(msg: Message, numTagged: nat) returns (tunnel: array<Tun>, untagged: nat, tagged: seq<nat>)
    requires msg.Valid()
    ensures fresh(tunnel) && tunnel.Length == TAGS
    ensures Scan(tunnel[..], untagged, tagged) == ScanAll(msg.Attrs(), numTagged)
  {
    hide WellFormed, AttrsOf, Positions, GroupVlan, Be24;
    ghost var attrs := msg.Attrs();
    tunnel := new Tun[TAGS](_ => Tun(0, 0, 0, 0));
    untagged, tagged := 0, [];
    var i := 0;
    while i < |msg.attrPos|
      invariant 0 <= i <= |msg.attrPos| == |attrs|
      invariant Scan(tunnel[..], untagged, tagged) == ScanAll(attrs[..i], numTagged)
      invariant msg.Valid() && msg.Attrs() == attrs
      modifies tunnel
    {
      var a := ReadAttr(msg, i);
      assert attrs[..i + 1] == attrs[..i] + [a];
      untagged, tagged := TunnelStep(tunnel, untagged, tagged, a, numTagged);
      i := i + 1;
    }
    assert attrs[..i] == attrs;
  }

  /** The switch over one attribute, updating its tunnel in place. */
  method TunnelStep(tunnel: array<Tun>, was: nat, list: seq<nat>, a: Attr, numTagged: nat)
    returns (untagged: nat, tagged: seq<nat>)
    requires tunnel.Length == TAGS
    modifies tunnel
    ensures Scan(tunnel[..], untagged, tagged) == ScanAttr(Scan(old(tunnel[..]), was, list), a, numTagged)
  {
    hide GroupVlan, Be24;
    untagged, tagged := was, list;
    var v := a.value;
    if v == [] {
      return;
    }
    var t := TagOf(v);
    var tun := tunnel[t];
    if a.typ == TUNNEL_TYPE && |v| == 4 {
      tunnel[t] := tun.(used := tun.used + 1, typ := Be24(v, 1));
    } else if a.typ == TUNNEL_MEDIUM_TYPE && |v| == 4 {
      tunnel[t] := tun.(used := tun.used + 1, medium := Be24(v, 1));
    } else if a.typ == TUNNEL_PRIVATE_GROUP_ID && GroupVlan(v) > 0 {
      tunnel[t] := tun.(used := tun.used + 1, vlan := GroupVlan(v));
    } else if a.typ == EGRESS_VLANID && |v| == 4 && Be24(v, 1) > 0 {
      if v[0] == 0x32 {
        untagged := Be24(v, 1);
      } else if v[0] == 0x31 && |tagged| < numTagged {
        tagged := tagged + [Be24(v, 1)];
      }
    }
  }

  /** Insertion into an ascending list. */
  function Insert(x: nat, s: seq<nat>): (r: seq<nat>)
    ensures multiset(r) == multiset(s) + multiset{x}
    decreases |s|
  {
    if s == [] || x <= s[0] then [x] + s else
      assert s == [s[0]] + s[1..];
      [s[0]] + Insert(x, s[1..])
  }

  predicate Ascending(s: seq<nat>) { forall i, j :: 0 <= i < j < |s| ==> s[i] <= s[j] }

  lemma InsertMember(x: nat, s: seq<nat>, y: nat)
    requires y in Insert(x, s)
    ensures y == x || y in s
  {
    assert y in multiset(Insert(x, s));
  }

  lemma AscendingFrom(h: nat, s: seq<nat>)
    requires Ascending(s) && forall y :: y in s ==> h <= y
    ensures Ascending([h] + s)
  {
    var t := [h] + s;
    forall i, j | 0 <= i < j < |t| ensures t[i] <= t[j] {
      assert t[j] == s[j - 1] && s[j - 1] in s && (i > 0 ==> t[i] == s[i - 1]);
    }
  }

  lemma {:induction false} InsertAscending(x: nat, s: seq<nat>)
    requires Ascending(s)
    ensures Ascending(Insert(x, s))
    decreases |s|
  {
    if s == [] || x <= s[0] {
      AscendingFrom(x, s);
    } else {
      var r := Insert(x, s[1..]);
      forall y | y in r ensures s[0] <= y {
        InsertMember(x, s[1..], y);
      }
      InsertAscending(x, s[1..]);
      hide Ascending;
      AscendingFrom(s[0], r);
    }
  }

  /** qsort with cmp_int: the one ascending rearrangement. */
  method SortTagged(s: seq<nat>) returns (r: seq<nat>)
    ensures Ascending(r) && multiset(r) == multiset(s)
  {
    r := [];
    var i := 0;
    while i < |s|
      invariant 0 <= i <= |s| && Ascending(r) && multiset(r) == multiset(s[..i])
    {
      InsertAscending(s[i], r);
      r := Insert(s[i], r);
      assert s[..i + 1] == s[..i] + [s[i]];
      i := i + 1;
    }
    assert s[..i] == s;
  }

  /** radius_msg_get_vlanid */
  method GetVlanId(msg: Message, numTagged: nat) returns (found: bool, untagged: nat, tagged: seq<nat>)
    requires msg.Valid()
    ensures var s := ScanAll(msg.Attrs(), numTagged);
            && untagged == Untagged(s, 0)
            && Ascending(tagged) && multiset(tagged) == multiset(s.tagged)
            && (found <==> Found(s))
  {
    hide WellFormed, AttrsOf, Positions, ScanAll, Ascending;
    var tunnel, plain, list := ScanTunnels(msg, numTagged);
    ghost var s := ScanAll(msg.Attrs(), numTagged);
    untagged := plain;
    var i := 0;
    while i < TAGS
      invariant 0 <= i <= TAGS && untagged == plain
      invariant Untagged(s, 0) == Untagged(s, i)
    {
      if Complete(tunnel[i]) {
        untagged := tunnel[i].vlan;
        break;
      }
      i := i + 1;
    }
    tagged := SortTagged(list);
    found := untagged > 0 || list != [];
  }

  /** radius_msg_get_tunnel_password */
  method GetTunnelPassword(msg: Message, auth: Digest16, secret: seq<byte>, n: nat) returns (r: Option<seq<byte>>)
    requires msg.Valid() && |secret| < WORD
    ensures r == Password(Md5, msg.Attrs(), auth, secret, n)
  {
    hide WellFormed, AttrsOf, Positions, Md5, TunnelKey;
    ghost var attrs := msg.Attrs();
    var i, j := 0, 0;
    while i < |msg.attrPos|
      invariant 0 <= i <= |msg.attrPos| == |attrs| && 0 <= j <= n
      invariant NthPassword(attrs, n) == NthPassword(attrs[i..], n - j)
    {
      var a := ReadAttr(msg, i);
      if IsPassword(a) {
        if j == n {
          r := DecryptTunnelPassword(a.value, auth, secret);
          return;
        }
        j := j + 1;
      }
      i := i + 1;
    }
    r := None;
  }
}
