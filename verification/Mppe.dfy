/** MS-MPPE keys inside Microsoft vendor-specific attributes (RFC 2548 sections 2.4.2 and 2.4.3). */
module Mppe {
  import opened Bytes
  import opened Options
  import opened Md5Spec
  import opened KeyHiding
  import opened RadiusCodec
  import opened Tunnel

  const VENDOR_SPECIFIC: byte := 26
  const MICROSOFT: nat := 311
  const SEND_KEY: byte := 16
  const RECV_KEY: byte := 17

  /** The nested scan: the payload of the first vendor attribute of the wanted subtype. */
  function VendorScan(sub: seq<byte>, subtype: byte): (r: Option<seq<byte>>)
    decreases |sub|
  {
    if |sub| < 2 || sub[1] > |sub| || sub[1] < 2 then None
    else if sub[0] != subtype then VendorScan(sub[sub[1]..], subtype)
    else Some(sub[2..sub[1]])
  }

  predicate FromVendor(a: Attr, vendor: nat)
  {
    a.typ == VENDOR_SPECIFIC && |a.value| >= 4 && Be32At(a.value) == vendor
  }

  /** radius_msg_get_vendor_attr */
  function FindVendor(attrs: seq<Attr>, vendor: nat, subtype: byte): (r: Option<seq<byte>>)
    decreases |attrs|
  {
    if attrs == [] then None
    else if FromVendor(attrs[0], vendor) && VendorScan(attrs[0].value[4..], subtype).Some? then
      VendorScan(attrs[0].value[4..], subtype)
    else FindVendor(attrs[1..], vendor, subtype)
  }

  /** salt |= 0x8000 */
  function SendSalt(random: nat): nat
  {
    if random % 0x1_0000 < 0x8000 then random % 0x1_0000 + 0x8000 else random % 0x1_0000
  }

  /** salt ^= 1 */
  function RecvSalt(send: nat): nat { if send % 2 == 0 then send + 1 else send - 1 }

  /** vendor id, vendor type, vendor length, salt, hidden key */
  function KeyAttr(h: Hash, subtype: byte, key: seq<byte>, salt: nat, auth: seq<byte>, secret: seq<byte>): (a: Attr)
  {
    var cipher := EncryptKey(h, key, salt, auth, secret);
    Attr(VENDOR_SPECIFIC, [0, 0, 1, 55] + [subtype, (4 + |cipher|) % 256] + Be16(salt) + cipher)
  }

  /** radius_msg_get_ms_keys, one direction */
  function MsKey(h: Hash, attrs: seq<Attr>, subtype: byte, auth: seq<byte>, secret: seq<byte>): (r: Option<seq<byte>>)
  {
    var blob := FindVendor(attrs, MICROSOFT, subtype);
    if blob.None? then None else DecryptKey(h, blob.value, auth, secret)
  }

  lemma {:induction false} FindVendorConcat(a: seq<Attr>, b: seq<Attr>, vendor: nat, subtype: byte)
    ensures FindVendor(a + b, vendor, subtype) ==
            var r := FindVendor(a, vendor, subtype); if r.Some? then r else FindVendor(b, vendor, subtype)
    decreases |a|
  {
    if a == [] {
      assert a + b == b;
    } else {
      assert (a + b)[1..] == a[1..] + b;
      FindVendorConcat(a[1..], b, vendor, subtype);
    }
  }

  /** A key attribute that fits is found under its own subtype and skipped under any other. */
  lemma KeyAttrFound(h: Hash, subtype: byte, other: byte, key: seq<byte>, salt: nat, auth: seq<byte>, secret: seq<byte>)
    requires Fits(KeyAttr(h, subtype, key, salt, auth, secret)) && other != subtype
    ensures var a := KeyAttr(h, subtype, key, salt, auth, secret);
            && FindVendor([a], MICROSOFT, subtype) == Some(Be16(salt) + EncryptKey(h, key, salt, auth, secret))
            && FindVendor([a], MICROSOFT, other) == None
  {
    hide Be16, EncryptKey;
    var a := KeyAttr(h, subtype, key, salt, auth, secret);
    var cipher := EncryptKey(h, key, salt, auth, secret);
    var sub := a.value[4..];
    var payload := Be16(salt) + cipher;
    assert |cipher| <= 245;
    assert a.value == [0, 0, 1, 55] + ([subtype, 4 + |cipher|] + payload);
    assert sub == [subtype, 4 + |cipher|] + payload;
    assert sub[2..4 + |cipher|] == payload;
    assert sub[4 + |cipher|..] == [];
    assert VendorScan(sub[4 + |cipher|..], other) == None;
  }

  /** Both keys fit and are read back, through the nested scan and with different salts, exactly when each has
      1 to 239 octets, provided no earlier Microsoft attribute of those subtypes is in the message. */
  lemma MppeRoundTrip(h: Hash, attrs: seq<Attr>, send: seq<byte>, recv: seq<byte>, random: nat,
                      auth: seq<byte>, secret: seq<byte>)
    requires FindVendor(attrs, MICROSOFT, SEND_KEY) == FindVendor(attrs, MICROSOFT, RECV_KEY) == None
    ensures var salt := SendSalt(random);
            var a := KeyAttr(h, SEND_KEY, send, salt, auth, secret);
            var b := KeyAttr(h, RECV_KEY, recv, RecvSalt(salt), auth, secret);
            && salt != RecvSalt(salt) && 0x8000 <= salt < 0x1_0000 && 0x8000 <= RecvSalt(salt) < 0x1_0000
            && (&& Fits(a) && Fits(b)
                && MsKey(h, attrs + [a] + [b], SEND_KEY, auth, secret) == Some(send)
                && MsKey(h, attrs + [a] + [b], RECV_KEY, auth, secret) == Some(recv)
                <==> 1 <= |send| <= 239 && 1 <= |recv| <= 239)
  {
    hide Be16, EncryptKey, FindVendor, DecryptKey, PaddedBlocks;
    var salt := SendSalt(random);
    var a := KeyAttr(h, SEND_KEY, send, salt, auth, secret);
    var b := KeyAttr(h, RECV_KEY, recv, RecvSalt(salt), auth, secret);
    EncryptedLength(h, send, salt, auth, secret);
    EncryptedLength(h, recv, RecvSalt(salt), auth, secret);
    DecryptEncrypt(h, send, salt, auth, secret);
    DecryptEncrypt(h, recv, RecvSalt(salt), auth, secret);
    if Fits(a) && Fits(b) {
      KeyAttrFound(h, SEND_KEY, RECV_KEY, send, salt, auth, secret);
      KeyAttrFound(h, RECV_KEY, SEND_KEY, recv, RecvSalt(salt), auth, secret);
      FindVendorConcat(attrs, [a], MICROSOFT, SEND_KEY);
      FindVendorConcat(attrs, [a], MICROSOFT, RECV_KEY);
      FindVendorConcat(attrs + [a], [b], MICROSOFT, SEND_KEY);
      FindVendorConcat(attrs + [a], [b], MICROSOFT, RECV_KEY);
    }
  }
}
