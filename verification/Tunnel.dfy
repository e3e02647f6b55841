/** VLAN and passphrase attributes (RFC 3580 section 3.31, RFC 2868): what the server sends
    and what radius_msg_get_vlanid and radius_msg_get_tunnel_password read. */
module Tunnel {
  import opened Bytes
  import opened Options
  import opened Md5Spec
  import opened KeyHiding
  import opened RadiusCodec
  import opened Decimal

  const TUNNEL_TYPE: byte := 64
  const TUNNEL_MEDIUM_TYPE: byte := 65
  const TUNNEL_PASSWORD: byte := 69
  const TUNNEL_PRIVATE_GROUP_ID: byte := 81
  const EGRESS_VLANID: byte := 56
  const TAGS := 32
  const TYPE_VLAN := 13
  const MEDIUM_802 := 6

  /** struct radius_tunnel_attrs */
  datatype Tun = Tun(used: nat, typ: nat, medium: nat, vlan: nat)

  /** The local variables of radius_msg_get_vlanid. */
  datatype Scan = Scan(tun: seq<Tun>, untagged: nat, tagged: seq<nat>)

  function Be24(v: seq<byte>, i: nat): (r: nat)
    requires i + 3 <= |v|
  {
    var a: int, b: int, c: int := v[i], v[i + 1], v[i + 2];
    0x1_0000 * a + 0x100 * b + c
  }

  /** The octets of a string up to its terminating zero. */
  function CString(s: seq<byte>): (r: seq<byte>)
    decreases |s|
  {
    if s == [] || s[0] == 0 then [] else [s[0]] + CString(s[1..])
  }

  /** The group id text: the tag octet dropped when there is one, nothing when it does not fit buf[10]. */
  function GroupVlan(v: seq<byte>): (r: int)
    requires v != []
  {
    var text := if v[0] < TAGS then v[1..] else v;
    if |text| >= 10 then 0 else Atoi(CString(text))
  }

  /** The tunnel an attribute belongs to: its tag octet, or none. */
  function TagOf(v: seq<byte>): (t: nat)
    requires v != []
    ensures t < TAGS
  {
    if v[0] >= TAGS then 0 else v[0]
  }

  function SetTun(s: Scan, t: nat, tun: Tun): (r: Scan)
    requires t < |s.tun|
    ensures |r.tun| == |s.tun|
  {
    Scan(s.tun[t := tun], s.untagged, s.tagged)
  }

  function Egress(s: Scan, tag: byte, vlan: nat, numTagged: nat): (r: Scan)
    ensures r.tun == s.tun
  {
    if vlan == 0 then s
    else if tag == 0x32 then Scan(s.tun, vlan, s.tagged)
    else if tag == 0x31 && |s.tagged| < numTagged then Scan(s.tun, s.untagged, s.tagged + [vlan])
    else s
  }

  /** One turn of the attribute loop. */
  function ScanAttr(s: Scan, a: Attr, numTagged: nat): (r: Scan)
    requires |s.tun| == TAGS
    ensures |r.tun| == TAGS
  {
    var v := a.value;
    if v == [] then s else
      var t := TagOf(v);
      var was := s.tun[t];
      if a.typ == TUNNEL_TYPE && |v| == 4 then
        SetTun(s, t, Tun(was.used + 1, Be24(v, 1), was.medium, was.vlan))
      else if a.typ == TUNNEL_MEDIUM_TYPE && |v| == 4 then
        SetTun(s, t, Tun(was.used + 1, was.typ, Be24(v, 1), was.vlan))
      else if a.typ == TUNNEL_PRIVATE_GROUP_ID && GroupVlan(v) > 0 then
        SetTun(s, t, Tun(was.used + 1, was.typ, was.medium, GroupVlan(v)))
      else if a.typ == EGRESS_VLANID && |v| == 4 then Egress(s, v[0], Be24(v, 1), numTagged)
      else s
  }

  function NoTunnels(): (r: seq<Tun>)
    ensures |r| == TAGS && forall i :: 0 <= i < TAGS ==> r[i] == Tun(0, 0, 0, 0)
  {
    seq(TAGS, _ => Tun(0, 0, 0, 0))
  }

  function ScanAll(attrs: seq<Attr>, numTagged: nat): (r: Scan)
    ensures |r.tun| == TAGS
    decreases |attrs|
  {
    if attrs == [] then Scan(NoTunnels(), 0, [])
    else ScanAttr(ScanAll(attrs[..|attrs| - 1], numTagged), attrs[|attrs| - 1], numTagged)
  }

  predicate Complete(t: Tun)
  {
    t.used > 0 && t.typ == TYPE_VLAN && t.medium == MEDIUM_802 && t.vlan > 0
  }

  /** The complete tunnel with the lowest tag overrides an Egress-VLANID. */
  function Untagged(s: Scan, from: nat): (r: nat)
    requires |s.tun| == TAGS && from <= TAGS
    decreases TAGS - from
  {
    if from == TAGS then s.untagged
    else if Complete(s.tun[from]) then s.tun[from].vlan
    else Untagged(s, from + 1)
  }

  /** uint16_t */
  type Vlan = x: int | 0 <= x < 0x1_0000

  /** The buffer get_vlan_attribute writes the decimal text and its terminator to. */
  const ID_STR := 5

  /** get_vlan_attribute: tunnel type, medium type and the VLAN in decimal. */
  function VlanAttrs(vlan: Vlan): (r: seq<Attr>)
    ensures |r| == 3
  {
    [Attr(TUNNEL_TYPE, [0, 0, 0, TYPE_VLAN]),
     Attr(TUNNEL_MEDIUM_TYPE, [0, 0, 0, MEDIUM_802]),
     Attr(TUNNEL_PRIVATE_GROUP_ID, Print(vlan))]
  }

  predicate Ignored(a: Attr)
  {
    a.typ != TUNNEL_TYPE && a.typ != TUNNEL_MEDIUM_TYPE && a.typ != TUNNEL_PRIVATE_GROUP_ID &&
    a.typ != EGRESS_VLANID
  }

  lemma {:induction false} ScanIgnores(attrs: seq<Attr>, more: seq<Attr>, numTagged: nat)
    requires forall a :: a in more ==> Ignored(a)
    ensures ScanAll(attrs + more, numTagged) == ScanAll(attrs, numTagged)
    decreases |more|
  {
    if more == [] {
      assert attrs + more == attrs;
    } else {
      var n := |more| - 1;
      assert (attrs + more)[..|attrs| + n] == attrs + more[..n];
      assert more[n] in more;
      ScanIgnores(attrs, more[..n], numTagged);
    }
  }

  lemma ScanNext(attrs: seq<Attr>, a: Attr, numTagged: nat)
    ensures ScanAll(attrs + [a], numTagged) == ScanAttr(ScanAll(attrs, numTagged), a, numTagged)
  {
  }

  lemma {:induction false} CStringDigits(s: seq<byte>)
    requires forall c :: c in s ==> IsDigit(c)
    ensures CString(s) == s
    decreases |s|
  {
    if s != [] {
      assert s[0] in s;
      CStringDigits(s[1..]);
    }
  }

  /** Text and terminator stay inside the buffer exactly for VLANs of at most four digits. */
  lemma IdStrFits(vlan: Vlan)
    ensures |Print(vlan)| + 1 <= ID_STR <==> vlan <= 9999
  {
    assert Pow10(2) == 100;
    assert Pow10(4) == 10000;
    PrintLength(vlan, 4);
  }

  lemma GroupVlanPrint(vlan: Vlan)
    ensures Print(vlan)[0] >= TAGS && GroupVlan(Print(vlan)) == vlan
  {
    var text := Print(vlan);
    AtoiPrint(vlan);
    assert Pow10(2) == 100;
    assert Pow10(4) == 10000;
    PrintLength(vlan, 5);
    CStringDigits(text);
    assert text[0] in text;
  }

  /** What radius_msg_get_vlanid reports: whether there is any VLAN. */
  predicate Found(s: Scan)
    requires |s.tun| == TAGS
  {
    Untagged(s, 0) > 0 || s.tagged != []
  }

  lemma ThreeMore(before: seq<Attr>, v: seq<Attr>)
    requires |v| == 3
    ensures before + v == before + [v[0]] + [v[1]] + [v[2]]
  {
  }

  /** The scan after one tunnel attribute of each kind. */
  lemma OneTunnel(vlan: Vlan, numTagged: nat)
    ensures var v, s := VlanAttrs(vlan), Scan(NoTunnels(), 0, []);
            var full := Tun(if vlan > 0 then 3 else 2, TYPE_VLAN, MEDIUM_802, vlan);
            ScanAttr(ScanAttr(ScanAttr(s, v[0], numTagged), v[1], numTagged), v[2], numTagged) ==
              Scan(NoTunnels()[0 := full], 0, [])
  {
    GroupVlanPrint(vlan);
    hide Print, GroupVlan, NoTunnels;
    var v, s := VlanAttrs(vlan), Scan(NoTunnels(), 0, []);
    var t1 := ScanAttr(s, v[0], numTagged);
    assert t1 == Scan(s.tun[0 := Tun(1, TYPE_VLAN, 0, 0)], 0, []);
    var t2 := ScanAttr(t1, v[1], numTagged);
    assert t2 == Scan(s.tun[0 := Tun(2, TYPE_VLAN, MEDIUM_802, 0)], 0, []);
  }

  /** Attributes of other types around the VLAN attributes do not matter. */
  lemma OnlyTunnels(before: seq<Attr>, v: seq<Attr>, after: seq<Attr>, numTagged: nat)
    requires |v| == 3 && forall a :: a in before || a in after ==> Ignored(a)
    ensures ScanAll(before + v + after, numTagged) ==
            var s := Scan(NoTunnels(), 0, []);
            ScanAttr(ScanAttr(ScanAttr(s, v[0], numTagged), v[1], numTagged), v[2], numTagged)
  {
    hide ScanAttr, NoTunnels, Ignored;
    ScanIgnores(before + v, after, numTagged);
    ScanIgnores([], before, numTagged);
    assert [] + before == before;
    ScanNext(before, v[0], numTagged);
    ScanNext(before + [v[0]], v[1], numTagged);
    ScanNext(before + [v[0]] + [v[1]], v[2], numTagged);
    ThreeMore(before, v);
  }

  /** The last number of an attribute type with a tag, or 0: four octets, of which the first is the tag. */
  function LastNumber(attrs: seq<Attr>, typ: byte, tag: nat): (r: nat)
    decreases |attrs|
  {
    if attrs == [] then 0
    else
      var a := attrs[|attrs| - 1];
      if a.typ == typ && |a.value| == 4 && TagOf(a.value) == tag then Be24(a.value, 1)
      else LastNumber(attrs[..|attrs| - 1], typ, tag)
  }

  /** The last group id with a tag that is a positive number, or 0. */
  function LastGroup(attrs: seq<Attr>, tag: nat): (r: nat)
    decreases |attrs|
  {
    if attrs == [] then 0
    else
      var a := attrs[|attrs| - 1];
      if a.typ == 81 && a.value != [] && TagOf(a.value) == tag && GroupVlan(a.value) > 0 then GroupVlan(a.value)
      else LastGroup(attrs[..|attrs| - 1], tag)
  }

  /** The VLANs of the Egress-VLANID attributes with a mark, in order (section 2.1 of RFC 4675). */
  function EgressVlans(attrs: seq<Attr>, mark: byte): (r: seq<nat>)
    decreases |attrs|
  {
    if attrs == [] then []
    else
      var a := attrs[|attrs| - 1];
      EgressVlans(attrs[..|attrs| - 1], mark) +
      if a.typ == 56 && |a.value| == 4 && a.value[0] == mark && Be24(a.value, 1) > 0 then [Be24(a.value, 1)] else []
  }

  lemma TunnelNext(s: Scan, a: Attr, numTagged: nat, tag: nat)
    requires |s.tun| == TAGS && tag < TAGS && (s.tun[tag].used == 0 ==> s.tun[tag].vlan == 0)
    ensures var v, t, was := a.value, ScanAttr(s, a, numTagged).tun[tag], s.tun[tag];
            var mine := v != [] && TagOf(v) == tag;
            && t.typ == (if mine && a.typ == 64 && |v| == 4 then Be24(v, 1) else was.typ)
            && t.medium == (if mine && a.typ == 65 && |v| == 4 then Be24(v, 1) else was.medium)
            && t.vlan == (if mine && a.typ == 81 && GroupVlan(v) > 0 then GroupVlan(v) else was.vlan)
            && (t.used == 0 ==> t.vlan == 0)
  {
    hide GroupVlan, Be24;
  }

  /** What the scan has found of a tunnel is the last of each kind with its tag. */
  lemma {:induction false} TunnelIs(attrs: seq<Attr>, numTagged: nat, tag: nat)
    requires tag < TAGS
    ensures var t := ScanAll(attrs, numTagged).tun[tag];
            && t.typ == LastNumber(attrs, 64, tag) && t.medium == LastNumber(attrs, 65, tag)
            && t.vlan == LastGroup(attrs, tag) && (t.used == 0 ==> t.vlan == 0)
    decreases |attrs|
  {
    hide GroupVlan, Be24, ScanAttr, TagOf;
    if attrs != [] {
      var init := attrs[..|attrs| - 1];
      TunnelIs(init, numTagged, tag);
      TunnelNext(ScanAll(init, numTagged), attrs[|attrs| - 1], numTagged, tag);
    }
  }

  lemma EgressNext(s: Scan, a: Attr, numTagged: nat)
    requires |s.tun| == TAGS
    ensures var v, r := a.value, ScanAttr(s, a, numTagged);
            var vlan := if a.typ == 56 && |v| == 4 then Be24(v, 1) else 0;
            && r.tagged == s.tagged + (if vlan > 0 && v[0] == 0x31 && |s.tagged| < numTagged then [vlan] else [])
            && r.untagged == if vlan > 0 && v[0] == 0x32 then vlan else s.untagged
  {
    hide GroupVlan, Be24;
    assert s.tagged + [] == s.tagged;
  }

  /** Of the VLANs with mark 0x31 it has the first there is room for, of those with mark 0x32 the last. */
  lemma {:induction false} EgressIs(attrs: seq<Attr>, numTagged: nat)
    ensures var s, marked, bare := ScanAll(attrs, numTagged), EgressVlans(attrs, 0x31), EgressVlans(attrs, 0x32);
            && s.tagged == (if |marked| <= numTagged then marked else marked[..numTagged])
            && s.untagged == if bare == [] then 0 else bare[|bare| - 1]
    decreases |attrs|
  {
    hide GroupVlan, Be24, ScanAttr;
    if attrs != [] {
      var init := attrs[..|attrs| - 1];
      EgressIs(init, numTagged);
      EgressNext(ScanAll(init, numTagged), attrs[|attrs| - 1], numTagged);
    }
  }

  /** A VLAN of a complete tunnel: last type VLAN, last medium 802, last group id positive. */
  predicate CompleteTag(attrs: seq<Attr>, tag: nat)
  {
    LastNumber(attrs, 64, tag) == 13 && LastNumber(attrs, 65, tag) == 6 && LastGroup(attrs, tag) > 0
  }

  /** The untagged VLAN is that of the lowest complete tag, and if there is none the last with mark 0x32. */
  lemma UntaggedIs(attrs: seq<Attr>, numTagged: nat, tag: nat)
    requires tag <= TAGS && (tag < TAGS ==> CompleteTag(attrs, tag))
    requires forall t :: 0 <= t < tag ==> !CompleteTag(attrs, t)
    ensures var bare := EgressVlans(attrs, 0x32);
            Untagged(ScanAll(attrs, numTagged), 0) ==
            if tag < TAGS then LastGroup(attrs, tag) else if bare == [] then 0 else bare[|bare| - 1]
  {
    hide ScanAll, LastNumber, LastGroup, EgressVlans;
    EgressIs(attrs, numTagged);
    forall t | 0 <= t < TAGS
      ensures Complete(ScanAll(attrs, numTagged).tun[t]) <==> CompleteTag(attrs, t)
      ensures ScanAll(attrs, numTagged).tun[t].vlan == LastGroup(attrs, t)
    {
      TunnelIs(attrs, numTagged, t);
    }
    LowestComplete(ScanAll(attrs, numTagged), 0, tag);
  }

  lemma {:induction false} LowestComplete(s: Scan, from: nat, tag: nat)
    requires |s.tun| == TAGS && from <= tag <= TAGS && (tag < TAGS ==> Complete(s.tun[tag]))
    requires forall t :: from <= t < tag ==> !Complete(s.tun[t])
    ensures Untagged(s, from) == if tag < TAGS then s.tun[tag].vlan else s.untagged
    decreases tag - from
  {
    if from < tag {
      LowestComplete(s, from + 1, tag);
    }
  }

  /** A tunnel under any other tag is read as well. */
  lemma TaggedRoundTrip(tag: byte, vlan: Vlan, numTagged: nat)
    requires 0 < tag < 32 && vlan > 0
    ensures var v := [Attr(64, [tag, 0, 0, 13]), Attr(65, [tag, 0, 0, 6]), Attr(81, [tag] + Print(vlan))];
            Untagged(ScanAll(v, numTagged), 0) == vlan
  {
    var a, b, c := Attr(64, [tag, 0, 0, 13]), Attr(65, [tag, 0, 0, 6]), Attr(81, [tag] + Print(vlan));
    var v := [a, b, c];
    GroupVlanPrint(vlan);
    assert c.value[1..] == Print(vlan);
    hide GroupVlan, Print;
    assert v[..2] == [a, b] && [a, b][..1] == [a] && [a][..0] == [];
    forall t | 0 <= t < TAGS ensures CompleteTag(v, t) <==> t == tag {
      assert LastNumber(v, 64, t) == LastNumber([a, b], 64, t) == LastNumber([a], 64, t);
      assert LastNumber([a], 64, t) == if t == tag then 13 else 0;
      assert LastNumber(v, 65, t) == LastNumber([a, b], 65, t);
    }
    assert LastGroup(v, tag) == vlan;
    UntaggedIs(v, numTagged, tag);
  }

  /** Among attributes of other types, the VLAN sent is the VLAN read, and it is found exactly if it is not 0. */
  lemma VlanRoundTrip(before: seq<Attr>, vlan: Vlan, after: seq<Attr>, numTagged: nat)
    requires forall a :: a in before || a in after ==> Ignored(a)
    ensures var s := ScanAll(before + VlanAttrs(vlan) + after, numTagged);
            Untagged(s, 0) == vlan && (Found(s) <==> vlan > 0)
  {
    OnlyTunnels(before, VlanAttrs(vlan), after, numTagged);
    OneTunnel(vlan, numTagged);
    hide ScanAll, ScanAttr, VlanAttrs;
    if vlan == 0 {
      UntaggedNone(ScanAll(before + VlanAttrs(vlan) + after, numTagged), 0);
    }
  }

  /** Without tunnel and egress attributes there is nothing to find. */
  lemma NoVlan(attrs: seq<Attr>, numTagged: nat)
    requires forall a :: a in attrs ==> Ignored(a)
    ensures !Found(ScanAll(attrs, numTagged))
  {
    hide Ignored;
    ScanIgnores([], attrs, numTagged);
    assert [] + attrs == attrs;
    UntaggedNone(ScanAll([], numTagged), 0);
  }

  lemma {:induction false} UntaggedNone(s: Scan, from: nat)
    requires |s.tun| == TAGS && from <= TAGS && forall i :: 0 <= i < TAGS ==> !Complete(s.tun[i])
    ensures Untagged(s, from) == s.untagged
    decreases TAGS - from
  {
    if from < TAGS {
      UntaggedNone(s, from + 1);
    }
  }

  /** The attributes radius_msg_get_tunnel_password considers. */
  predicate IsPassword(a: Attr)
  {
    a.typ == TUNNEL_PASSWORD && |a.value| > 3 && |a.value| % 16 == 3
  }

  /** The n-th of them, counted from zero. */
  function NthPassword(attrs: seq<Attr>, n: nat): (r: Option<Attr>)
    ensures r.Some? ==> IsPassword(r.value)
    decreases |attrs|
  {
    if attrs == [] then None
    else if !IsPassword(attrs[0]) then NthPassword(attrs[1..], n)
    else if n == 0 then Some(attrs[0])
    else NthPassword(attrs[1..], n - 1)
  }

  /** All attributes with a password. */
  function Passwords(attrs: seq<Attr>): (r: seq<Attr>)
    decreases |attrs|
  {
    if attrs == [] then [] else (if IsPassword(attrs[0]) then [attrs[0]] else []) + Passwords(attrs[1..])
  }

  lemma {:induction false} NthIs(attrs: seq<Attr>, n: nat)
    ensures NthPassword(attrs, n) == if n < |Passwords(attrs)| then Some(Passwords(attrs)[n]) else None
    decreases |attrs|
  {
    hide IsPassword;
    if attrs != [] {
      NthIs(attrs[1..], if IsPassword(attrs[0]) && n > 0 then n - 1 else n);
    }
  }

  /** radius_msg_get_tunnel_password */
  function Password(h: Hash, attrs: seq<Attr>, auth: seq<byte>, secret: seq<byte>, n: nat): (r: Option<seq<byte>>)
  {
    var a := NthPassword(attrs, n);
    if a.None? then None else TunnelKey(h, a.value.value, auth, secret)
  }

  /** get_password_attribute: no tag, a salt with its top bit set, the hidden passphrase. */
  function PasswordAttr(h: Hash, key: seq<byte>, salt: nat, auth: seq<byte>, secret: seq<byte>): (a: Attr)
  {
    Attr(TUNNEL_PASSWORD, [0] + Be16(salt) + EncryptKey(h, key, salt, auth, secret))
  }

  lemma {:induction false} FirstPassword(before: seq<Attr>, a: Attr, after: seq<Attr>)
    requires IsPassword(a) && forall b :: b in before ==> !IsPassword(b)
    ensures NthPassword(before + [a] + after, 0) == Some(a)
    decreases |before|
  {
    var all := before + [a] + after;
    if before != [] {
      assert before[0] in before && all[1..] == before[1..] + [a] + after;
      FirstPassword(before[1..], a, after);
    }
  }

  /** As the first Tunnel-Password, a passphrase fits one attribute and is read back exactly for 1 to 239 octets. */
  lemma PasswordRoundTrip(h: Hash, before: seq<Attr>, key: seq<byte>, salt: nat, auth: seq<byte>,
                          secret: seq<byte>, after: seq<Attr>)
    requires forall b :: b in before ==> !IsPassword(b)
    ensures var a := PasswordAttr(h, key, salt, auth, secret);
            Fits(a) && Password(h, before + [a] + after, auth, secret, 0) == Some(key) <==> 1 <= |key| <= 239
  {
    hide PaddedBlocks, Be16, EncryptKey, Hide, DecryptKey, TunnelKey;
    var a := PasswordAttr(h, key, salt, auth, secret);
    var cipher := EncryptKey(h, key, salt, auth, secret);
    EncryptedLength(h, key, salt, auth, secret);
    FirstPassword(before, a, after);
    TunnelKeyIsDecryptKey(h, a.value, auth, secret);
    assert a.value[1..] == Be16(salt) + cipher;
    DecryptEncrypt(h, key, salt, auth, secret);
  }

  lemma EncryptedLength(h: Hash, key: seq<byte>, salt: nat, auth: seq<byte>, secret: seq<byte>)
    ensures |EncryptKey(h, key, salt, auth, secret)| == 16 * PaddedBlocks(|key|)
    ensures |key| <= 255 ==> (PaddedBlocks(|key|) <= 15 <==> |key| <= 239)
  {
  }
}
