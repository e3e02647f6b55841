/** Interfaces by subnet (iface_mapper.c) and the address-level firewall commands (firewall_service.c). */
module Firewall {
  import opened Bytes
  import opened Bits
  import opened Options
  import opened Iptables

  const NO_ADDRESS: Ip := 0xffff_ffff

  /** config_ifinfo_t */
  datatype IfInfo = IfInfo(vlanid: int, ifname: string, ip: Ip, mask: Ip)

  predicate SameSubnet(p: IfInfo, ip: Ip) { AndBits(p.ip, p.mask) == AndBits(ip, p.mask) }

  /** The address is in the subnet of the interface exactly if it agrees with the interface in every bit of the mask. */
  lemma SubnetIff(p: IfInfo, ip: Ip)
    ensures SameSubnet(p, ip) <==> Agree(p.ip, ip, p.mask)
  {
    MaskedEqualIff(p.ip, ip, p.mask);
  }

  /** With a prefix mask of k host bits, exactly if it agrees in the network part. */
  lemma PrefixSubnet(p: IfInfo, ip: Ip, k: nat)
    requires k <= 32 && p.mask == Pow2(32) - Pow2(k)
    ensures SameSubnet(p, ip) <==> p.ip / Pow2(k) == ip / Pow2(k)
  {
    hide Pow2, AndBits;
    AddressRange();
    PrefixEqualIff(p.ip, ip, 32, k);
    ShiftedIs(p.ip, k);
    ShiftedIs(ip, k);
  }

  lemma AddressRange()
    ensures Pow2(32) == 0x1_0000_0000
  {
    assert Pow2(8) == 0x100;
    assert Pow2(16) == 0x1_0000;
    assert Pow2(24) == 0x100_0000;
  }

  /** inet_network cannot tell 255.255.255.255 from a failure. */
  predicate Unreadable(p: IfInfo, ip: Ip) { p.mask == NO_ADDRESS || p.ip == NO_ADDRESS || ip == NO_ADDRESS }

  /** find_ifinfo: the first interface whose subnet holds the address, unless an earlier entry is unreadable. */
  function FindIfinfo(infos: seq<IfInfo>, ip: Ip): (r: Option<IfInfo>)
    ensures r.Some? ==> r.value in infos && SameSubnet(r.value, ip)
    decreases |infos|
  {
    if infos == [] || Unreadable(infos[0], ip) then None
    else if SameSubnet(infos[0], ip) then Some(infos[0])
    else FindIfinfo(infos[1..], ip)
  }

  /** The entry at k is the first whose subnet holds the address, and all up to it are readable. */
  predicate First(infos: seq<IfInfo>, ip: Ip, k: nat)
  {
    && k < |infos| && SameSubnet(infos[k], ip)
    && (forall j :: 0 <= j <= k ==> !Unreadable(infos[j], ip))
    && (forall j :: 0 <= j < k ==> !SameSubnet(infos[j], ip))
  }

  lemma {:induction false} FirstIsFound(infos: seq<IfInfo>, ip: Ip, k: nat)
    requires First(infos, ip, k)
    ensures FindIfinfo(infos, ip) == Some(infos[k])
    decreases k
  {
    hide SameSubnet, Unreadable;
    assert !Unreadable(infos[0], ip);
    if k > 0 {
      assert forall j :: 0 <= j < k ==> infos[1..][j] == infos[j + 1];
      FirstIsFound(infos[1..], ip, k - 1);
    }
  }

  lemma {:induction false} FoundIsFirst(infos: seq<IfInfo>, ip: Ip) returns (k: nat)
    requires FindIfinfo(infos, ip).Some?
    ensures First(infos, ip, k) && infos[k] == FindIfinfo(infos, ip).value
    decreases |infos|
  {
    hide SameSubnet, Unreadable;
    k := 0;
    if !SameSubnet(infos[0], ip) {
      var i := FoundIsFirst(infos[1..], ip);
      k := i + 1;
      assert forall j :: 0 < j <= k ==> infos[j] == infos[1..][j - 1];
    }
  }

  /** find_ifinfo succeeds exactly if there is such an entry, and gives it. */
  lemma FindIfinfoIff(infos: seq<IfInfo>, ip: Ip, p: IfInfo)
    ensures FindIfinfo(infos, ip) == Some(p) <==> exists k: nat :: First(infos, ip, k) && infos[k] == p
  {
    hide FindIfinfo;
    if FindIfinfo(infos, ip) == Some(p) {
      var k := FoundIsFirst(infos, ip);
    }
    if k: nat :| First(infos, ip, k) && infos[k] == p {
      FirstIsFound(infos, ip, k);
    }
  }

  /** get_ifname_from_ip */
  method GetIfname(infos: seq<IfInfo>, ip: Ip) returns (r: Option<string>)
    ensures r == IfnameOf(infos, ip)
  {
    hide SameSubnet, Unreadable;
    var i := 0;
    while i < |infos|
      invariant 0 <= i <= |infos| && FindIfinfo(infos, ip) == FindIfinfo(infos[i..], ip)
    {
      if Unreadable(infos[i], ip) {
        return None;
      }
      if SameSubnet(infos[i], ip) {
        return Some(infos[i].ifname);
      }
      i := i + 1;
    }
    r := None;
  }

  function IfnameOf(infos: seq<IfInfo>, ip: Ip): (r: Option<string>)
  {
    var p := FindIfinfo(infos, ip);
    if p.None? then None else Some(p.value.ifname)
  }

  /** An address on the interface of its subnet. */
  function EndOf(infos: seq<IfInfo>, ip: Ip): (r: End)
    ensures r.ip == ip
  {
    var name := IfnameOf(infos, ip);
    End(ip, if name.None? then "" else name.value)
  }

  ghost function EndPairs(infos: seq<IfInfo>, pairs: set<(Ip, Ip)>): (r: set<(End, End)>)
  {
    set p | p in pairs :: (EndOf(infos, p.0), EndOf(infos, p.1))
  }

  ghost function Ends(infos: seq<IfInfo>, ips: set<Ip>): (r: set<End>) { set ip | ip in ips :: EndOf(infos, ip) }

  lemma EndPairsStep(infos: seq<IfInfo>, pairs: set<(Ip, Ip)>, l: Ip, r: Ip)
    ensures var more := {(l, r), (r, l)};
            var ends := {(EndOf(infos, l), EndOf(infos, r)), (EndOf(infos, r), EndOf(infos, l))};
            && EndPairs(infos, pairs + more) == EndPairs(infos, pairs) + ends
            && EndPairs(infos, pairs - more) == EndPairs(infos, pairs) - ends
  {
  }

  function Names(infos: seq<IfInfo>): (r: seq<string>)
    ensures |r| == |infos| && forall i :: 0 <= i < |infos| ==> r[i] == infos[i].ifname
  {
    seq(|infos|, i requires 0 <= i < |infos| => infos[i].ifname)
  }

  lemma NamesAre(infos: seq<IfInfo>)
    ensures (set n | n in Names(infos)) == set p | p in infos :: p.ifname
  {
    forall p | p in infos ensures p.ifname in Names(infos) {
      var i :| 0 <= i < |infos| && infos[i] == p;
      assert Names(infos)[i] == p.ifname;
    }
  }

  /** struct fwctx: which address pairs are bridged and which addresses are natted. */
  class Service {
    const ctx: Context
    const infos: seq<IfInfo>
    ghost var linked: set<(Ip, Ip)>
    ghost var natted: set<Ip>

    ghost predicate Valid()
      reads this, ctx
    {
      && ctx.Valid()
      && ctx.bridges == EndPairs(infos, linked) && ctx.nats == Ends(infos, natted) && ctx.masked == natted
    }

    constructor (infos: seq<IfInfo>, nif: string)
      requires forall i, j :: 0 <= i < j < |infos| ==> infos[i].ifname != infos[j].ifname
      ensures Valid() && fresh(ctx) && linked == {} && natted == {} && this.infos == infos
      ensures ctx.nif == nif && ctx.Ifs() == set p | p in infos :: p.ifname
    {
      hide Context.Valid, Names;
      this.infos := infos;
      NamesAre(infos);
      ctx := new Context(Names(infos), nif);
      linked, natted := {}, {};
    }

    /** fw_add_bridge */
    method AddBridge(l: Ip, r: Ip) returns (res: int)
      requires Valid()
      modifies this`linked, ctx
      ensures Valid() && natted == old(natted)
      ensures res == 0 <==> IfnameOf(infos, l).Some? && IfnameOf(infos, r).Some?
      ensures linked == if res == 0 then old(linked) + {(l, r), (r, l)} else old(linked)
    {
      hide EndPairs, Ends, Enforces;
      var a := GetIfname(infos, l);
      if a.None? {
        return -1;
      }
      var b := GetIfname(infos, r);
      if b.None? {
        return -1;
      }
      EndPairsStep(infos, linked, l, r);
      ctx.AddBridge(End(l, a.value), End(r, b.value));
      linked := linked + {(l, r), (r, l)};
      res := 0;
    }

    /** fw_remove_bridge */
    method RemoveBridge(l: Ip, r: Ip) returns (res: int)
      requires Valid()
      modifies this`linked, ctx
      ensures Valid() && natted == old(natted)
      ensures res == 0 <==> IfnameOf(infos, l).Some? && IfnameOf(infos, r).Some?
      ensures linked == if res == 0 then old(linked) - {(l, r), (r, l)} else old(linked)
    {
      hide EndPairs, Ends, Enforces;
      var a := GetIfname(infos, l);
      if a.None? {
        return -1;
      }
      var b := GetIfname(infos, r);
      if b.None? {
        return -1;
      }
      EndPairsStep(infos, linked, l, r);
      ctx.DeleteBridge(End(l, a.value), End(r, b.value));
      linked := linked - {(l, r), (r, l)};
      res := 0;
    }

    /** fw_add_nat */
    method AddNat(ip: Ip) returns (res: int)
      requires Valid()
      modifies this`natted, ctx
      ensures Valid() && linked == old(linked)
      ensures res == 0 <==> IfnameOf(infos, ip).Some?
      ensures natted == if res == 0 then old(natted) + {ip} else old(natted)
    {
      hide EndPairs, Enforces;
      var a := GetIfname(infos, ip);
      if a.None? {
        return -1;
      }
      ctx.AddNat(End(ip, a.value));
      natted := natted + {ip};
      res := 0;
    }

    /** fw_remove_nat */
    method RemoveNat(ip: Ip) returns (res: int)
      requires Valid()
      modifies this`natted, ctx
      ensures Valid() && linked == old(linked)
      ensures res == 0 <==> IfnameOf(infos, ip).Some?
      ensures natted == if res == 0 then old(natted) - {ip} else old(natted)
    {
      hide EndPairs, Enforces;
      var a := GetIfname(infos, ip);
      if a.None? {
        return -1;
      }
      ctx.DeleteNat(End(ip, a.value));
      natted := natted - {ip};
      res := 0;
    }
  }
}
