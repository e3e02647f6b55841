/** The supervisor commands over the MAC table, the bridge list and the firewall (network_commands.c,
    system_commands.c, supervisor.c): each refines its step of the state machine, and the firewall follows. */
module Supervisor {
  import opened Bytes
  import opened Options
  import opened Iptables
  import opened Firewall
  import opened BridgeList
  import opened Policy
  import opened Commands

  function Some1(o: Option<Ip>): (r: set<Ip>) { if o.Some? then {o.value} else {} }

  lemma CrossUnion(a: set<Ip>, b: set<Ip>, x: set<Ip>)
    ensures Cross(a + b, x) == Cross(a, x) + Cross(b, x)
    ensures Cross(x, a + b) == Cross(x, a) + Cross(x, b)
  {
  }

  lemma CrossPair(x: Option<Ip>, y: Option<Ip>)
    ensures Cross(Some1(x), Some1(y)) == if x.Some? && y.Some? then {(x.value, y.value), (y.value, x.value)} else {}
  {
  }

  ghost function HeldBy(macs: Table, ns: seq<Mac>): (r: set<Ip>)
  {
    set n, y | n in ns && y in Held(macs, n) :: y
  }

  lemma HeldByNext(macs: Table, ns: seq<Mac>, k: nat)
    requires k < |ns|
    ensures HeldBy(macs, ns[..k + 1]) == HeldBy(macs, ns[..k]) + Held(macs, ns[k])
  {
  }

  lemma HeldByReach(macs: Table, edges: set<Edge>, m: Mac, ns: seq<Mac>)
    requires forall n :: n in ns <==> (m, n) in edges
    ensures HeldBy(macs, ns) == Reach(macs, edges, m)
  {
  }

  /** Commands that touch neither addresses, the NAT flag nor the edges leave the policy as it is. */
  lemma PolicyKept(c: Conf, s: State, k: Command)
    requires Sound(c, s)
    requires k.AcceptMac? || k.DenyMac? || k.AssignPsk? || k.ClearPsk? || k.Connect? || k.ApStatus?
    ensures var t := Next(c, s, k);
            Linked(t.macs, t.edges) == Linked(s.macs, s.edges) && Natted(t.macs) == Natted(s.macs)
  {
    hide Held, Addresses, Leased, Linked, Natted, Allocated;
    var t, m := Next(c, s, k), k.mac;
    if m in t.macs {
      EntryKept(c, s, k);
      Paired(c, s.macs, m, c.openVlan);
      SameAddresses(s.macs, c.infos, s.edges, m, t.macs[m]);
      NattedUpdate(s.macs, c.infos, m, t.macs[m]);
      NattedOf(s.macs, c.infos, m);
      NoneHeld(s.macs, m);
    }
  }

  /** What one MAC holds is natted entirely or not at all. */
  lemma NattedOf(macs: Table, infos: seq<IfInfo>, m: Mac)
    requires Leased(macs, infos)
    ensures m in macs && macs[m].natFlag ==> Held(macs, m) <= Natted(macs)
    ensures m in macs && !macs[m].natFlag ==> Held(macs, m) !! Natted(macs)
  {
  }

  lemma FlagPolicy(c: Conf, s: State, m: Mac, on: bool)
    requires Sound(c, s)
    ensures var i := Entry(c, s.macs, m, c.openVlan).(natFlag := on);
            && Linked(s.macs[m := i], s.edges) == Linked(s.macs, s.edges)
            && Natted(s.macs[m := i]) ==
               if on then Natted(s.macs) + Held(s.macs, m) else Natted(s.macs) - Held(s.macs, m)
  {
    hide Held, Leased, Linked, Natted, Allocated;
    var i := Entry(c, s.macs, m, c.openVlan).(natFlag := on);
    Paired(c, s.macs, m, c.openVlan);
    SameAddresses(s.macs, c.infos, s.edges, m, i);
    NattedUpdate(s.macs, c.infos, m, i);
  }

  /** What a lawful SET_IP does to the policy. */
  lemma SetIpPolicy(c: Conf, s: State, m: Mac, ip: Ip, typ: IpType)
    requires Sound(c, s) && Lawful(s, Command.SetIp(m, ip, typ)) && AddressEntry(c, s.macs, m, ip, typ).Some?
    ensures var i := AddressEntry(c, s.macs, m, ip, typ).value;
            var links, nats := Linked(s.macs, s.edges), Natted(s.macs);
            var around := Cross({ip}, Reach(s.macs, s.edges, m));
            && Reach(s.macs[m := i], s.edges, m) == Reach(s.macs, s.edges, m)
            && Linked(s.macs[m := i], s.edges) == (if typ.DelIp? then links - around else links + around)
            && Natted(s.macs[m := i]) == if !i.natFlag then nats else if typ.DelIp? then nats - {ip} else nats + {ip}
  {
    hide Held, Addresses, Leased, Linked, Natted, Allocated, Proper, AddressEntry, Cross, Reach, IfnameOf;
    var i := AddressEntry(c, s.macs, m, ip, typ).value;
    AddressEntryHolds(c, s.macs, m, ip, typ);
    SameReach(s.macs, s.edges, m, i);
    NattedUpdate(s.macs, c.infos, m, i);
    NattedOf(s.macs, c.infos, m);
    NoneHeld(s.macs, m);
    if typ.DelIp? {
      DropAddress(s.macs, s.edges, m, i, ip);
      NotNatted(s.macs, m, ip);
    } else {
      TakeAddress(s.macs, s.edges, m, i, ip);
    }
  }

  lemma NoneHeld(macs: Table, m: Mac)
    ensures m !in macs ==> Held(macs, m) == {}
  {
  }

  lemma NotNatted(macs: Table, m: Mac, ip: Ip)
    requires forall n :: n != m ==> ip !in Held(macs, n)
    ensures ip in Natted(macs) ==> ip in Held(macs, m)
  {
    hide Addresses;
    if ip in Natted(macs) {
      var n :| n in macs && macs[n].natFlag && ip in Addresses(macs[n]);
      assert ip in Held(macs, n);
    }
  }

  lemma AddressesAre(i: Info)
    ensures Addresses(i) == Some1(i.ip) + Some1(i.sec)
  {
  }

  lemma OnInterface(macs: Table, infos: seq<IfInfo>, m: Mac, i: Info)
    requires Leased(macs, infos) && Addresses(i) == Held(macs, m)
    ensures Held(macs, m) == Some1(i.ip) + Some1(i.sec)
    ensures forall x :: x in Some1(i.ip) + Some1(i.sec) ==> IfnameOf(infos, x).Some?
  {
  }

  lemma BothHeld(macs: Table, infos: seq<IfInfo>, l: Mac, r: Mac)
    requires Leased(macs, infos)
    ensures l in macs && r in macs ==> Held(macs, l) == Addresses(macs[l]) && Held(macs, r) == Addresses(macs[r])
    ensures forall x :: x in Held(macs, l) + Held(macs, r) ==> IfnameOf(infos, x).Some?
    ensures l !in macs || r !in macs ==> Cross(Held(macs, l), Held(macs, r)) == {}
  {
  }

  lemma HeldByNone(macs: Table, ns: seq<Mac>, ip: Ip)
    ensures HeldBy(macs, ns[..0]) == {} && Cross({ip}, {}) == {}
    ensures forall n :: n !in macs ==> Held(macs, n) == {}
  {
  }

  lemma HeldByPart(macs: Table, ns: seq<Mac>, k: nat)
    requires k < |ns|
    ensures Held(macs, ns[k]) <= HeldBy(macs, ns)
  {
  }

  lemma NoEntry(c: Conf, s: State, m: Mac, ip: Ip, typ: IpType)
    ensures IfnameOf(c.infos, ip).None? ==> AddressEntry(c, s.macs, m, ip, typ).None?
  {
  }

  /** The addresses in reach of a MAC are on configured interfaces. */
  lemma InReach(c: Conf, s: State, m: Mac, after: Table)
    requires Sound(c, s) && Reach(after, s.edges, m) == Reach(s.macs, s.edges, m)
    ensures forall x :: x in Reach(after, s.edges, m) ==> IfnameOf(c.infos, x).Some?
  {
  }

  lemma OneHolder(c: Conf, macs: Table, ip: Ip, m: Mac)
    requires Leased(macs, c.infos) && ip in Held(macs, m)
    ensures HolderOf(macs, ip) == Some(m)
  {
  }

  /** The edges left when those between m and the given MACs are gone. */
  ghost function Cleared(edges: set<Edge>, m: Mac, gone: set<Mac>): (r: set<Edge>)
  {
    set e | e in edges && !(e.0 == m && e.1 in gone) && !(e.1 == m && e.0 in gone)
  }

  lemma ClearedNext(c: Conf, s: State, m: Mac, gone: set<Mac>, n: Mac)
    ensures Next(c, s.(edges := Cleared(s.edges, m, gone)), Command.RemoveBridge(m, n))
         == s.(edges := Cleared(s.edges, m, gone + {n}))
  {
  }

  lemma ClearedAll(c: Conf, s: State, m: Mac)
    ensures s == s.(edges := Cleared(s.edges, m, {}))
    ensures Next(c, s, Command.ClearBridges(m)) == s.(edges := Cleared(s.edges, m, s.macs.Keys))
  {
  }

  lemma EdgeThere(edges: set<Edge>, l: Mac, r: Mac)
    requires Proper(edges) && (l, r) in edges
    ensures l != r && edges == edges + {(l, r), (r, l)}
  {
  }

  /** Whether a MAC of the table holds this address, on this interface. */
  ghost predicate Owns(c: Conf, s: State, m: Mac, ip: Ip, ifname: string)
  {
    m in s.macs && ip in Held(s.macs, m) && IfnameOf(c.infos, ip) == Some(ifname)
  }

  /** The policy the tables stand for: between bridged MACs, and between MACs with the NAT flag and the NAT
      interface. */
  ghost predicate MayPass(c: Conf, s: State, nif: string, p: Packet)
  {
    || (exists e :: e in s.edges && Owns(c, s, e.0, p.src, p.inIf) && Owns(c, s, e.1, p.dst, p.outIf))
    || (exists m :: Owns(c, s, m, p.src, p.inIf) && s.macs[m].natFlag && p.outIf == nif)
    || (exists m :: Owns(c, s, m, p.dst, p.outIf) && s.macs[m].natFlag && p.inIf == nif)
  }

  lemma EndsIff(c: Conf, s: State, ip: Ip, name: string)
    requires Sound(c, s)
    ensures End(ip, name) in Ends(c.infos, Natted(s.macs)) <==> exists m :: Owns(c, s, m, ip, name) && s.macs[m].natFlag
  {
    hide IfnameOf, Proper;
    if End(ip, name) in Ends(c.infos, Natted(s.macs)) {
      var m :| m in s.macs && s.macs[m].natFlag && ip in Addresses(s.macs[m]);
    }
    if m :| Owns(c, s, m, ip, name) && s.macs[m].natFlag {
      assert ip in Natted(s.macs);
    }
  }

  lemma PairsIff(c: Conf, s: State, p: Packet)
    requires Sound(c, s)
    ensures (End(p.src, p.inIf), End(p.dst, p.outIf)) in EndPairs(c.infos, Linked(s.macs, s.edges))
       <==> exists e :: e in s.edges && Owns(c, s, e.0, p.src, p.inIf) && Owns(c, s, e.1, p.dst, p.outIf)
  {
    hide IfnameOf, Addresses;
    var a, b := End(p.src, p.inIf), End(p.dst, p.outIf);
    if (a, b) in EndPairs(c.infos, Linked(s.macs, s.edges)) {
      var e :| e in s.edges && p.src in Held(s.macs, e.0) && p.dst in Held(s.macs, e.1);
      assert Owns(c, s, e.0, p.src, p.inIf) && Owns(c, s, e.1, p.dst, p.outIf);
    }
    if e :| e in s.edges && Owns(c, s, e.0, p.src, p.inIf) && Owns(c, s, e.1, p.dst, p.outIf) {
      assert (p.src, p.dst) in Linked(s.macs, s.edges);
    }
  }

  lemma AllowsIff(c: Conf, s: State, nif: string, p: Packet)
    requires Sound(c, s)
    ensures Allows(EndPairs(c.infos, Linked(s.macs, s.edges)), Ends(c.infos, Natted(s.macs)), nif, p) <==>
            MayPass(c, s, nif, p)
  {
    hide Sound, Owns, EndPairs, Ends, Linked, Natted;
    PairsIff(c, s, p);
    EndsIff(c, s, p.src, p.inIf);
    EndsIff(c, s, p.dst, p.outIf);
  }

  class Supervisor {
    const c: Conf
    const fw: Service
    const list: List
    var macs: Table
    var ticket: Option<Ticket>
    ghost var issued: nat
    ghost var handed: seq<(int, Mac)>

    ghost function Tables(): (s: State)
      reads this, list
    {
      State(macs, list.Edges(), ticket, issued, handed)
    }

    /** The firewall carries exactly the policy of the tables. */
    ghost predicate InStep()
      reads this, list, fw, fw.ctx
    {
      fw.Valid() && fw.linked == Linked(macs, list.Edges()) && fw.natted == Natted(macs)
    }

    ghost predicate Valid()
      reads this, list, fw, fw.ctx
    {
      fw.infos == c.infos && list.Valid() && Sound(c, Tables()) && OneEach(Tables()) && InStep()
    }

    constructor (c: Conf, nif: string)
      requires forall i, j :: 0 <= i < j < |c.infos| ==> c.infos[i].ifname != c.infos[j].ifname
      ensures Valid() && fresh(fw) && fresh(fw.ctx) && fresh(list)
      ensures this.c == c && fw.ctx.nif == nif && Tables() == State(map[], {}, None, 0, [])
    {
      this.c := c;
      fw := new Service(c.infos, nif);
      list := new List();
      macs, ticket, issued, handed := map[], None, 0, [];
    }

    /** add_nat_ip */
    method AddNatIp(ip: Option<Ip>) returns (res: int)
      requires fw.Valid() && forall x :: x in Some1(ip) ==> IfnameOf(fw.infos, x).Some?
      modifies fw`natted, fw.ctx
      ensures res == 0 && fw.Valid() && fw.linked == old(fw.linked) && fw.natted == old(fw.natted) + Some1(ip)
    {
      res := 0;
      if ip.Some? {
        res := fw.AddNat(ip.value);
      }
    }

    /** remove_nat_ip */
    method RemoveNatIp(ip: Option<Ip>) returns (res: int)
      requires fw.Valid() && forall x :: x in Some1(ip) ==> IfnameOf(fw.infos, x).Some?
      modifies fw`natted, fw.ctx
      ensures res == 0 && fw.Valid() && fw.linked == old(fw.linked) && fw.natted == old(fw.natted) - Some1(ip)
    {
      res := 0;
      if ip.Some? {
        res := fw.RemoveNat(ip.value);
      }
    }

    /** add_bridge_ip */
    method AddBridgeIps(x: Option<Ip>, y: Option<Ip>) returns (res: int)
      requires fw.Valid()
      requires forall z :: z in Some1(x) + Some1(y) ==> IfnameOf(fw.infos, z).Some?
      modifies fw`linked, fw.ctx
      ensures res == 0 && fw.Valid() && fw.natted == old(fw.natted)
      ensures fw.linked == old(fw.linked) + Cross(Some1(x), Some1(y))
    {
      CrossPair(x, y);
      hide Cross, Service.Valid;
      res := 0;
      if x.Some? && y.Some? {
        res := fw.AddBridge(x.value, y.value);
      }
    }

    /** delete_bridge_ip */
    method DeleteBridgeIps(x: Option<Ip>, y: Option<Ip>) returns (res: int)
      requires fw.Valid()
      requires forall z :: z in Some1(x) + Some1(y) ==> IfnameOf(fw.infos, z).Some?
      modifies fw`linked, fw.ctx
      ensures res == 0 && fw.Valid() && fw.natted == old(fw.natted)
      ensures fw.linked == old(fw.linked) - Cross(Some1(x), Some1(y))
    {
      CrossPair(x, y);
      hide Cross, Service.Valid;
      res := 0;
      if x.Some? && y.Some? {
        res := fw.RemoveBridge(x.value, y.value);
      }
    }

    /** accept_mac_cmd */
    method AcceptMac(m: Mac, vlan: int) returns (res: int)
      requires Valid()
      modifies this
      ensures Valid() && Tables() == Next(c, old(Tables()), Command.AcceptMac(m, vlan))
      ensures res == if vlan in c.vlans then 0 else -1
    {
      hide Linked, Natted, Leased, Proper, Allocated, OneEach, Held, Addresses, Service.Valid;
      ghost var s := Tables();
      NextSound(c, s, Command.AcceptMac(m, vlan));
      NextOneEach(c, s, Command.AcceptMac(m, vlan));
      PolicyKept(c, s, Command.AcceptMac(m, vlan));
      var i := Entry(c, macs, m, c.openVlan);
      if vlan !in c.vlans {
        return -1;
      }
      macs := macs[m := i.(allow := true, vlan := vlan, ifname := c.vlans[vlan])];
      res := 0;
    }

    /** deny_mac_cmd */
    method DenyMac(m: Mac) returns (res: int)
      requires Valid()
      modifies this
      ensures Valid() && Tables() == Next(c, old(Tables()), Command.DenyMac(m))
      ensures res == 0
    {
      hide Linked, Natted, Leased, Proper, Allocated, OneEach, Held, Addresses, Service.Valid;
      ghost var s := Tables();
      NextSound(c, s, Command.DenyMac(m));
      NextOneEach(c, s, Command.DenyMac(m));
      PolicyKept(c, s, Command.DenyMac(m));
      var i := Entry(c, macs, m, c.openVlan);
      macs := macs[m := i.(allow := false)];
      res := 0;
    }

    /** assign_psk_cmd */
    method AssignPsk(m: Mac, pass: seq<byte>) returns (res: int)
      requires Valid()
      modifies this
      ensures Valid() && Tables() == Next(c, old(Tables()), Command.AssignPsk(m, pass))
      ensures res == 0
    {
      hide Linked, Natted, Leased, Proper, Allocated, OneEach, Held, Addresses, Service.Valid;
      ghost var s := Tables();
      NextSound(c, s, Command.AssignPsk(m, pass));
      NextOneEach(c, s, Command.AssignPsk(m, pass));
      PolicyKept(c, s, Command.AssignPsk(m, pass));
      var i := Entry(c, macs, m, c.openVlan);
      macs := macs[m := i.(pass := pass)];
      res := 0;
    }

    /** clear_psk_cmd */
    method ClearPsk(m: Mac) returns (res: int)
      requires Valid()
      modifies this
      ensures Valid() && Tables() == Next(c, old(Tables()), Command.ClearPsk(m))
      ensures res == 0
    {
      hide Linked, Natted, Leased, Proper, Allocated, OneEach, Held, Addresses, Service.Valid;
      ghost var s := Tables();
      NextSound(c, s, Command.ClearPsk(m));
      NextOneEach(c, s, Command.ClearPsk(m));
      PolicyKept(c, s, Command.ClearPsk(m));
      var i := Entry(c, macs, m, c.openVlan);
      macs := macs[m := i.(pass := [])];
      res := 0;
    }

    /** ap_service_callback */
    method ApStatus(m: Mac, status: int)
      requires Valid()
      modifies this
      ensures Valid() && Tables() == Next(c, old(Tables()), Command.ApStatus(m, status))
    {
      hide Linked, Natted, Leased, Proper, Allocated, OneEach, Held, Addresses, Service.Valid;
      ghost var s := Tables();
      NextSound(c, s, Command.ApStatus(m, status));
      NextOneEach(c, s, Command.ApStatus(m, status));
      PolicyKept(c, s, Command.ApStatus(m, status));
      if m in macs {
        macs := macs[m := macs[m].(status := status)];
      }
    }

    /** save_device_vlan: with capture on, the VLAN needs an interface. */
    method SaveDevice(m: Mac, info: Info, now: int) returns (res: int, saved: Info)
      modifies this`macs
      ensures res == if c.capture && info.vlan !in c.vlans then -1 else 0
      ensures res == 0 ==> macs == old(macs)[m := saved] && saved == info.(stamp := now)
      ensures res != 0 ==> macs == old(macs) && saved == info
    {
      saved := info;
      if c.capture && info.vlan !in c.vlans {
        return -1, saved;
      }
      saved := saved.(stamp := now);
      macs := macs[m := saved];
      res := 0;
    }

    /** get_mac_conn_cmd */
    method GetMacConn(m: Mac, now: int) returns (info: Info)
      requires Valid()
      modifies this
      ensures Valid() && (Tables(), info) == Admission(c, old(Tables()), m, now)
    {
      hide Linked, Natted, Leased, Proper, Allocated, OneEach, Held, Addresses, Service.Valid;
      ghost var s := Tables();
      NextSound(c, s, Command.Connect(m, now));
      NextOneEach(c, s, Command.Connect(m, now));
      PolicyKept(c, s, Command.Connect(m, now));
      info := Connect(m, now);
    }

    /** The branches of get_mac_conn_cmd. */
    method Connect(m: Mac, now: int) returns (info: Info)
      modifies this
      ensures (Tables(), info) == Admission(c, old(Tables()), m, now)
    {
      hide Allocated;
      var vlan := Allocate(m);
      info := Entry(c, macs, m, vlan);
      var known := m in macs;
      var res := -1;
      if c.openAll && (!known || info.allow) {
        if !known {
          info := info.(allow := true, vlan := vlan, pass := c.pass);
        } else if info.pass == [] {
          info := info.(pass := c.pass);
        }
        res, info := SaveDevice(m, info, now);
      } else if !c.openAll && known && info.allow && info.pass != [] {
        res, info := SaveDevice(m, info, now);
      } else if !c.openAll && (!known || (info.allow && info.pass == [])) {
        info := info.(allow := true);
        if ticket.Some? {
          info := info.(vlan := ticket.value.vlan, pass := ticket.value.pass, deviceLabel := ticket.value.deviceLabel);
          handed := handed + [(issued - 1, m)];
          ticket := None;
        } else {
          info := info.(vlan := vlan, pass := c.pass);
        }
        res, info := SaveDevice(m, info, now);
      }
      if res < 0 {
        info := info.(vlan := -1);
      }
    }

    /** allocate_vlan */
    method Allocate(m: Mac) returns (vlan: int)
      ensures vlan == Allocated(c, m)
    {
      if !c.allocate || |c.infos| <= 1 {
        return c.openVlan;
      }
      var hash := SdbmHash(MacBytes(m));
      vlan := c.infos[hash % |c.infos|].vlanid;
    }

    /** register_ticket_cmd: no ticket while another is out. */
    method RegisterTicket(deviceLabel: string, vlan: int, pass: seq<byte>) returns (r: Option<seq<byte>>)
      requires Valid()
      modifies this`ticket, this`issued
      ensures Valid() && Tables() == Next(c, old(Tables()), Command.RegisterTicket(deviceLabel, vlan, pass))
      ensures r == if old(ticket).Some? then None else Some(pass)
    {
      hide Linked, Natted, Leased, Proper, Held, Addresses, Service.Valid;
      if ticket.Some? {
        return None;
      }
      ticket, issued := Some(Ticket(vlan, pass, deviceLabel)), issued + 1;
      r := Some(pass);
    }

    /** eloop_ticket_timeout_handler */
    method TicketTimeout()
      requires Valid()
      modifies this`ticket
      ensures Valid() && Tables() == Next(c, old(Tables()), Command.TicketTimeout)
    {
      hide Linked, Natted, Leased, Proper, Held, Addresses, Service.Valid;
      ticket := None;
    }

    /** add_nat_cmd */
    method AddNat(m: Mac) returns (res: int)
      requires Valid()
      modifies this`macs, fw, fw.ctx
      ensures Valid() && res == 0 && Tables() == Next(c, old(Tables()), Command.AddNat(m))
    {
      hide Linked, Natted, Leased, Proper, OneEach, Held, Addresses, Reach, Cross, Service.Valid;
      ghost var s := Tables();
      NextSound(c, s, Command.AddNat(m));
      NextOneEach(c, s, Command.AddNat(m));
      FlagPolicy(c, s, m, true);
      var i := Entry(c, macs, m, c.openVlan).(natFlag := true);
      OnInterface(macs, c.infos, m, Entry(c, macs, m, c.openVlan));
      res := AddNatIp(i.ip);
      if res < 0 {
        return -1;
      }
      res := AddNatIp(i.sec);
      if res < 0 {
        return -1;
      }
      macs := macs[m := i];
      res := 0;
    }

    /** remove_nat_cmd */
    method RemoveNat(m: Mac) returns (res: int)
      requires Valid()
      modifies this`macs, fw, fw.ctx
      ensures Valid() && res == 0 && Tables() == Next(c, old(Tables()), Command.RemoveNat(m))
    {
      hide Linked, Natted, Leased, Proper, OneEach, Held, Addresses, Reach, Cross, Service.Valid;
      ghost var s := Tables();
      NextSound(c, s, Command.RemoveNat(m));
      NextOneEach(c, s, Command.RemoveNat(m));
      FlagPolicy(c, s, m, false);
      var i := Entry(c, macs, m, c.openVlan).(natFlag := false);
      OnInterface(macs, c.infos, m, Entry(c, macs, m, c.openVlan));
      res := RemoveNatIp(i.ip);
      if res < 0 {
        return -1;
      }
      res := RemoveNatIp(i.sec);
      if res < 0 {
        return -1;
      }
      macs := macs[m := i];
      res := 0;
    }

    /** The add_bridge_ip calls between an address and an entry. */
    method LinkOne(x: Option<Ip>, r: Info) returns (res: int)
      requires fw.Valid()
      requires forall z :: z in Some1(x) + Addresses(r) ==> IfnameOf(fw.infos, z).Some?
      modifies fw`linked, fw.ctx
      ensures res == 0 && fw.Valid() && fw.natted == old(fw.natted)
      ensures fw.linked == old(fw.linked) + Cross(Some1(x), Addresses(r))
    {
      hide Cross, IfnameOf, Some1, Service.Valid;
      AddressesAre(r);
      hide Addresses;
      CrossUnion(Some1(r.ip), Some1(r.sec), Some1(x));
      res := AddBridgeIps(x, r.ip);
      if res < 0 {
        return -1;
      }
      res := AddBridgeIps(x, r.sec);
    }

    /** The delete_bridge_ip calls between an address and an entry. */
    method UnlinkOne(x: Option<Ip>, r: Info) returns (res: int)
      requires fw.Valid()
      requires forall z :: z in Some1(x) + Addresses(r) ==> IfnameOf(fw.infos, z).Some?
      modifies fw`linked, fw.ctx
      ensures res == 0 && fw.Valid() && fw.natted == old(fw.natted)
      ensures fw.linked == old(fw.linked) - Cross(Some1(x), Addresses(r))
    {
      hide Cross, IfnameOf, Some1, Service.Valid;
      AddressesAre(r);
      hide Addresses;
      CrossUnion(Some1(r.ip), Some1(r.sec), Some1(x));
      res := DeleteBridgeIps(x, r.ip);
      if res < 0 {
        return -1;
      }
      res := DeleteBridgeIps(x, r.sec);
    }

    /** The four add_bridge_ip calls between two entries. */
    method LinkInfos(l: Info, r: Info) returns (res: int)
      requires fw.Valid()
      requires forall z :: z in Addresses(l) + Addresses(r) ==> IfnameOf(fw.infos, z).Some?
      modifies fw`linked, fw.ctx
      ensures res == 0 && fw.Valid() && fw.natted == old(fw.natted)
      ensures fw.linked == old(fw.linked) + Cross(Addresses(l), Addresses(r))
    {
      hide Cross, IfnameOf, Some1, Service.Valid;
      AddressesAre(l);
      hide Addresses;
      CrossUnion(Some1(l.ip), Some1(l.sec), Addresses(r));
      res := LinkOne(l.ip, r);
      if res < 0 {
        return -1;
      }
      res := LinkOne(l.sec, r);
    }

    /** The four delete_bridge_ip calls between two entries. */
    method UnlinkInfos(l: Info, r: Info) returns (res: int)
      requires fw.Valid()
      requires forall z :: z in Addresses(l) + Addresses(r) ==> IfnameOf(fw.infos, z).Some?
      modifies fw`linked, fw.ctx
      ensures res == 0 && fw.Valid() && fw.natted == old(fw.natted)
      ensures fw.linked == old(fw.linked) - Cross(Addresses(l), Addresses(r))
    {
      hide Cross, IfnameOf, Some1, Service.Valid;
      AddressesAre(l);
      hide Addresses;
      CrossUnion(Some1(l.ip), Some1(l.sec), Addresses(r));
      res := UnlinkOne(l.ip, r);
      if res < 0 {
        return -1;
      }
      res := UnlinkOne(l.sec, r);
    }

    /** add_bridge_mac_cmd */
    method AddBridge(l: Mac, r: Mac) returns (res: int)
      requires Valid()
      modifies list, fw, fw.ctx
      ensures Valid() && Tables() == Next(c, old(Tables()), Command.AddBridge(l, r))
      ensures res == if l == r then -1 else 0
    {
      hide Linked, Natted, Leased, Proper, OneEach, Held, Addresses, Reach, Cross, Service.Valid;
      ghost var s := Tables();
      NextOneEach(c, s, Command.AddBridge(l, r));
      LinkEdge(macs, s.edges, l, r);
      BothHeld(macs, c.infos, l, r);
      res := list.Add(l, r);
      if res >= 0 {
        res := 0;
        if l in macs && r in macs {
          res := LinkInfos(macs[l], macs[r]);
        }
      }
    }

    /** remove_bridge_cmd */
    method RemoveBridge(l: Mac, r: Mac) returns (res: int)
      requires Valid()
      modifies list, fw, fw.ctx
      ensures Valid() && res == 0 && Tables() == Next(c, old(Tables()), Command.RemoveBridge(l, r))
    {
      hide Linked, Natted, Leased, Proper, OneEach, Held, Addresses, Reach, Cross, Service.Valid;
      ghost var s := Tables();
      NextOneEach(c, s, Command.RemoveBridge(l, r));
      UnlinkEdge(macs, c.infos, s.edges, l, r);
      BothHeld(macs, c.infos, l, r);
      res := list.Remove(l, r);
      if l in macs && r in macs {
        res := UnlinkInfos(macs[l], macs[r]);
      }
    }

    /** set_ip_cmd, the loop over the bridged MACs. */
    method Rebridge(ip: Ip, ns: seq<Mac>, add: bool) returns (res: int)
      requires fw.Valid() && IfnameOf(fw.infos, ip).Some?
      requires forall x :: x in HeldBy(macs, ns) ==> IfnameOf(fw.infos, x).Some?
      modifies fw`linked, fw.ctx
      ensures res == 0 && fw.Valid() && fw.natted == old(fw.natted)
      ensures var around := Cross({ip}, HeldBy(macs, ns));
              fw.linked == if add then old(fw.linked) + around else old(fw.linked) - around
    {
      hide Service.Valid, IfnameOf, Cross, Addresses, HeldBy;
      var k := 0;
      HeldByNone(macs, ns, ip);
      while k < |ns|
        invariant 0 <= k <= |ns| && fw.Valid() && fw.natted == old(fw.natted)
        invariant var around := Cross({ip}, HeldBy(macs, ns[..k]));
                  fw.linked == if add then old(fw.linked) + around else old(fw.linked) - around
      {
        HeldByNext(macs, ns, k);
        HeldByPart(macs, ns, k);
        CrossUnion(HeldBy(macs, ns[..k]), Held(macs, ns[k]), {ip});
        if ns[k] in macs {
          if add {
            res := LinkOne(Some(ip), macs[ns[k]]);
          } else {
            res := UnlinkOne(Some(ip), macs[ns[k]]);
          }
          if res < 0 {
            return -1;
          }
        }
        k := k + 1;
      }
      assert ns[..k] == ns;
      res := 0;
    }

    /** set_ip_cmd, the switch: the entry to store, if any. */
    method PickSlot(m: Mac, ip: Ip, typ: IpType, name: string) returns (res: int, info: Option<Info>)
      requires IfnameOf(c.infos, ip) == Some(name)
      ensures info == AddressEntry(c, macs, m, ip, typ) && (info.Some? ==> res == 0)
      ensures var i := Entry(c, macs, m, c.openVlan);
              res == if (typ.NewIp? || typ.OldIp?) && ip !in Addresses(i) && i.ip.Some? && i.sec.Some? then -1 else 0
    {
      var i := Entry(c, macs, m, c.openVlan);
      match typ {
        case NewIp | OldIp =>
          if i.ip == Some(ip) || i.sec == Some(ip) {
            return 0, None;
          }
          if i.ip.None? {
            i := i.(ip := Some(ip));
          } else if i.sec.None? {
            i := i.(sec := Some(ip));
          } else {
            return -1, None;
          }
        case DelIp =>
          if i.ip == Some(ip) {
            i := i.(ip := None);
          }
          if i.sec == Some(ip) {
            i := i.(sec := None);
          }
        case ArpIp =>
          return 0, None;
      }
      res, info := 0, Some(i.(ifname := name));
    }

    /** set_ip_cmd */
    method SetIp(m: Mac, ip: Ip, typ: IpType) returns (res: int)
      requires Valid() && Lawful(Tables(), Command.SetIp(m, ip, typ))
      modifies this`macs, fw, fw.ctx
      ensures Valid() && Tables() == Next(c, old(Tables()), Command.SetIp(m, ip, typ))
      ensures var i := Entry(c, old(macs), m, c.openVlan);
              res == (if IfnameOf(c.infos, ip).None? then -1
                      else if (typ.NewIp? || typ.OldIp?) && ip !in Addresses(i) && i.ip.Some? && i.sec.Some? then -1
                      else 0)
    {
      hide Linked, Natted, Leased, Proper, OneEach, Held, Addresses, Reach, Cross, Service.Valid, AddressEntry,
           IfnameOf, HeldBy;
      ghost var s := Tables();
      NextSound(c, s, Command.SetIp(m, ip, typ));
      NextOneEach(c, s, Command.SetIp(m, ip, typ));
      NoEntry(c, s, m, ip, typ);
      var name := GetIfname(c.infos, ip);
      if name.None? {
        return -1;
      }
      var info;
      res, info := PickSlot(m, ip, typ, name.value);
      if info.None? {
        return;
      }
      SetIpPolicy(c, s, m, ip, typ);
      AddressEntryHolds(c, macs, m, ip, typ);
      macs := macs[m := info.value];
      var add := typ.NewIp? || typ.OldIp?;
      if add && info.value.natFlag {
        res := AddNatIp(Some(ip));
      } else if !add && info.value.natFlag {
        res := RemoveNatIp(Some(ip));
      }
      if res < 0 {
        return -1;
      }
      var ns := list.Neighbours(m);
      HeldByReach(macs, s.edges, m, ns);
      InReach(c, s, m, macs);
      res := Rebridge(ip, ns, add);
    }

    /** get_ip_mapper: a MAC that holds the address, whatever the order of the table. */
    method GetIp(ip: Ip) returns (r: Option<Mac>)
      ensures r.Some? ==> ip in Held(macs, r.value)
      ensures r.None? ==> forall m :: ip !in Held(macs, m)
    {
      var left := macs.Keys;
      while left != {}
        invariant left <= macs.Keys && forall m :: m in macs && m !in left ==> ip !in Held(macs, m)
        decreases |left|
      {
        var m :| m in left;
        if macs[m].ip == Some(ip) || macs[m].sec == Some(ip) {
          return Some(m);
        }
        left := left - {m};
      }
      r := None;
    }

    /** add_bridge_ip_cmd */
    method AddBridgeIp(x: Ip, y: Ip) returns (res: int)
      requires Valid()
      modifies list, fw, fw.ctx
      ensures Valid() && Tables() == Next(c, old(Tables()), Command.AddBridgeIp(x, y))
      ensures var l, r := HolderOf(macs, x), HolderOf(macs, y); res == if l.None? || r.None? || l == r then -1 else 0
    {
      hide Linked, Natted, Leased, Proper, OneEach, Held, Addresses, Reach, Cross, Service.Valid;
      var l := GetIp(x);
      if l.None? {
        return -1;
      }
      var r := GetIp(y);
      if r.None? {
        return -1;
      }
      OneHolder(c, macs, x, l.value);
      OneHolder(c, macs, y, r.value);
      var there := list.Exists(l.value, r.value);
      if there {
        EdgeThere(list.Edges(), l.value, r.value);
        return 0;
      }
      res := AddBridge(l.value, r.value);
    }

    /** clear_bridges_cmd: drops the edges to every MAC of the table, in whatever order. */
    method ClearBridges(m: Mac) returns (res: int)
      requires Valid()
      modifies list, fw, fw.ctx
      ensures Valid() && res == 0 && Tables() == Next(c, old(Tables()), Command.ClearBridges(m))
    {
      hide Supervisor.Valid, Next, Cleared;
      ghost var s, done := Tables(), {};
      var left := macs.Keys;
      ClearedAll(c, s, m);
      while left != {}
        invariant left <= macs.Keys && done == macs.Keys - left && Valid()
        invariant Tables() == s.(edges := Cleared(s.edges, m, done))
        decreases |left|
      {
        var n :| n in left;
        ClearedNext(c, s, m, done, n);
        var _ := RemoveBridge(m, n);
        left, done := left - {n}, done + {n};
      }
      assert done == macs.Keys;
      res := 0;
    }

    /** Every lawful run of commands refines the state machine and keeps the firewall in step. */
    method Do(k: Command)
      requires Valid() && Lawful(Tables(), k)
      modifies this, list, fw, fw.ctx
      ensures Valid() && Tables() == Next(c, old(Tables()), k)
    {
      hide Supervisor.Valid;
      match k {
        case SetIp(m, ip, typ) => var _ := SetIp(m, ip, typ);
        case AddNat(m) => var _ := AddNat(m);
        case RemoveNat(m) => var _ := RemoveNat(m);
        case AcceptMac(m, vlan) => var _ := AcceptMac(m, vlan);
        case DenyMac(m) => var _ := DenyMac(m);
        case AssignPsk(m, pass) => var _ := AssignPsk(m, pass);
        case ClearPsk(m) => var _ := ClearPsk(m);
        case AddBridge(l, r) => var _ := AddBridge(l, r);
        case AddBridgeIp(x, y) => var _ := AddBridgeIp(x, y);
        case RemoveBridge(l, r) => var _ := RemoveBridge(l, r);
        case ClearBridges(m) => var _ := ClearBridges(m);
        case RegisterTicket(name, vlan, pass) => var _ := RegisterTicket(name, vlan, pass);
        case TicketTimeout => TicketTimeout();
        case Connect(m, now) => var _ := GetMacConn(m, now);
        case ApStatus(m, status) => ApStatus(m, status);
      }
    }

    method Run(ks: seq<Command>)
      requires Valid() && LawfulRun(c, Tables(), ks)
      modifies this, list, fw, fw.ctx
      ensures Valid() && Tables() == Commands.Run(c, old(Tables()), ks)
    {
      hide Supervisor.Valid, Next, Lawful;
      var i := 0;
      while i < |ks|
        invariant 0 <= i <= |ks| && Valid() && LawfulRun(c, Tables(), ks[i..])
        invariant Commands.Run(c, Tables(), ks[i..]) == Commands.Run(c, old(Tables()), ks)
      {
        Do(ks[i]);
        i := i + 1;
      }
    }

    /** First-match evaluation of the FORWARD chain is the policy of the tables. */
    lemma ChainFollowsTables(p: Packet)
      requires Valid() && p.inIf in fw.ctx.Ifs() && Unicast(p)
      ensures Eval(fw.ctx.forward, p) == Accept <==> MayPass(c, Tables(), fw.ctx.nif, p)
    {
      hide Enforces, Allows, Linked, Natted, EndPairs, Ends, Eval, MayPass;
      PolicyExact(fw.ctx.forward, fw.ctx.Ifs(), fw.ctx.nif, fw.ctx.bridges, fw.ctx.nats, p);
      AllowsIff(c, Tables(), fw.ctx.nif, p);
    }

    /** Multicast passes in every state. */
    lemma MulticastPasses(p: Packet)
      requires Valid() && 0xe000_0000 <= p.src < 0xf000_0000 && 0xe000_0000 <= p.dst < 0xf000_0000
      ensures Eval(fw.ctx.forward, p) == Accept
    {
      hide Eval, Bag, Ordered;
      MulticastAccepted(fw.ctx.forward, fw.ctx.Ifs(), p);
    }

    /** POSTROUTING masquerades exactly what leaves by the NAT interface from an address of a MAC with the NAT flag. */
    lemma MaskingFollowsTables(p: Packet)
      requires Valid()
      ensures (exists r :: r in fw.ctx.postrouting && Matches(r, p)) <==>
              && p.outIf == fw.ctx.nif
              && exists m :: m in macs && macs[m].natFlag && p.src in Addresses(macs[m])
    {
      hide Enforces, Linked, Masks, Matches, Addresses;
      MaskedIff(fw.ctx.postrouting, fw.ctx.masked, fw.ctx.nif, p);
    }
  }

  /** sdbm_hash */
  method SdbmHash(data: seq<byte>) returns (hash: nat)
    ensures hash == Sdbm(data)
  {
    hash := 0;
    var i := 0;
    while i < |data|
      invariant 0 <= i <= |data| && hash == Sdbm(data[..i])
    {
      var x: int := data[i];
      assert data[..i + 1][..i] == data[..i];
      hash := (x + hash * 64 + hash * 65536 - hash) % 0x1_0000_0000;
      i := i + 1;
    }
    assert data[..i] == data;
  }
}
