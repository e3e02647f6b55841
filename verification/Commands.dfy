/** The supervisor as a state machine over its tables: what every command does to the MAC table, the bridge edges and
    the ticket, and what every run of commands keeps. */
module Commands {
  import opened Bytes
  import opened Options
  import opened Firewall
  import opened BridgeList
  import opened Policy

  /** struct auth_ticket */
  datatype Ticket = Ticket(vlan: int, pass: seq<byte>, deviceLabel: string)

  /** The configured part of struct supervisor_context. */
  datatype Conf = Conf(openAll: bool, natAll: bool, capture: bool, allocate: bool, openVlan: int, pass: seq<byte>,
                       vlans: map<int, string>, infos: seq<IfInfo>)

  /** The tables. Tickets are numbered from 0 as they are issued; handed says which MAC got which ticket. */
  datatype State = State(macs: Table, edges: set<Edge>, ticket: Option<Ticket>, issued: nat, handed: seq<(int, Mac)>)

  /** enum DHCP_IP_TYPE */
  datatype IpType = NewIp | OldIp | DelIp | ArpIp

  datatype Command =
    | SetIp(mac: Mac, ip: Ip, typ: IpType)
    | AddNat(mac: Mac)
    | RemoveNat(mac: Mac)
    | AcceptMac(mac: Mac, vlan: int)
    | DenyMac(mac: Mac)
    | AssignPsk(mac: Mac, pass: seq<byte>)
    | ClearPsk(mac: Mac)
    | AddBridge(left: Mac, right: Mac)
    | AddBridgeIp(leftIp: Ip, rightIp: Ip)
    | RemoveBridge(left: Mac, right: Mac)
    | ClearBridges(mac: Mac)
    | RegisterTicket(deviceLabel: string, vlan: int, pass: seq<byte>)
    | TicketTimeout
    | Connect(mac: Mac, now: int)
    | ApStatus(mac: Mac, status: int)

  function MacBytes(m: Mac): (r: seq<byte>)
    ensures |r| == 6
  {
    [m / 0x100_0000_0000 % 256, m / 0x1_0000_0000 % 256, m / 0x100_0000 % 256,
     m / 0x1_0000 % 256, m / 0x100 % 256, m % 256]
  }

  /** sdbm_hash over 32-bit words: the shifts by 6 and 16 less one are a factor 65599. */
  function Sdbm(data: seq<byte>): (r: nat)
    ensures r < 0x1_0000_0000
    decreases |data|
  {
    if data == [] then 0
    else
      var last: int := data[|data| - 1];
      (last + 65599 * Sdbm(data[..|data| - 1])) % 0x1_0000_0000
  }

  /** allocate_vlan with VLAN_ALLOCATE_HASH, or the default VLAN. */
  function Allocated(c: Conf, m: Mac): (r: int)
    ensures r == c.openVlan || exists p :: p in c.infos && r == p.vlanid
  {
    if !c.allocate || |c.infos| <= 1 then c.openVlan
    else
      var p := c.infos[Sdbm(MacBytes(m)) % |c.infos|];
      p.vlanid
  }

  /** The stored entry, or init_default_mac_info. */
  function Entry(c: Conf, macs: Table, m: Mac, vlan: int): (r: Info)
    ensures Addresses(r) == Held(macs, m)
  {
    if m in macs then macs[m] else Info(vlan, true, c.natAll, [], None, None, "", "", 0, 0)
  }

  datatype Decision = Refused | Granted(info: Info) | Ticketed(info: Info)

  /** The branches of get_mac_conn_cmd. */
  function Decide(c: Conf, s: State, m: Mac): (d: Decision)
  {
    var i := Entry(c, s.macs, m, Allocated(c, m));
    if m in s.macs && !i.allow then Refused
    else if m in s.macs && i.pass != [] then Granted(i)
    else if c.openAll then Granted(i.(pass := c.pass))
    else if s.ticket.Some? then
      var t := s.ticket.value;
      Ticketed(i.(vlan := t.vlan, pass := t.pass, deviceLabel := t.deviceLabel))
    else Granted(i.(vlan := Allocated(c, m), pass := c.pass))
  }

  /** get_mac_conn_cmd: the answer and the tables after it. With packet capture on, a VLAN without an interface cannot
      be granted. */
  function Admission(c: Conf, s: State, m: Mac, now: int): (r: (State, Info))
  {
    var d := Decide(c, s, m);
    if d.Refused? then (s, Entry(c, s.macs, m, Allocated(c, m)).(vlan := -1))
    else
      var t := if d.Ticketed? then s.(ticket := None, handed := s.handed + [(s.issued - 1, m)]) else s;
      var i := d.info;
      if c.capture && i.vlan !in c.vlans then (t, i.(vlan := -1))
      else (t.(macs := s.macs[m := i.(stamp := now)]), i.(stamp := now))
  }

  /** The entry after set_ip_cmd, or None when the command changes nothing. */
  function AddressEntry(c: Conf, macs: Table, m: Mac, ip: Ip, typ: IpType): (r: Option<Info>)
  {
    var name := IfnameOf(c.infos, ip);
    var i := Entry(c, macs, m, c.openVlan);
    if name.None? || typ.ArpIp? then None
    else if typ.DelIp? then
      Some(i.(ip := if i.ip == Some(ip) then None else i.ip, sec := if i.sec == Some(ip) then None else i.sec,
              ifname := name.value))
    else if i.ip == Some(ip) || i.sec == Some(ip) then None
    else if i.ip.None? then Some(i.(ip := Some(ip), ifname := name.value))
    else if i.sec.None? then Some(i.(sec := Some(ip), ifname := name.value))
    else None
  }

  ghost function HolderOf(macs: Table, ip: Ip): (r: Option<Mac>)
    ensures r.Some? ==> ip in Held(macs, r.value)
    ensures r.None? ==> forall m :: ip !in Held(macs, m)
  {
    if m :| m in macs && ip in Held(macs, m) then Some(m) else None
  }

  ghost function Next(c: Conf, s: State, k: Command): (t: State)
  {
    match k
    case SetIp(m, ip, typ) =>
      var i := AddressEntry(c, s.macs, m, ip, typ);
      if i.None? then s else s.(macs := s.macs[m := i.value])
    case AddNat(m) => s.(macs := s.macs[m := Entry(c, s.macs, m, c.openVlan).(natFlag := true)])
    case RemoveNat(m) => s.(macs := s.macs[m := Entry(c, s.macs, m, c.openVlan).(natFlag := false)])
    case AcceptMac(m, vlan) =>
      if vlan !in c.vlans then s
      else
        var i := Entry(c, s.macs, m, c.openVlan);
        s.(macs := s.macs[m := i.(allow := true, vlan := vlan, ifname := c.vlans[vlan])])
    case DenyMac(m) => s.(macs := s.macs[m := Entry(c, s.macs, m, c.openVlan).(allow := false)])
    case AssignPsk(m, pass) => s.(macs := s.macs[m := Entry(c, s.macs, m, c.openVlan).(pass := pass)])
    case ClearPsk(m) => s.(macs := s.macs[m := Entry(c, s.macs, m, c.openVlan).(pass := [])])
    case AddBridge(l, r) => if l == r then s else s.(edges := s.edges + {(l, r), (r, l)})
    case AddBridgeIp(x, y) =>
      var l, r := HolderOf(s.macs, x), HolderOf(s.macs, y);
      if l.None? || r.None? || l == r then s
      else s.(edges := s.edges + {(l.value, r.value), (r.value, l.value)})
    case RemoveBridge(l, r) => s.(edges := s.edges - {(l, r), (r, l)})
    case ClearBridges(m) =>
      s.(edges := set e | e in s.edges && !(e.0 == m && e.1 in s.macs) && !(e.1 == m && e.0 in s.macs))
    case RegisterTicket(name, vlan, pass) =>
      if s.ticket.Some? then s else s.(ticket := Some(Ticket(vlan, pass, name)), issued := s.issued + 1)
    case TicketTimeout => s.(ticket := None)
    case Connect(m, now) => Admission(c, s, m, now).0
    case ApStatus(m, status) =>
      if m !in s.macs then s else s.(macs := s.macs[m := s.macs[m].(status := status)])
  }

  ghost function Run(c: Conf, s: State, ks: seq<Command>): (t: State)
    decreases |ks|
  {
    if ks == [] then s else Run(c, Next(c, s, ks[0]), ks[1..])
  }

  /** Lease discipline of DHCP: an address named for one MAC is not held by another. */
  ghost predicate Lawful(s: State, k: Command)
  {
    k.SetIp? && !k.typ.ArpIp? ==> forall n :: n != k.mac ==> k.ip !in Held(s.macs, n)
  }

  ghost predicate LawfulRun(c: Conf, s: State, ks: seq<Command>)
    decreases |ks|
  {
    ks == [] || (Lawful(s, ks[0]) && LawfulRun(c, Next(c, s, ks[0]), ks[1..]))
  }

  ghost predicate Sound(c: Conf, s: State) { Leased(s.macs, c.infos) && Proper(s.edges) }

  lemma SameLease(c: Conf, macs: Table, m: Mac, i: Info)
    requires Leased(macs, c.infos) && Addresses(i) == Held(macs, m)
    requires i.ip.Some? && i.sec.Some? ==> i.ip != i.sec
    ensures Leased(macs[m := i], c.infos)
  {
    SameAddresses(macs, c.infos, {}, m, i);
  }

  /** A fresh address on a configured interface, or one less, keeps the lease discipline. */
  lemma MovedLease(infos: seq<IfInfo>, macs: Table, m: Mac, i: Info, ip: Ip)
    requires Leased(macs, infos) && IfnameOf(infos, ip).Some?
    requires forall n :: n != m ==> ip !in Held(macs, n)
    requires Addresses(i) <= Held(macs, m) + {ip}
    requires i.ip.Some? && i.sec.Some? ==> i.ip != i.sec
    ensures Leased(macs[m := i], infos)
  {
    hide Addresses;
    var after := macs[m := i];
    forall a, b | a in after && b in after && a != b ensures Held(after, a) !! Held(after, b) {
      assert Held(macs, a) !! Held(macs, b);
    }
  }

  lemma Paired(c: Conf, macs: Table, m: Mac, vlan: int)
    requires Leased(macs, c.infos)
    ensures var i := Entry(c, macs, m, vlan); i.ip.Some? && i.sec.Some? ==> i.ip != i.sec
  {
  }

  lemma AddressEntryHolds(c: Conf, macs: Table, m: Mac, ip: Ip, typ: IpType)
    requires Leased(macs, c.infos) && AddressEntry(c, macs, m, ip, typ).Some?
    ensures var i := AddressEntry(c, macs, m, ip, typ).value;
            && IfnameOf(c.infos, ip).Some? && !typ.ArpIp?
            && Addresses(i) == (if typ.DelIp? then Held(macs, m) - {ip} else Held(macs, m) + {ip})
            && i.natFlag == Entry(c, macs, m, c.openVlan).natFlag
            && (i.ip.Some? && i.sec.Some? ==> i.ip != i.sec)
            && (!typ.DelIp? ==> ip !in Held(macs, m))
  {
  }

  /** Every lawful command keeps the lease discipline and the shape of the edges. */
  lemma NextSound(c: Conf, s: State, k: Command)
    requires Sound(c, s) && Lawful(s, k)
    ensures Sound(c, Next(c, s, k))
  {
    hide Leased, Held, Addresses, IfnameOf, Allocated;
    if k.AddBridge? || k.AddBridgeIp? || k.RemoveBridge? || k.ClearBridges? || k.RegisterTicket? || k.TicketTimeout? {
      return;
    }
    var m := k.mac;
    Paired(c, s.macs, m, c.openVlan);
    if k.SetIp? {
      if AddressEntry(c, s.macs, m, k.ip, k.typ).Some? {
        AddressEntryHolds(c, s.macs, m, k.ip, k.typ);
        MovedLease(c.infos, s.macs, m, AddressEntry(c, s.macs, m, k.ip, k.typ).value, k.ip);
      }
    } else if m in Next(c, s, k).macs {
      EntryKept(c, s, k);
      SameLease(c, s.macs, m, Next(c, s, k).macs[m]);
    }
  }

  /** Commands other than SET_IP leave the addresses of a MAC alone. */
  lemma EntryKept(c: Conf, s: State, k: Command)
    requires !k.AddBridge? && !k.AddBridgeIp? && !k.RemoveBridge? && !k.ClearBridges?
    requires !k.RegisterTicket? && !k.TicketTimeout? && !k.SetIp?
    requires k.mac in Next(c, s, k).macs
    ensures var i := Next(c, s, k).macs[k.mac]; var was := Entry(c, s.macs, k.mac, c.openVlan);
            && Next(c, s, k).macs == s.macs[k.mac := i]
            && Addresses(i) == Held(s.macs, k.mac) && i.ip == was.ip && i.sec == was.sec
  {
    hide Allocated;
  }

  lemma {:induction false} RunSound(c: Conf, s: State, ks: seq<Command>)
    requires Sound(c, s) && LawfulRun(c, s, ks)
    ensures Sound(c, Run(c, s, ks))
    decreases |ks|
  {
    hide Sound, Lawful, Next;
    if ks != [] {
      NextSound(c, s, ks[0]);
      RunSound(c, Next(c, s, ks[0]), ks[1..]);
    }
  }

  /** Tickets go to one MAC each; the one that is out has not been handed over. */
  ghost predicate OneEach(s: State)
  {
    && (forall i, j :: 0 <= i < j < |s.handed| ==> s.handed[i].0 != s.handed[j].0)
    && (forall i :: 0 <= i < |s.handed| ==> 0 <= s.handed[i].0 < s.issued - (if s.ticket.Some? then 1 else 0))
    && (s.ticket.Some? ==> s.issued > 0)
  }

  lemma NextOneEach(c: Conf, s: State, k: Command)
    requires OneEach(s)
    ensures OneEach(Next(c, s, k))
  {
    hide Allocated, AddressEntry, HolderOf, Entry;
  }

  lemma {:induction false} TicketsOneEach(c: Conf, s: State, ks: seq<Command>)
    requires OneEach(s)
    ensures OneEach(Run(c, s, ks))
    decreases |ks|
  {
    hide OneEach, Next;
    if ks != [] {
      NextOneEach(c, s, ks[0]);
      TicketsOneEach(c, Next(c, s, ks[0]), ks[1..]);
    }
  }

  /** After DENY_MAC a MAC is turned away, whatever it was before. */
  lemma DenyEffect(c: Conf, s: State, m: Mac, now: int)
    ensures var t := Next(c, s, DenyMac(m)); Denied(t, m) && Admission(c, t, m, now).1.vlan == -1
  {
  }

  predicate Denied(s: State, m: Mac) { m in s.macs && !s.macs[m].allow }

  lemma NextDenied(c: Conf, s: State, k: Command, m: Mac)
    requires Denied(s, m) && !(k.AcceptMac? && k.mac == m)
    ensures Denied(Next(c, s, k), m)
  {
  }

  /** A denied MAC is answered with VLAN -1 until an ACCEPT_MAC names it, and the answer changes nothing. */
  lemma {:induction false} DeniedStays(c: Conf, s: State, ks: seq<Command>, m: Mac, now: int)
    requires Denied(s, m) && forall k :: k in ks ==> !(k.AcceptMac? && k.mac == m)
    ensures Denied(Run(c, s, ks), m)
    ensures var r := Admission(c, Run(c, s, ks), m, now); r.1.vlan == -1 && r.0 == Run(c, s, ks)
    decreases |ks|
  {
    hide Next, Allocated;
    if ks != [] {
      NextDenied(c, s, ks[0], m);
      DeniedStays(c, Next(c, s, ks[0]), ks[1..], m, now);
    }
  }

  /** A MAC that may connect with this VLAN and passphrase. */
  predicate Admitted(c: Conf, s: State, m: Mac, vlan: int, pass: seq<byte>)
  {
    && m in s.macs && s.macs[m].allow && s.macs[m].vlan == vlan && s.macs[m].pass == pass
    && (c.capture ==> vlan in c.vlans)
  }

  predicate Rekeys(k: Command, m: Mac)
  {
    (k.AcceptMac? || k.DenyMac? || k.AssignPsk? || k.ClearPsk?) && k.mac == m
  }

  lemma NextAdmitted(c: Conf, s: State, k: Command, m: Mac, vlan: int, pass: seq<byte>)
    requires Admitted(c, s, m, vlan, pass) && pass != [] && !Rekeys(k, m)
    ensures Admitted(c, Next(c, s, k), m, vlan, pass)
  {
    hide Allocated, HolderOf, IfnameOf;
  }

  /** Once a MAC is answered with a VLAN and a passphrase, it gets the same answer after any run of commands that does
      not accept, deny or re-key that MAC. */
  lemma {:induction false} AdmittedStays(c: Conf, s: State, m: Mac, now: int, ks: seq<Command>, later: int)
    requires var i := Admission(c, s, m, now).1; i.vlan != -1 && i.pass != []
    requires forall k :: k in ks ==> !Rekeys(k, m)
    ensures var i := Admission(c, s, m, now).1;
            var again := Admission(c, Run(c, Admission(c, s, m, now).0, ks), m, later).1;
            again.vlan == i.vlan && again.pass == i.pass
  {
    hide Allocated, Next;
    var t, i := Admission(c, s, m, now).0, Admission(c, s, m, now).1;
    AdmittedRun(c, t, ks, m, i.vlan, i.pass);
  }

  lemma {:induction false} AdmittedRun(c: Conf, s: State, ks: seq<Command>, m: Mac, vlan: int, pass: seq<byte>)
    requires Admitted(c, s, m, vlan, pass) && pass != [] && forall k :: k in ks ==> !Rekeys(k, m)
    ensures Admitted(c, Run(c, s, ks), m, vlan, pass)
    decreases |ks|
  {
    hide Next, Admitted;
    if ks != [] {
      NextAdmitted(c, s, ks[0], m, vlan, pass);
      AdmittedRun(c, Next(c, s, ks[0]), ks[1..], m, vlan, pass);
    }
  }

  /** The VLAN a MAC is due: its own, the ticket's, or an allocated one. */
  function Due(c: Conf, s: State, m: Mac): (r: int)
  {
    if m in s.macs && (c.openAll || s.macs[m].pass != []) then s.macs[m].vlan
    else if s.ticket.Some? && !c.openAll then s.ticket.value.vlan
    else Allocated(c, m)
  }

  /** Turned away is exactly a denied MAC, one whose VLAN has no interface to capture on, or one that is due VLAN -1;
      every other MAC gets the VLAN it is due. */
  lemma RejectedIff(c: Conf, s: State, m: Mac, now: int)
    ensures var r := Admission(c, s, m, now).1;
            && (r.vlan == -1 <==> Denied(s, m) || Due(c, s, m) == -1 || (c.capture && Due(c, s, m) !in c.vlans))
            && (r.vlan != -1 ==> r.vlan == Due(c, s, m))
  {
    hide Allocated;
  }

  /** A ticket is used up by a MAC that is turned away exactly when the MAC has no passphrase of its own and the VLAN of
      the ticket is -1 or has no interface to capture on. */
  lemma TicketLostIff(c: Conf, s: State, m: Mac, now: int)
    requires s.ticket.Some?
    ensures var r := Admission(c, s, m, now);
            r.0.ticket.None? && r.1.vlan == -1 <==>
            && !c.openAll && !Denied(s, m) && (m in s.macs ==> s.macs[m].pass == [])
            && (s.ticket.value.vlan == -1 || (c.capture && s.ticket.value.vlan !in c.vlans))
  {
    hide Allocated;
  }

  /** A first device, a ticket for VLAN 7 and no VLAN interfaces: the ticket is gone and the device is turned away. */
  lemma TicketLost(m: Mac, now: int)
    ensures var c := Conf(false, false, true, false, 0, [], map[], []);
            var s := Next(c, State(map[], {}, None, 0, []), RegisterTicket("", 7, [1]));
            var r := Admission(c, s, m, now);
            s.ticket.Some? && r.0.ticket.None? && r.0.macs == map[] && r.1.vlan == -1
  {
    var c := Conf(false, false, true, false, 0, [], map[], []);
    TicketLostIff(c, Next(c, State(map[], {}, None, 0, []), RegisterTicket("", 7, [1])), m, now);
  }

  /** No edge of a MAC is left after its bridges are cleared exactly when the table has all MACs it is bridged with. */
  lemma ClearedIff(c: Conf, s: State, m: Mac)
    requires Proper(s.edges)
    ensures (forall e :: e in Next(c, s, ClearBridges(m)).edges ==> e.0 != m && e.1 != m) <==>
            (forall n :: (m, n) in s.edges ==> n in s.macs)
  {
    var t := Next(c, s, ClearBridges(m)).edges;
    if n :| (m, n) in s.edges && n !in s.macs {
      assert (m, n) in t;
    } else {
      forall e | e in t ensures e.0 != m && e.1 != m {
        assert (e.1, e.0) in s.edges;
        assert e == (e.0, e.1);
      }
    }
  }

  /** A bridge to a MAC that was never seen outlives the clearing. */
  lemma UnclearedBridge(c: Conf)
    ensures var s := Run(c, State(map[], {}, None, 0, []), [AddBridge(1, 2), ClearBridges(1)]);
            (1, 2) in s.edges && (2, 1) in s.edges
  {
    var start, ks := State(map[], {}, None, 0, []), [AddBridge(1, 2), ClearBridges(1)];
    var s1 := Next(c, start, ks[0]);
    assert Run(c, start, ks) == Run(c, s1, ks[1..]);
    assert Run(c, s1, ks[1..]) == Run(c, Next(c, s1, ks[1]), []);
    assert (1, 2) in s1.edges && (2, 1) in s1.edges;
  }
}
