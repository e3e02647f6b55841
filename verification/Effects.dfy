/** What the supervisor's commands are for: who may connect after them, with which VLAN and passphrase, and which
    packets may pass. */
module Effects {
  import opened Bytes
  import opened Options
  import opened Iptables
  import opened Firewall
  import opened BridgeList
  import opened Policy
  import opened Commands
  import opened Access
  import opened Supervisor

  /** ACCEPT_MAC lets a MAC in on a VLAN that has an interface, with the passphrase it has or else, where everyone is
      let in, the default one; for any other VLAN it does nothing. */
  lemma AcceptEffect(c: Conf, s: State, m: Mac, vlan: int)
    ensures var t := Next(c, s, Command.AcceptMac(m, vlan));
            && (vlan !in c.vlans ==> t == s)
            && (vlan in c.vlans ==>
                  && !Denied(t, m) && KeyDue(c, t, m) == KeyDue(c, s, m)
                  && (c.openAll || (m in s.macs && s.macs[m].pass != []) ==>
                        Due(c, t, m) == vlan && (Welcome(c, t, m) <==> vlan >= 0)))
  {
    hide Allocated;
  }

  /** Who is denied changes only by DENY_MAC and by ACCEPT_MAC for a VLAN that has an interface. */
  lemma DeniedIff(c: Conf, s: State, k: Command, m: Mac)
    ensures Denied(Next(c, s, k), m) <==>
            if k == Command.DenyMac(m) then true
            else if k.AcceptMac? && k.mac == m && k.vlan in c.vlans then false
            else Denied(s, m)
  {
    hide Allocated, IfnameOf, HolderOf;
  }

  /** A MAC with a passphrase of its own. */
  predicate Keyed(s: State, m: Mac) { m in s.macs && s.macs[m].pass != [] }

  /** ASSIGN_PSK gives a MAC its passphrase; it is then due its own VLAN, or the default one if it was not known. */
  lemma AssignEffect(c: Conf, s: State, m: Mac, pass: seq<byte>)
    requires pass != []
    ensures var t := Next(c, s, Command.AssignPsk(m, pass));
            && KeyDue(c, t, m) == pass && Due(c, t, m) == (if m in s.macs then s.macs[m].vlan else c.openVlan)
            && (Denied(t, m) <==> Denied(s, m))
  {
    hide Allocated;
  }

  /** CLEAR_PSK takes it away: the ticket's passphrase is due, or the default one. */
  lemma ClearPskEffect(c: Conf, s: State, m: Mac)
    ensures var t := Next(c, s, Command.ClearPsk(m));
            && !Keyed(t, m) && (Denied(t, m) <==> Denied(s, m))
            && KeyDue(c, t, m) == if s.ticket.Some? && !c.openAll then s.ticket.value.pass else c.pass
  {
    hide Allocated;
  }

  /** A ticket is for every MAC without a passphrase of its own, unless everyone is let in; while one is out, none is
      registered. When it times out such a MAC is due the allocated VLAN and the default passphrase. */
  lemma TicketEffect(c: Conf, s: State, m: Mac, name: string, vlan: int, pass: seq<byte>)
    requires !Keyed(s, m) && !c.openAll
    ensures var t := Next(c, s, RegisterTicket(name, vlan, pass));
            if s.ticket.Some? then t == s else Due(c, t, m) == vlan && KeyDue(c, t, m) == pass
    ensures var t := Next(c, s, TicketTimeout);
            Due(c, t, m) == Allocated(c, m) && KeyDue(c, t, m) == c.pass
  {
    hide Allocated;
  }

  /** A command about one MAC leaves the admission of all others alone. */
  lemma OthersKept(c: Conf, s: State, k: Command, n: Mac)
    requires k.AcceptMac? || k.DenyMac? || k.AssignPsk? || k.ClearPsk? || k.AddNat? || k.RemoveNat? || k.SetIp? ||
             k.ApStatus?
    requires n != k.mac
    ensures var t := Next(c, s, k);
            && (Denied(t, n) <==> Denied(s, n)) && Due(c, t, n) == Due(c, s, n) && KeyDue(c, t, n) == KeyDue(c, s, n)
            && Held(t.macs, n) == Held(s.macs, n)
  {
    hide Allocated, AddressEntry, Entry;
  }

  /** The packet is from an address of this MAC to the NAT interface, or from there to such an address. */
  ghost predicate ByNat(c: Conf, s: State, m: Mac, nif: string, p: Packet)
  {
    (Owns(c, s, m, p.src, p.inIf) && p.outIf == nif) || (Owns(c, s, m, p.dst, p.outIf) && p.inIf == nif)
  }

  /** The packet is between addresses of these two MACs. */
  ghost predicate Between(c: Conf, s: State, l: Mac, r: Mac, p: Packet)
  {
    || (Owns(c, s, l, p.src, p.inIf) && Owns(c, s, r, p.dst, p.outIf))
    || (Owns(c, s, r, p.src, p.inIf) && Owns(c, s, l, p.dst, p.outIf))
  }

  lemma OwnsFlag(c: Conf, s: State, m: Mac, on: bool, n: Mac, ip: Ip, ifname: string)
    ensures var t := s.(macs := s.macs[m := Entry(c, s.macs, m, c.openVlan).(natFlag := on)]);
            Owns(c, t, n, ip, ifname) <==> Owns(c, s, n, ip, ifname)
  {
    hide IfnameOf;
  }

  /** ADD_NAT lets exactly the packets between the MAC and the NAT interface pass as well. */
  lemma AddNatEffect(c: Conf, s: State, m: Mac, nif: string, p: Packet)
    ensures MayPass(c, Next(c, s, Command.AddNat(m)), nif, p) <==> MayPass(c, s, nif, p) || ByNat(c, s, m, nif, p)
  {
    var t := Next(c, s, Command.AddNat(m));
    forall n: Mac, ip: Ip, ifname: string ensures Owns(c, t, n, ip, ifname) <==> Owns(c, s, n, ip, ifname) {
      OwnsFlag(c, s, m, true, n, ip, ifname);
    }
    hide Owns;
    NatFlags(c, s, m, true);
    hide Entry;
  }

  lemma NatFlags(c: Conf, s: State, m: Mac, on: bool)
    ensures var t := s.macs[m := Entry(c, s.macs, m, c.openVlan).(natFlag := on)];
            forall n :: n in t ==> t[n].natFlag == if n == m then on else s.macs[n].natFlag
  {
  }

  /** After REMOVE_NAT exactly the packets pass that may for another reason: a bridge, or the NAT of another MAC. */
  lemma RemoveNatEffect(c: Conf, s: State, m: Mac, nif: string, p: Packet)
    ensures MayPass(c, Next(c, s, Command.RemoveNat(m)), nif, p) <==>
            || (exists e :: e in s.edges && Owns(c, s, e.0, p.src, p.inIf) && Owns(c, s, e.1, p.dst, p.outIf))
            || (exists n :: n != m && n in s.macs && s.macs[n].natFlag && ByNat(c, s, n, nif, p))
  {
    var t := Next(c, s, Command.RemoveNat(m));
    forall n: Mac, ip: Ip, ifname: string ensures Owns(c, t, n, ip, ifname) <==> Owns(c, s, n, ip, ifname) {
      OwnsFlag(c, s, m, false, n, ip, ifname);
    }
    OwnerKnown(c, s);
    hide Owns;
    NatFlags(c, s, m, false);
    hide Entry;
  }

  lemma OwnerKnown(c: Conf, s: State)
    ensures forall m, ip, ifname :: Owns(c, s, m, ip, ifname) ==> m in s.macs
  {
  }

  /** ADD_BRIDGE lets exactly the packets between the two MACs pass as well. */
  lemma AddBridgeEffect(c: Conf, s: State, l: Mac, r: Mac, nif: string, p: Packet)
    requires l != r
    ensures MayPass(c, Next(c, s, Command.AddBridge(l, r)), nif, p) <==>
            MayPass(c, s, nif, p) || Between(c, s, l, r, p)
  {
    var t := Next(c, s, Command.AddBridge(l, r));
    SameOwners(c, s, t);
    hide Owns;
    assert (l, r) in t.edges && (r, l) in t.edges;
  }

  /** ADD_BRIDGE for two addresses is that for the MACs that hold them. */
  lemma AddBridgeIpEffect(c: Conf, s: State, l: Mac, r: Mac, x: Ip, y: Ip)
    requires Sound(c, s) && x in Held(s.macs, l) && y in Held(s.macs, r)
    ensures Next(c, s, Command.AddBridgeIp(x, y)) == Next(c, s, Command.AddBridge(l, r))
  {
    OneHolder(c, s.macs, x, l);
    OneHolder(c, s.macs, y, r);
    hide HolderOf;
  }

  lemma SameOwners(c: Conf, s: State, t: State)
    requires s.macs == t.macs
    ensures forall m, ip, ifname :: Owns(c, s, m, ip, ifname) <==> Owns(c, t, m, ip, ifname)
  {
  }

  /** After REMOVE_BRIDGE the packets between the two MACs pass only by NAT, and all others as before. */
  lemma RemoveBridgeEffect(c: Conf, s: State, l: Mac, r: Mac, nif: string, p: Packet)
    requires Sound(c, s)
    ensures var t := Next(c, s, Command.RemoveBridge(l, r));
            if Between(c, s, l, r, p) then
              MayPass(c, t, nif, p) <==> exists n :: n in s.macs && s.macs[n].natFlag && ByNat(c, s, n, nif, p)
            else MayPass(c, t, nif, p) <==> MayPass(c, s, nif, p)
  {
    var t := Next(c, s, Command.RemoveBridge(l, r));
    SameOwners(c, s, t);
    OwnerKnown(c, s);
    forall m, n, ip, i, j | Owns(c, s, m, ip, i) && Owns(c, s, n, ip, j) ensures m == n {
      Holder(s.macs, c.infos, m, n, ip);
    }
    hide Owns, Sound;
  }

  /** SET_IP on a known subnet: after a DEL the MAC does not hold the address; after a NEW or OLD it does, unless it
      holds two others. */
  lemma SetIpEffect(c: Conf, s: State, m: Mac, ip: Ip, typ: IpType)
    requires IfnameOf(c.infos, ip).Some? && !typ.ArpIp?
    ensures var t := Next(c, s, Command.SetIp(m, ip, typ));
            if typ.DelIp? then Held(t.macs, m) == Held(s.macs, m) - {ip}
            else if m in s.macs && s.macs[m].ip.Some? && s.macs[m].sec.Some? then t == s
            else Held(t.macs, m) == Held(s.macs, m) + {ip}
  {
    hide IfnameOf;
  }

  /** A MAC that is first seen with an address may talk to the NAT interface exactly if that is allowed for all, or its
      MAC is bridged with one there. */
  lemma NewcomerEffect(c: Conf, s: State, m: Mac, typ: IpType, nif: string, p: Packet)
    requires m !in s.macs && (typ.NewIp? || typ.OldIp?) && IfnameOf(c.infos, p.src) == Some(p.inIf)
    requires (forall n :: p.src !in Held(s.macs, n)) && p.outIf == nif && p.inIf != nif
    ensures var t := Next(c, s, Command.SetIp(m, p.src, typ));
            && Owns(c, t, m, p.src, p.inIf)
            && (MayPass(c, t, nif, p) <==>
                c.natAll || exists e :: e in s.edges && e.0 == m && Owns(c, t, e.1, p.dst, p.outIf))
  {
    hide IfnameOf;
    var t := Next(c, s, Command.SetIp(m, p.src, typ));
    assert t.macs == s.macs[m := t.macs[m]] && t.macs[m].natFlag == c.natAll && p.src in Held(t.macs, m);
    forall n | n != m ensures p.src !in Held(t.macs, n) {
      assert Held(t.macs, n) == Held(s.macs, n);
    }
    hide Addresses, Next;
  }
}
