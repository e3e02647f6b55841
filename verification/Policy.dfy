/** The access policy the MAC table and the bridge edges stand for, and how table updates change it. */
module Policy {
  import opened Bytes
  import opened Options
  import opened Firewall
  import opened BridgeList

  /** struct mac_conn_info */
  datatype Info = Info(vlan: int, allow: bool, natFlag: bool, pass: seq<byte>, ip: Option<Ip>, sec: Option<Ip>,
                       ifname: string, deviceLabel: string, status: int, stamp: int)

  type Table = map<Mac, Info>

  function Addresses(i: Info): (r: set<Ip>)
  {
    (if i.ip.Some? then {i.ip.value} else {}) + (if i.sec.Some? then {i.sec.value} else {})
  }

  /** The addresses a MAC holds. */
  function Held(macs: Table, m: Mac): (r: set<Ip>) { if m in macs then Addresses(macs[m]) else {} }

  /** Address pairs of bridged MACs. */
  ghost function Linked(macs: Table, edges: set<Edge>): (r: set<(Ip, Ip)>)
  {
    set e, x, y | e in edges && x in Held(macs, e.0) && y in Held(macs, e.1) :: (x, y)
  }

  /** Addresses of MACs with the NAT flag. */
  ghost function Natted(macs: Table): (r: set<Ip>)
  {
    set m, x | m in macs && macs[m].natFlag && x in Addresses(macs[m]) :: x
  }

  /** Lease discipline: no address is held twice, and every held address is on a configured interface. */
  ghost predicate Leased(macs: Table, infos: seq<IfInfo>)
  {
    && (forall m, n :: m in macs && n in macs && m != n ==> Held(macs, m) !! Held(macs, n))
    && (forall m :: m in macs && macs[m].ip.Some? && macs[m].sec.Some? ==> macs[m].ip != macs[m].sec)
    && (forall m, x :: m in macs && x in Held(macs, m) ==> IfnameOf(infos, x).Some?)
  }

  /** All pairs between two address sets, in both directions. */
  ghost function Cross(a: set<Ip>, b: set<Ip>): (r: set<(Ip, Ip)>)
  {
    (set x, y | x in a && y in b :: (x, y)) + (set x, y | x in a && y in b :: (y, x))
  }

  /** Two MACs that share an address are one. */
  lemma Holder(macs: Table, infos: seq<IfInfo>, m: Mac, n: Mac, x: Ip)
    requires Leased(macs, infos) && x in Held(macs, m) && x in Held(macs, n)
    ensures m == n
  {
  }

  lemma LinkEdge(macs: Table, edges: set<Edge>, l: Mac, r: Mac)
    ensures Linked(macs, edges + {(l, r), (r, l)}) == Linked(macs, edges) + Cross(Held(macs, l), Held(macs, r))
  {
  }

  lemma UnlinkEdge(macs: Table, infos: seq<IfInfo>, edges: set<Edge>, l: Mac, r: Mac)
    requires Leased(macs, infos)
    ensures Linked(macs, edges - {(l, r), (r, l)}) == Linked(macs, edges) - Cross(Held(macs, l), Held(macs, r))
  {
  }

  /** The addresses of the MACs bridged with m. */
  ghost function Reach(macs: Table, edges: set<Edge>, m: Mac): (r: set<Ip>)
  {
    set e, y | e in edges && e.0 == m && y in Held(macs, e.1) :: y
  }

  lemma UpdateHeld(macs: Table, m: Mac, i: Info)
    ensures Held(macs[m := i], m) == Addresses(i)
    ensures forall n :: n != m ==> Held(macs[m := i], n) == Held(macs, n)
  {
  }

  ghost predicate Bridged(macs: Table, edges: set<Edge>, m: Mac, n: Mac, x: Ip, y: Ip)
  {
    (m, n) in edges && x in Held(macs, m) && y in Held(macs, n)
  }

  lemma LinkedBy(macs: Table, edges: set<Edge>, x: Ip, y: Ip)
    ensures (x, y) in Linked(macs, edges) <==> exists m: Mac, n: Mac :: Bridged(macs, edges, m, n, x, y)
  {
    hide Held;
    if (x, y) in Linked(macs, edges) {
      var e :| e in edges && x in Held(macs, e.0) && y in Held(macs, e.1);
      assert Bridged(macs, edges, e.0, e.1, x, y);
    }
    if m: Mac, n: Mac :| Bridged(macs, edges, m, n, x, y) {
      var e := (m, n);
    }
  }

  lemma ReachBy(macs: Table, edges: set<Edge>, m: Mac, y: Ip)
    ensures y in Reach(macs, edges, m) <==> exists n: Mac :: (m, n) in edges && y in Held(macs, n)
  {
  }

  lemma CrossOne(ip: Ip, b: set<Ip>, x: Ip, y: Ip)
    ensures (x, y) in Cross({ip}, b) <==> (x == ip && y in b) || (y == ip && x in b)
  {
  }

  lemma SameReach(macs: Table, edges: set<Edge>, m: Mac, i: Info)
    requires Proper(edges)
    ensures Reach(macs[m := i], edges, m) == Reach(macs, edges, m)
  {
    hide Held, Addresses;
    UpdateHeld(macs, m, i);
    forall y: Ip ensures y in Reach(macs[m := i], edges, m) <==> y in Reach(macs, edges, m) {
      ReachBy(macs, edges, m, y);
    }
  }

  /** A new address is linked to what is in reach, and nothing else changes. */
  lemma TakePair(macs: Table, edges: set<Edge>, m: Mac, i: Info, ip: Ip, x: Ip, y: Ip)
    requires Proper(edges) && Addresses(i) == Held(macs, m) + {ip}
    ensures (x, y) in Linked(macs[m := i], edges)
       <==> (x, y) in Linked(macs, edges) || (x, y) in Cross({ip}, Reach(macs, edges, m))
  {
    hide Held, Addresses, Linked, Reach, Cross;
    var after := macs[m := i];
    UpdateHeld(macs, m, i);
    LinkedBy(macs, edges, x, y);
    LinkedBy(after, edges, x, y);
    ReachBy(macs, edges, m, x);
    ReachBy(macs, edges, m, y);
    CrossOne(ip, Reach(macs, edges, m), x, y);
    if a: Mac, b: Mac :| Bridged(after, edges, a, b, x, y) {
      assert Bridged(macs, edges, a, b, x, y) || (a == m && x == ip) || (b == m && y == ip);
    }
    if a: Mac, b: Mac :| Bridged(macs, edges, a, b, x, y) {
      assert Bridged(after, edges, a, b, x, y);
    }
    if b: Mac :| x == ip && (m, b) in edges && y in Held(macs, b) {
      assert Bridged(after, edges, m, b, x, y);
    }
    if a: Mac :| y == ip && (m, a) in edges && x in Held(macs, a) {
      assert (a, m) in edges && Bridged(after, edges, a, m, x, y);
    }
  }

  lemma TakeAddress(macs: Table, edges: set<Edge>, m: Mac, i: Info, ip: Ip)
    requires Proper(edges) && Addresses(i) == Held(macs, m) + {ip}
    ensures Linked(macs[m := i], edges) == Linked(macs, edges) + Cross({ip}, Reach(macs, edges, m))
  {
    hide Held, Addresses, Linked, Reach, Cross, Proper;
    var after := Linked(macs, edges) + Cross({ip}, Reach(macs, edges, m));
    forall p: (Ip, Ip) ensures p in Linked(macs[m := i], edges) <==> p in after {
      TakePair(macs, edges, m, i, ip, p.0, p.1);
    }
  }

  /** Whoever holds an address, giving it up loses no link but those that are cut. */
  lemma DropKeeps(macs: Table, edges: set<Edge>, m: Mac, i: Info, ip: Ip, x: Ip, y: Ip)
    requires Proper(edges) && Addresses(i) == Held(macs, m) - {ip}
    ensures (x, y) in Linked(macs[m := i], edges) ==> (x, y) in Linked(macs, edges)
    ensures (x, y) in Linked(macs, edges) && (x, y) !in Cross({ip}, Reach(macs, edges, m)) ==>
              (x, y) in Linked(macs[m := i], edges)
  {
    hide Held, Addresses, Linked, Reach, Cross;
    var after := macs[m := i];
    UpdateHeld(macs, m, i);
    LinkedBy(macs, edges, x, y);
    LinkedBy(after, edges, x, y);
    ReachBy(macs, edges, m, x);
    ReachBy(macs, edges, m, y);
    CrossOne(ip, Reach(macs, edges, m), x, y);
    if a: Mac, b: Mac :| Bridged(after, edges, a, b, x, y) {
      assert Bridged(macs, edges, a, b, x, y);
    }
    if a: Mac, b: Mac :| Bridged(macs, edges, a, b, x, y) {
      assert Bridged(after, edges, a, b, x, y) || (a == m && x == ip) || (b == m && y == ip);
    }
  }

  /** No other holder of the address is bridged with a MAC that holds an address which m has in reach. */
  ghost predicate HeldAlone(macs: Table, edges: set<Edge>, m: Mac, i: Info, ip: Ip)
  {
    forall n: Mac, o: Mac ::
      (n, o) in edges && n != m && ip in Held(macs, n) ==> Held(macs[m := i], o) !! Reach(macs, edges, m)
  }

  /** Without lease discipline, cutting the links of an address that is given up is exactly right if it is held
      alone. */
  lemma DropExactIff(macs: Table, edges: set<Edge>, m: Mac, i: Info, ip: Ip)
    requires Proper(edges) && Addresses(i) == Held(macs, m) - {ip}
    ensures Linked(macs[m := i], edges) == Linked(macs, edges) - Cross({ip}, Reach(macs, edges, m)) <==>
            HeldAlone(macs, edges, m, i, ip)
  {
    hide Held, Addresses, Linked, Reach, Cross;
    var after, cut := macs[m := i], Cross({ip}, Reach(macs, edges, m));
    UpdateHeld(macs, m, i);
    forall p: (Ip, Ip)
      ensures p in Linked(after, edges) ==> p in Linked(macs, edges)
      ensures p in Linked(macs, edges) - cut ==> p in Linked(after, edges)
      ensures HeldAlone(macs, edges, m, i, ip) && p in Linked(after, edges) ==> p !in cut
    {
      DropKeeps(macs, edges, m, i, ip, p.0, p.1);
      CrossOne(ip, Reach(macs, edges, m), p.0, p.1);
      LinkedBy(after, edges, p.0, p.1);
    }
    forall n: Mac, o: Mac, y: Ip |
      (n, o) in edges && n != m && ip in Held(macs, n) && y in Held(after, o) && y in Reach(macs, edges, m)
      ensures (ip, y) in Linked(after, edges) && (ip, y) in cut
    {
      assert Bridged(after, edges, n, o, ip, y);
      LinkedBy(after, edges, ip, y);
      CrossOne(ip, Reach(macs, edges, m), ip, y);
    }
  }

  /** Without lease discipline, a natted MAC that gives an address up may take its NAT away exactly if no other natted
      MAC holds it. */
  lemma DropNatIff(macs: Table, m: Mac, i: Info, ip: Ip)
    requires m in macs && macs[m].natFlag && i.natFlag && Addresses(i) == Addresses(macs[m]) - {ip}
    ensures Natted(macs[m := i]) == Natted(macs) - {ip} <==>
            forall n :: n in macs && n != m && macs[n].natFlag ==> ip !in Addresses(macs[n])
  {
    hide Addresses;
    var after := macs[m := i];
    if n :| n in macs && n != m && macs[n].natFlag && ip in Addresses(macs[n]) {
      assert n in after && after[n] == macs[n] && ip in Natted(after);
    } else {
      forall x | x in Natted(macs) - {ip} ensures x in Natted(after) {
        var n :| n in macs && macs[n].natFlag && x in Addresses(macs[n]);
        assert n in after && after[n].natFlag && x in Addresses(after[n]);
      }
      forall x | x in Natted(after) ensures x in Natted(macs) - {ip} {
        var n :| n in after && after[n].natFlag && x in Addresses(after[n]);
        assert n in macs && macs[n].natFlag && x in Addresses(macs[n]);
      }
    }
  }

  /** Giving an address up that nobody else holds unlinks exactly that address. */
  lemma DropAddress(macs: Table, edges: set<Edge>, m: Mac, i: Info, ip: Ip)
    requires Proper(edges) && Addresses(i) == Held(macs, m) - {ip}
    requires forall n :: n != m ==> ip !in Held(macs, n)
    ensures Linked(macs[m := i], edges) == Linked(macs, edges) - Cross({ip}, Reach(macs, edges, m))
  {
    hide Held, Addresses, Linked, Reach, Cross, Proper;
    DropExactIff(macs, edges, m, i, ip);
  }

  /** Two MACs with address 7, both bridged with a third: when one gives the address up, the other loses its link. */
  lemma SharedLease(i: Info)
    requires i.ip.None? && i.sec.None?
    ensures var macs := map[1 := i.(ip := Some(7)), 2 := i.(ip := Some(7)), 3 := i.(ip := Some(9))];
            var edges := {(1, 3), (3, 1), (2, 3), (3, 2)};
            && Proper(edges) && (7, 9) in Linked(macs[1 := i], edges)
            && (7, 9) !in Linked(macs, edges) - Cross({7}, Reach(macs, edges, 1))
  {
    hide Linked, Reach, Cross;
    var macs: Table := map[1 := i.(ip := Some(7)), 2 := i.(ip := Some(7)), 3 := i.(ip := Some(9))];
    var edges: set<Edge> := {(1, 3), (3, 1), (2, 3), (3, 2)};
    assert Bridged(macs[1 := i], edges, 2, 3, 7, 9);
    LinkedBy(macs[1 := i], edges, 7, 9);
    assert (1, 3) in edges && 9 in Held(macs, 3);
    ReachBy(macs, edges, 1, 9);
    CrossOne(7, Reach(macs, edges, 1), 7, 9);
  }

  /** The natted addresses after an entry is replaced. */
  lemma NattedUpdate(macs: Table, infos: seq<IfInfo>, m: Mac, i: Info)
    requires Leased(macs, infos)
    ensures Natted(macs[m := i]) == Natted(macs) - Held(macs, m) + (if i.natFlag then Addresses(i) else {})
  {
    hide Addresses;
    var after := macs[m := i];
    forall x | x in Natted(macs) && x !in Held(macs, m) ensures x in Natted(after) {
      var n :| n in macs && macs[n].natFlag && x in Addresses(macs[n]);
      assert n != m && n in after && after[n] == macs[n];
    }
    forall x | x in Natted(after) ensures x in Natted(macs) - Held(macs, m) + (if i.natFlag then Addresses(i) else {}) {
      var n :| n in after && after[n].natFlag && x in Addresses(after[n]);
      if n != m && x in Held(macs, m) {
        Holder(macs, infos, n, m, x);
      }
    }
    if i.natFlag {
      assert m in after && after[m] == i;
    }
  }

  /** Replacing an entry by one with the same addresses changes no link and keeps the lease discipline. */
  lemma SameAddresses(macs: Table, infos: seq<IfInfo>, edges: set<Edge>, m: Mac, i: Info)
    requires Leased(macs, infos) && Addresses(i) == Held(macs, m)
    requires i.ip.Some? && i.sec.Some? ==> i.ip != i.sec
    ensures Linked(macs[m := i], edges) == Linked(macs, edges) && Leased(macs[m := i], infos)
  {
    var after := macs[m := i];
    assert forall n :: Held(after, n) == Held(macs, n);
  }
}
