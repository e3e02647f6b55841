/** The FORWARD and POSTROUTING chains iptables.c edits by rule number. */
module Iptables {
  import opened Bytes

  /** "0.0.0.0/0", "224.0.0.0/4" or a host address. */
  datatype AddrPat = AnyAddr | MulticastNet | Host(ip: Ip)

  /** "*" or an interface name. */
  datatype IfPat = AnyIf | Named(name: string)

  datatype Target = Accept | Reject | Masquerade

  datatype Rule = Rule(target: Target, inIf: IfPat, outIf: IfPat, src: AddrPat, dst: AddrPat)

  datatype Packet = Packet(src: Ip, dst: Ip, inIf: string, outIf: string)

  /** An address and the interface its subnet is on. */
  datatype End = End(ip: Ip, ifname: string)

  predicate IsMulticast(ip: Ip) { 0xe000_0000 <= ip < 0xf000_0000 }

  predicate AddrMatches(p: AddrPat, ip: Ip)
  {
    p.AnyAddr? || (p.MulticastNet? && IsMulticast(ip)) || p == Host(ip)
  }

  predicate IfMatches(p: IfPat, name: string) { p.AnyIf? || p == Named(name) }

  predicate Matches(r: Rule, p: Packet)
  {
    && IfMatches(r.inIf, p.inIf) && IfMatches(r.outIf, p.outIf)
    && AddrMatches(r.src, p.src) && AddrMatches(r.dst, p.dst)
  }

  /** First match wins; the chain policy is ACCEPT. */
  function Eval(chain: seq<Rule>, p: Packet): (r: Target)
    decreases |chain|
  {
    if chain == [] then Accept
    else if Matches(chain[0], p) then chain[0].target
    else Eval(chain[1..], p)
  }

  const MULTICAST := Rule(Accept, AnyIf, AnyIf, MulticastNet, MulticastNet)

  function RejectRule(ifname: string): Rule { Rule(Reject, Named(ifname), AnyIf, AnyAddr, AnyAddr) }

  function BridgeRule(a: End, b: End): Rule
  {
    Rule(Accept, Named(a.ifname), Named(b.ifname), Host(a.ip), Host(b.ip))
  }

  /** From a natted end to anywhere behind the NAT interface, and back. */
  function NatOut(a: End, nif: string): Rule { Rule(Accept, Named(a.ifname), Named(nif), Host(a.ip), AnyAddr) }

  function NatIn(a: End, nif: string): Rule { Rule(Accept, Named(nif), Named(a.ifname), AnyAddr, Host(a.ip)) }

  /** The rule names the source address, not the interface it comes in by. */
  function MasqueradeRule(ip: Ip, nif: string): Rule { Rule(Masquerade, AnyIf, Named(nif), Host(ip), AnyAddr) }

  predicate NoDuplicates(chain: seq<Rule>) { forall i, j :: 0 <= i < j < |chain| ==> chain[i] != chain[j] }

  /** Every ACCEPT for an interface, or for all of them, comes before the REJECT of that interface. */
  predicate AcceptsFirst(chain: seq<Rule>)
  {
    forall i, j | 0 <= i < |chain| && 0 <= j < |chain| && chain[i].target == Reject && chain[j].target == Accept &&
                  (chain[j].inIf == chain[i].inIf || chain[j].inIf == AnyIf) :: j < i
  }

  /** The rules the program puts into FORWARD. */
  predicate Known(r: Rule, ifs: set<string>)
  {
    r == MULTICAST || (r.target == Accept && r.inIf.Named?) || (exists i :: i in ifs && r == RejectRule(i))
  }

  ghost predicate Ordered(chain: seq<Rule>, ifs: set<string>)
  {
    && AcceptsFirst(chain) && MULTICAST in chain && (forall i :: i in ifs ==> RejectRule(i) in chain)
    && (forall r :: r in chain ==> Known(r, ifs))
  }

  /** -I FORWARD n */
  function InsertAt(chain: seq<Rule>, n: nat, r: Rule): (c: seq<Rule>)
    requires 1 <= n <= |chain| + 1
  {
    chain[..n - 1] + [r] + chain[n - 1..]
  }

  /** -D FORWARD n */
  function DeleteAt(chain: seq<Rule>, n: nat): (c: seq<Rule>)
    requires 1 <= n <= |chain|
  {
    chain[..n - 1] + chain[n..]
  }

  lemma InsertBag(chain: seq<Rule>, n: nat, r: Rule)
    requires 1 <= n <= |chain| + 1
    ensures multiset(InsertAt(chain, n, r)) == multiset(chain) + multiset{r}
  {
    assert chain == chain[..n - 1] + chain[n - 1..];
  }

  lemma DeleteBag(chain: seq<Rule>, n: nat)
    requires 1 <= n <= |chain|
    ensures multiset(DeleteAt(chain, n)) == multiset(chain) - multiset{chain[n - 1]}
  {
    assert chain == chain[..n - 1] + [chain[n - 1]] + chain[n..];
  }

  lemma DeleteKeepsOrder(chain: seq<Rule>, n: nat)
    requires 1 <= n <= |chain| && AcceptsFirst(chain)
    ensures AcceptsFirst(DeleteAt(chain, n))
  {
  }

  /** An ACCEPT inserted at or before the REJECT of its interface stays in front of it. */
  lemma InsertKeepsOrder(chain: seq<Rule>, n: nat, r: Rule)
    requires 1 <= n <= |chain| + 1 && AcceptsFirst(chain) && r.target == Accept
    requires forall i :: 0 <= i < n - 1 && chain[i].target == Reject ==> chain[i].inIf != r.inIf && r.inIf != AnyIf
    ensures AcceptsFirst(InsertAt(chain, n, r))
  {
  }

  lemma {:induction false} FirstMatch(chain: seq<Rule>, p: Packet) returns (k: nat)
    requires exists r :: r in chain && Matches(r, p)
    ensures k < |chain| && Matches(chain[k], p) && Eval(chain, p) == chain[k].target
    ensures forall i :: 0 <= i < k ==> !Matches(chain[i], p)
    decreases |chain|
  {
    if Matches(chain[0], p) {
      k := 0;
    } else {
      k := FirstMatch(chain[1..], p);
      k := k + 1;
    }
  }

  predicate Unicast(p: Packet) { !(IsMulticast(p.src) && IsMulticast(p.dst)) }

  /** A unicast packet entering a configured interface is accepted exactly when some ACCEPT rule matches it. */
  lemma AcceptedIff(chain: seq<Rule>, ifs: set<string>, p: Packet)
    requires Ordered(chain, ifs) && p.inIf in ifs && Unicast(p)
    ensures Eval(chain, p) == Accept <==> exists r :: r in chain && r.target == Accept && Matches(r, p)
  {
    var k := FirstMatch(chain, p);
    assert Known(chain[k], ifs);
  }

  /** Multicast always passes: its rule is ahead of every REJECT. */
  lemma MulticastAccepted(chain: seq<Rule>, ifs: set<string>, p: Packet)
    requires Ordered(chain, ifs)
    requires 0xe000_0000 <= p.src < 0xf000_0000 && 0xe000_0000 <= p.dst < 0xf000_0000
    ensures Eval(chain, p) == Accept
  {
    assert Matches(MULTICAST, p);
    var k := FirstMatch(chain, p);
    assert Known(chain[k], ifs);
    var j :| 0 <= j < |chain| && chain[j] == MULTICAST;
  }

  /** The policy: bridged pairs, and natted ends from and towards the NAT interface. */
  ghost predicate Allows(bridges: set<(End, End)>, nats: set<End>, nif: string, p: Packet)
  {
    var a, b := End(p.src, p.inIf), End(p.dst, p.outIf);
    (a, b) in bridges || (a in nats && p.outIf == nif) || (b in nats && p.inIf == nif)
  }

  /** No REJECT matches a packet from an interface that is not configured, so the chain policy lets it pass. */
  lemma OutsideAccepted(chain: seq<Rule>, ifs: set<string>, p: Packet)
    requires Ordered(chain, ifs) && p.inIf !in ifs
    ensures Eval(chain, p) == Accept
  {
    forall r | r in chain && Matches(r, p) ensures r.target == Accept {
      assert Known(r, ifs);
    }
    AllAccept(chain, p);
  }

  lemma {:induction false} AllAccept(chain: seq<Rule>, p: Packet)
    requires forall r :: r in chain && Matches(r, p) ==> r.target == Accept
    ensures Eval(chain, p) == Accept
    decreases |chain|
  {
    if chain != [] {
      assert chain[0] in chain;
      AllAccept(chain[1..], p);
    }
  }

  ghost function BridgeRules(bridges: set<(End, End)>): (r: set<Rule>) { set e | e in bridges :: BridgeRule(e.0, e.1) }

  /** The rules of ends bridged with themselves, which the program adds once for each direction. */
  ghost function SelfRules(bridges: set<(End, End)>): (r: set<Rule>)
  {
    set e | e in bridges && e.0 == e.1 :: BridgeRule(e.0, e.1)
  }

  ghost function NatRules(nats: set<End>, nif: string): (r: set<Rule>)
  {
    (set a | a in nats :: NatOut(a, nif)) + (set a | a in nats :: NatIn(a, nif))
  }

  ghost function BaseRules(ifs: set<string>): (r: set<Rule>) { {MULTICAST} + (set i | i in ifs :: RejectRule(i)) }

  ghost function Rules(ifs: set<string>, nif: string, bridges: set<(End, End)>, nats: set<End>): (r: set<Rule>)
  {
    BaseRules(ifs) + BridgeRules(bridges) + NatRules(nats, nif)
  }

  /** Every rule once, those of ends bridged with themselves twice. */
  ghost function Bag(ifs: set<string>, nif: string, bridges: set<(End, End)>, nats: set<End>): (r: multiset<Rule>)
  {
    multiset(Rules(ifs, nif, bridges, nats)) + multiset(SelfRules(bridges))
  }

  ghost predicate Enforces(chain: seq<Rule>, ifs: set<string>, nif: string, bridges: set<(End, End)>, nats: set<End>)
  {
    Ordered(chain, ifs) && multiset(chain) == Bag(ifs, nif, bridges, nats)
  }

  lemma EnforcedRules(chain: seq<Rule>, ifs: set<string>, nif: string, bridges: set<(End, End)>, nats: set<End>)
    requires Enforces(chain, ifs, nif, bridges, nats)
    ensures forall r :: r in chain <==> r in Rules(ifs, nif, bridges, nats)
  {
    hide Ordered, BaseRules, NatRules;
    forall r ensures r in chain <==> r in Rules(ifs, nif, bridges, nats) {
      assert r in chain <==> r in multiset(chain);
      assert r in SelfRules(bridges) ==> r in BridgeRules(bridges);
    }
  }

  lemma {:induction false} CountsOne(chain: seq<Rule>)
    ensures NoDuplicates(chain) <==> forall r :: multiset(chain)[r] <= 1
    decreases |chain|
  {
    if chain != [] {
      var n := |chain| - 1;
      var init, last := chain[..n], chain[n];
      CountsOne(init);
      assert chain == init + [last];
      assert multiset(chain) == multiset(init) + multiset{last};
      if NoDuplicates(chain) {
        assert last !in multiset(init);
      } else if NoDuplicates(init) {
        assert last in init;
        assert multiset(chain)[last] > 1;
      } else {
        var r :| multiset(init)[r] > 1;
        assert multiset(chain)[r] > 1;
      }
    }
  }

  /** No rule is there twice exactly as long as no end is bridged with itself. */
  lemma DuplicateFree(chain: seq<Rule>, ifs: set<string>, nif: string, bridges: set<(End, End)>, nats: set<End>)
    requires Enforces(chain, ifs, nif, bridges, nats)
    ensures NoDuplicates(chain) <==> forall e :: e in bridges ==> e.0 != e.1
  {
    hide Ordered, BaseRules, NatRules, NoDuplicates;
    CountsOne(chain);
    if e :| e in bridges && e.0 == e.1 {
      var r := BridgeRule(e.0, e.1);
      assert r in SelfRules(bridges) && r in Rules(ifs, nif, bridges, nats);
      assert multiset(chain)[r] == 2;
    } else {
      assert SelfRules(bridges) == {};
    }
  }

  lemma MatchAllows(bridges: set<(End, End)>, nats: set<End>, nif: string, r: Rule, p: Packet)
    requires r in BridgeRules(bridges) + NatRules(nats, nif) && Matches(r, p)
    ensures Allows(bridges, nats, nif, p)
  {
  }

  lemma AllowsMatch(bridges: set<(End, End)>, nats: set<End>, nif: string, p: Packet) returns (r: Rule)
    requires Allows(bridges, nats, nif, p)
    ensures r in BridgeRules(bridges) + NatRules(nats, nif) && r.target == Accept && Matches(r, p)
  {
    var a, b := End(p.src, p.inIf), End(p.dst, p.outIf);
    r := if (a, b) in bridges then BridgeRule(a, b)
         else if a in nats && p.outIf == nif then NatOut(a, nif)
         else NatIn(b, nif);
  }

  /** The chain denotes the policy, packet by packet. */
  lemma PolicyExact(chain: seq<Rule>, ifs: set<string>, nif: string, bridges: set<(End, End)>, nats: set<End>,
                    p: Packet)
    requires Enforces(chain, ifs, nif, bridges, nats) && p.inIf in ifs && Unicast(p)
    ensures Eval(chain, p) == Accept <==> Allows(bridges, nats, nif, p)
  {
    AcceptedIff(chain, ifs, p);
    EnforcedRules(chain, ifs, nif, bridges, nats);
    hide Ordered, Eval, BridgeRules, NatRules, Allows, Bag;
    if Allows(bridges, nats, nif, p) {
      var r := AllowsMatch(bridges, nats, nif, p);
      assert r in Rules(ifs, nif, bridges, nats);
    }
    forall r | r in chain && r.target == Accept && Matches(r, p) ensures Allows(bridges, nats, nif, p) {
      assert r !in BaseRules(ifs);
      MatchAllows(bridges, nats, nif, r, p);
    }
  }

  /** The MASQUERADE rules of some source addresses. */
  ghost function Masks(ips: set<Ip>, nif: string): (r: set<Rule>) { set ip | ip in ips :: MasqueradeRule(ip, nif) }

  /** POSTROUTING masquerades exactly what leaves by the NAT interface from one of these addresses. */
  lemma MaskedIff(chain: seq<Rule>, ips: set<Ip>, nif: string, p: Packet)
    requires multiset(chain) == multiset(Masks(ips, nif))
    ensures (exists r :: r in chain && Matches(r, p)) <==> p.src in ips && p.outIf == nif
  {
    forall r ensures r in chain <==> r in Masks(ips, nif) {
      assert r in chain <==> r in multiset(chain);
    }
    if p.src in ips && p.outIf == nif {
      assert MasqueradeRule(p.src, nif) in chain && Matches(MasqueradeRule(p.src, nif), p);
    }
  }

  /** find_rule: the number of the first rule with these columns, or zero. */
  method FindRule(list: seq<Rule>, r: Rule) returns (num: nat)
    ensures num == 0 <==> r !in list
    ensures num > 0 ==> num <= |list| && list[num - 1] == r && r !in list[..num - 1]
  {
    var i := 0;
    while i < |list|
      invariant 0 <= i <= |list| && r !in list[..i]
    {
      if list[i] == r {
        return i + 1;
      }
      i := i + 1;
    }
    num := 0;
  }

  /** find_baseif_rulenum: the number of the first REJECT for an interface, or zero. */
  method FindBaseif(list: seq<Rule>, ifname: string) returns (num: nat)
    ensures num <= |list|
    ensures forall i :: 0 <= i < (if num == 0 then |list| else num - 1) ==>
              !(list[i].inIf == Named(ifname) && list[i].outIf == AnyIf && list[i].target == Reject)
    ensures num > 0 ==> list[num - 1].inIf == Named(ifname) && list[num - 1].target == Reject
  {
    var i := 0;
    while i < |list|
      invariant 0 <= i <= |list|
      invariant forall j :: 0 <= j < i ==>
                  !(list[j].inIf == Named(ifname) && list[j].outIf == AnyIf && list[j].target == Reject)
    {
      if list[i].inIf == Named(ifname) && list[i].outIf == AnyIf && list[i].target == Reject {
        return i + 1;
      }
      i := i + 1;
    }
    num := 0;
  }

  /** The two chains, the listing buffer, and what they are meant to enforce. */
  class Context {
    var forward: seq<Rule>
    var postrouting: seq<Rule>
    var ruleList: seq<Rule>
    const ifnames: seq<string>
    const nif: string
    ghost var bridges: set<(End, End)>
    ghost var nats: set<End>
    ghost var masked: set<Ip>

    ghost function Ifs(): (r: set<string>) { set i | i in ifnames }

    /** What FORWARD and POSTROUTING carry. */
    ghost function Carried(): (p: NetPolicy)
      reads this
    {
      NetPolicy(bridges, nats, masked)
    }

    ghost predicate Valid()
      reads this
    {
      && Enforces(forward, Ifs(), nif, bridges, nats)
      && multiset(postrouting) == multiset(Masks(masked, nif))
    }

    /** iptables_init: flush, the multicast rule, one REJECT per configured interface. */
    constructor (ifnames: seq<string>, nif: string)
      requires forall i, j :: 0 <= i < j < |ifnames| ==> ifnames[i] != ifnames[j]
      ensures Valid() && Carried() == NetPolicy({}, {}, {})
      ensures this.ifnames == ifnames && this.nif == nif
    {
      this.ifnames, this.nif := ifnames, nif;
      var chain := BaseChain(ifnames, nif);
      forward, postrouting, ruleList := chain, [], [];
      bridges, nats, masked := {}, {}, {};
    }

    /** delete_bridge_rule: list, find by columns, delete by number. */
    method DeleteRule(r: Rule)
      requires Ordered(forward, Ifs()) && r.target == Accept && r != MULTICAST
      modifies this`forward, this`ruleList
      ensures Ordered(forward, Ifs()) && multiset(forward) == old(multiset(forward)) - multiset{r}
    {
      ruleList := forward;
      var num := FindRule(ruleList, r);
      if num != 0 {
        DeleteBag(forward, num);
        DeleteKeepsOrder(forward, num);
        KeepsOrdered(forward, DeleteAt(forward, num), Ifs(), r);
        forward := DeleteAt(forward, num);
      }
    }

    /** add_bridge_rule: insert in front of the REJECT of the source interface, or at the head. */
    method AddRule(r: Rule)
      requires Ordered(forward, Ifs()) && r.target == Accept && r.inIf.Named?
      modifies this`forward, this`ruleList
      ensures Ordered(forward, Ifs()) && multiset(forward) == old(multiset(forward)) + multiset{r}
    {
      ruleList := forward;
      var num := FindBaseif(ruleList, r.inIf.name);
      RejectsAreBase(forward, Ifs());
      if num == 0 {
        num := 1;
      }
      InsertBag(forward, num, r);
      InsertKeepsOrder(forward, num, r);
      KeepsOrdered(forward, InsertAt(forward, num, r), Ifs(), r);
      forward := InsertAt(forward, num, r);
    }

    /** The rule goes to the head of FORWARD. */
    method Prepend(r: Rule)
      requires Ordered(forward, Ifs()) && r.target == Accept && r.inIf.Named?
      modifies this`forward
      ensures Ordered(forward, Ifs()) && multiset(forward) == old(multiset(forward)) + multiset{r}
    {
      InsertBag(forward, 1, r);
      InsertKeepsOrder(forward, 1, r);
      KeepsOrdered(forward, InsertAt(forward, 1, r), Ifs(), r);
      forward := InsertAt(forward, 1, r);
    }

    /** iptables_delete_bridge: both directions, present or not. */
    method DeleteBridge(a: End, b: End)
      requires Valid()
      modifies this`forward, this`ruleList, this`bridges
      ensures Valid() && bridges == old(bridges) - {(a, b), (b, a)}
    {
      hide Enforces, Masks;
      DropPair(a, b);
    }

    method DropPair(a: End, b: End)
      requires Enforces(forward, Ifs(), nif, bridges, nats)
      modifies this`forward, this`ruleList, this`bridges
      ensures Enforces(forward, Ifs(), nif, bridges, nats) && bridges == old(bridges) - {(a, b), (b, a)}
    {
      hide Ordered, Bag, BridgeRules, NatRules, BaseRules;
      PairLess(Ifs(), nif, bridges, nats, a, b);
      DeleteRule(BridgeRule(a, b));
      DeleteRule(BridgeRule(b, a));
      bridges := bridges - {(a, b), (b, a)};
    }

    /** iptables_add_bridge: delete both directions if present, then add both. */
    method AddBridge(a: End, b: End)
      requires Valid()
      modifies this`forward, this`ruleList, this`bridges
      ensures Valid() && bridges == old(bridges) + {(a, b), (b, a)}
    {
      hide Ordered, Bag, Masks;
      DeleteBridge(a, b);
      PairMore(Ifs(), nif, bridges, nats, a, b);
      AddRule(BridgeRule(a, b));
      AddRule(BridgeRule(b, a));
      bridges := bridges + {(a, b), (b, a)};
    }

    /** iptables_delete_nat: both FORWARD directions, then the MASQUERADE rule of the address. */
    method DeleteNat(a: End)
      requires Valid()
      modifies this`forward, this`postrouting, this`ruleList, this`nats, this`masked
      ensures Valid() && nats == old(nats) - {a} && masked == old(masked) - {a.ip}
    {
      hide Enforces, Masks;
      DropNat(a);
      Unmask(a.ip);
    }

    method DropNat(a: End)
      requires Enforces(forward, Ifs(), nif, bridges, nats)
      modifies this`forward, this`ruleList, this`nats
      ensures Enforces(forward, Ifs(), nif, bridges, nats) && nats == old(nats) - {a}
    {
      hide Ordered, Bag;
      NatLess(Ifs(), nif, bridges, nats, a);
      DeleteRule(NatOut(a, nif));
      DeleteRule(NatIn(a, nif));
      nats := nats - {a};
    }

    /** The MASQUERADE rule of an address, found by its columns and deleted by number. */
    method Unmask(ip: Ip)
      requires multiset(postrouting) == multiset(Masks(masked, nif))
      modifies this`postrouting, this`ruleList, this`masked
      ensures multiset(postrouting) == multiset(Masks(masked, nif)) && masked == old(masked) - {ip}
    {
      hide Masks;
      MaskBag(masked, nif, ip);
      ruleList := postrouting;
      var num := FindRule(ruleList, MasqueradeRule(ip, nif));
      if num != 0 {
        DeleteBag(postrouting, num);
        postrouting := DeleteAt(postrouting, num);
      }
      masked := masked - {ip};
    }

    /** iptables_add_nat: delete what is there, then the outgoing rule before the REJECT, the incoming one and the
        MASQUERADE rule at the head. */
    method AddNat(a: End)
      requires Valid()
      modifies this`forward, this`postrouting, this`ruleList, this`nats, this`masked
      ensures Valid() && nats == old(nats) + {a} && masked == old(masked) + {a.ip}
    {
      hide Ordered, Bag, Masks;
      DeleteNat(a);
      NatMore(Ifs(), nif, bridges, nats, a);
      MaskBag(masked, nif, a.ip);
      AddRule(NatOut(a, nif));
      Prepend(NatIn(a, nif));
      InsertBag(postrouting, 1, MasqueradeRule(a.ip, nif));
      postrouting := InsertAt(postrouting, 1, MasqueradeRule(a.ip, nif));
      nats, masked := nats + {a}, masked + {a.ip};
    }

    /** Any run of operations. */
    method Run(ops: seq<Operation>)
      requires Valid()
      modifies this
      ensures Valid() && Carried() == PolicyAfter(ops, old(Carried()))
    {
      hide Enforces, Masks;
      var i := 0;
      assert ops[0..] == ops;
      while i < |ops|
        invariant 0 <= i <= |ops| && Valid()
        invariant PolicyAfter(ops[i..], Carried()) == PolicyAfter(ops, old(Carried()))
      {
        assert ops[i..][0] == ops[i] && ops[i..][1..] == ops[i + 1..];
        match ops[i] {
          case BridgeOn(a, b) => AddBridge(a, b);
          case BridgeOff(a, b) => DeleteBridge(a, b);
          case NatOn(a) => AddNat(a);
          case NatOff(a) => DeleteNat(a);
        }
        i := i + 1;
      }
    }
  }

  datatype Operation = BridgeOn(a: End, b: End) | BridgeOff(a: End, b: End) | NatOn(a: End) | NatOff(a: End)

  /** Bridged pairs and natted ends in FORWARD, masqueraded addresses in POSTROUTING. */
  datatype NetPolicy = NetPolicy(bridges: set<(End, End)>, nats: set<End>, masked: set<Ip>)

  /** What an operation means for the policy. */
  function Applied(o: Operation, p: NetPolicy): (r: NetPolicy)
  {
    match o
    case BridgeOn(a, b) => p.(bridges := p.bridges + {(a, b), (b, a)})
    case BridgeOff(a, b) => p.(bridges := p.bridges - {(a, b), (b, a)})
    case NatOn(a) => p.(nats := p.nats + {a}, masked := p.masked + {a.ip})
    case NatOff(a) => p.(nats := p.nats - {a}, masked := p.masked - {a.ip})
  }

  function PolicyAfter(ops: seq<Operation>, p: NetPolicy): (r: NetPolicy)
    decreases |ops|
  {
    if ops == [] then p else PolicyAfter(ops[1..], Applied(ops[0], p))
  }

  /** Masqueraded are the addresses of the natted ends. */
  predicate MaskExact(p: NetPolicy) { p.masked == set a | a in p.nats :: a.ip }

  /** The masquerading stays exact with every operation except one: taking the NAT from an end is right if and only if
      no other natted end has its address. */
  lemma MaskExactIff(p: NetPolicy, o: Operation)
    requires MaskExact(p)
    ensures MaskExact(Applied(o, p)) <==> (o.NatOff? ==> forall c :: c in p.nats && c.ip == o.a.ip ==> c == o.a)
  {
    var q := Applied(o, p);
    if o.NatOff? {
      if c :| c in p.nats && c.ip == o.a.ip && c != o.a {
        assert c in q.nats && c.ip !in q.masked;
      }
    }
  }

  /** One address on two interfaces: taking the NAT from one end stops the masquerading of the other. */
  lemma SharedAddress(x: Ip)
    ensures var one, two := End(x, "if1"), End(x, "if2");
            var p := PolicyAfter([NatOn(one), NatOn(two), NatOff(two)], NetPolicy({}, {}, {}));
            p.nats == {one} && p.masked == {} && !MaskExact(p)
  {
    var one, two := End(x, "if1"), End(x, "if2");
    var start := NetPolicy({}, {}, {});
    var p1 := Applied(NatOn(one), start);
    var p2 := Applied(NatOn(two), p1);
    var p3 := Applied(NatOff(two), p2);
    var ops := [NatOn(one), NatOn(two), NatOff(two)];
    assert PolicyAfter(ops, start) == PolicyAfter(ops[1..], p1);
    assert PolicyAfter(ops[1..], p1) == PolicyAfter(ops[1..][1..], p2);
    assert PolicyAfter(ops[1..][1..], p2) == PolicyAfter([], p3);
    assert "if1"[2] != "if2"[2];
    assert one in p3.nats;
  }

  /** Where an address is on one interface only, the masquerading is exact after every run. */
  lemma {:induction false} OneInterfaceEach(ops: seq<Operation>, p: NetPolicy, ifOf: Ip -> string)
    requires MaskExact(p) && (forall a :: a in p.nats ==> a.ifname == ifOf(a.ip))
    requires forall o :: o in ops && (o.NatOn? || o.NatOff?) ==> o.a.ifname == ifOf(o.a.ip)
    ensures MaskExact(PolicyAfter(ops, p))
    decreases |ops|
  {
    if ops != [] {
      MaskExactIff(p, ops[0]);
      assert ops[0] in ops;
      OneInterfaceEach(ops[1..], Applied(ops[0], p), ifOf);
    }
  }

  lemma RejectsAreBase(chain: seq<Rule>, ifs: set<string>)
    requires Ordered(chain, ifs)
    ensures forall i :: 0 <= i < |chain| && chain[i].target == Reject ==> chain[i].outIf == AnyIf
  {
    forall i | 0 <= i < |chain| && chain[i].target == Reject ensures chain[i].outIf == AnyIf {
      assert chain[i] in chain;
    }
  }

  /** One ACCEPT that is no base rule may come or go. */
  lemma KeepsOrdered(c: seq<Rule>, d: seq<Rule>, ifs: set<string>, r: Rule)
    requires Ordered(c, ifs) && AcceptsFirst(d) && r.target == Accept && r != MULTICAST
    requires multiset(d) == multiset(c) - multiset{r} || (multiset(d) == multiset(c) + multiset{r} && r.inIf.Named?)
    ensures Ordered(d, ifs)
  {
    forall x: Rule | x != r ensures x in c <==> x in d {
      assert x in multiset(c) <==> x in multiset(d);
    }
    forall x | x in d ensures Known(x, ifs) {
      assert x in multiset(d);
    }
    assert RejectRule("").target == Reject;
  }

  /** Removing both directions of a pair; for an end bridged with itself that is the same rule twice. */
  lemma PairLess(ifs: set<string>, nif: string, bridges: set<(End, End)>, nats: set<End>, a: End, b: End)
    ensures Bag(ifs, nif, bridges - {(a, b), (b, a)}, nats) ==
            Bag(ifs, nif, bridges, nats) - multiset{BridgeRule(a, b)} - multiset{BridgeRule(b, a)}
  {
    PairRules(ifs, nif, bridges, nats, a, b);
    PairMembers(ifs, nif, bridges, nats, a, b);
    DistinctRules(a, b);
    hide Rules, SelfRules, BridgeRule;
    var all, own := Rules(ifs, nif, bridges, nats), SelfRules(bridges);
    if a == b {
      OneRule(BridgeRule(a, b));
      TwiceLess(all, own, BridgeRule(a, b));
    } else {
      ApartLess(all, own, BridgeRule(a, b), BridgeRule(b, a));
    }
  }

  /** Adding both directions of a pair that is not there. */
  lemma PairMore(ifs: set<string>, nif: string, bridges: set<(End, End)>, nats: set<End>, a: End, b: End)
    requires (a, b) !in bridges && (b, a) !in bridges
    ensures Bag(ifs, nif, bridges + {(a, b), (b, a)}, nats) ==
            Bag(ifs, nif, bridges, nats) + multiset{BridgeRule(a, b)} + multiset{BridgeRule(b, a)}
  {
    PairRules(ifs, nif, bridges, nats, a, b);
    PairMembers(ifs, nif, bridges, nats, a, b);
    DistinctRules(a, b);
    hide Rules, SelfRules, BridgeRule;
    var all, own := Rules(ifs, nif, bridges, nats), SelfRules(bridges);
    if a == b {
      OneRule(BridgeRule(a, b));
      TwiceMore(all, own, BridgeRule(a, b));
    } else {
      ApartMore(all, own, BridgeRule(a, b), BridgeRule(b, a));
    }
  }

  lemma OneRule(r: Rule)
    ensures {r, r} == {r}
  {
  }

  lemma DistinctRules(a: End, b: End)
    ensures BridgeRule(a, b) == BridgeRule(b, a) <==> a == b
  {
  }

  lemma TwiceLess(all: set<Rule>, own: set<Rule>, r: Rule)
    requires r in all <==> r in own
    ensures multiset(all - {r}) + multiset(own - {r}) == multiset(all) + multiset(own) - multiset{r} - multiset{r}
  {
  }

  lemma TwiceMore(all: set<Rule>, own: set<Rule>, r: Rule)
    requires r !in all && r !in own
    ensures multiset(all + {r}) + multiset(own + {r}) == multiset(all) + multiset(own) + multiset{r} + multiset{r}
  {
  }

  lemma ApartLess(all: set<Rule>, own: set<Rule>, r: Rule, q: Rule)
    requires r != q && r !in own && q !in own
    ensures multiset(all - {r, q}) + multiset(own) == multiset(all) + multiset(own) - multiset{r} - multiset{q}
  {
  }

  lemma ApartMore(all: set<Rule>, own: set<Rule>, r: Rule, q: Rule)
    requires r != q && r !in all && q !in all
    ensures multiset(all + {r, q}) + multiset(own) == multiset(all) + multiset(own) + multiset{r} + multiset{q}
  {
  }

  lemma PairMembers(ifs: set<string>, nif: string, bridges: set<(End, End)>, nats: set<End>, a: End, b: End)
    ensures BridgeRule(a, b) in Rules(ifs, nif, bridges, nats) <==> (a, b) in bridges
    ensures BridgeRule(b, a) in Rules(ifs, nif, bridges, nats) <==> (b, a) in bridges
    ensures BridgeRule(a, b) in SelfRules(bridges) <==> a == b && (a, b) in bridges
    ensures BridgeRule(b, a) in SelfRules(bridges) <==> a == b && (b, a) in bridges
  {
    Separate(ifs, nif, nats, a, b);
    hide BaseRules, NatRules;
    assert (a, b) in bridges ==> BridgeRule(a, b) in BridgeRules(bridges);
    assert (b, a) in bridges ==> BridgeRule(b, a) in BridgeRules(bridges);
  }

  lemma PairRules(ifs: set<string>, nif: string, bridges: set<(End, End)>, nats: set<End>, a: End, b: End)
    ensures var pair, rules := {(a, b), (b, a)}, {BridgeRule(a, b), BridgeRule(b, a)};
            && Rules(ifs, nif, bridges - pair, nats) == Rules(ifs, nif, bridges, nats) - rules
            && Rules(ifs, nif, bridges + pair, nats) == Rules(ifs, nif, bridges, nats) + rules
            && SelfRules(bridges - pair) == SelfRules(bridges) - (if a == b then rules else {})
            && SelfRules(bridges + pair) == SelfRules(bridges) + (if a == b then rules else {})
  {
    Separate(ifs, nif, nats, a, b);
    hide BaseRules, NatRules;
    var pair, rules := {(a, b), (b, a)}, {BridgeRule(a, b), BridgeRule(b, a)};
    assert BridgeRules(bridges - pair) == BridgeRules(bridges) - rules;
    assert BridgeRules(bridges + pair) == BridgeRules(bridges) + rules;
  }

  lemma Separate(ifs: set<string>, nif: string, nats: set<End>, a: End, b: End)
    ensures BridgeRule(a, b) !in BaseRules(ifs) && BridgeRule(a, b) !in NatRules(nats, nif)
    ensures BridgeRule(b, a) !in BaseRules(ifs) && BridgeRule(b, a) !in NatRules(nats, nif)
  {
  }

  lemma NatLess(ifs: set<string>, nif: string, bridges: set<(End, End)>, nats: set<End>, a: End)
    ensures Bag(ifs, nif, bridges, nats - {a}) ==
            Bag(ifs, nif, bridges, nats) - multiset{NatOut(a, nif)} - multiset{NatIn(a, nif)}
  {
    NatMembers(ifs, nif, bridges, nats, a);
    hide Rules, SelfRules, NatOut, NatIn;
    ApartLess(Rules(ifs, nif, bridges, nats), SelfRules(bridges), NatOut(a, nif), NatIn(a, nif));
  }

  lemma NatMore(ifs: set<string>, nif: string, bridges: set<(End, End)>, nats: set<End>, a: End)
    requires a !in nats
    ensures Bag(ifs, nif, bridges, nats + {a}) ==
            Bag(ifs, nif, bridges, nats) + multiset{NatOut(a, nif)} + multiset{NatIn(a, nif)}
  {
    NatMembers(ifs, nif, bridges, nats, a);
    hide Rules, SelfRules, NatOut, NatIn;
    ApartMore(Rules(ifs, nif, bridges, nats), SelfRules(bridges), NatOut(a, nif), NatIn(a, nif));
  }

  lemma NatMembers(ifs: set<string>, nif: string, bridges: set<(End, End)>, nats: set<End>, a: End)
    ensures var r, q, all := NatOut(a, nif), NatIn(a, nif), Rules(ifs, nif, bridges, nats);
            && r != q && r !in SelfRules(bridges) && q !in SelfRules(bridges)
            && (a !in nats ==> r !in all && q !in all)
            && Rules(ifs, nif, bridges, nats - {a}) == all - {r, q}
            && Rules(ifs, nif, bridges, nats + {a}) == all + {r, q}
  {
    var rules := {NatOut(a, nif), NatIn(a, nif)};
    assert rules !! BaseRules(ifs) && rules !! BridgeRules(bridges);
    hide BaseRules, BridgeRules;
    assert NatRules(nats - {a}, nif) == NatRules(nats, nif) - rules;
    assert NatRules(nats + {a}, nif) == NatRules(nats, nif) + rules;
  }

  lemma MaskBag(ips: set<Ip>, nif: string, ip: Ip)
    ensures multiset(Masks(ips - {ip}, nif)) == multiset(Masks(ips, nif)) - multiset{MasqueradeRule(ip, nif)}
    ensures ip !in ips ==>
              multiset(Masks(ips + {ip}, nif)) == multiset(Masks(ips, nif)) + multiset{MasqueradeRule(ip, nif)}
  {
    assert Masks(ips - {ip}, nif) == Masks(ips, nif) - {MasqueradeRule(ip, nif)};
    assert Masks(ips + {ip}, nif) == Masks(ips, nif) + {MasqueradeRule(ip, nif)};
  }

  /** The chain right after initialisation. */
  method BaseChain(ifnames: seq<string>, ghost nif: string) returns (chain: seq<Rule>)
    requires forall i, j :: 0 <= i < j < |ifnames| ==> ifnames[i] != ifnames[j]
    ensures Enforces(chain, (set i | i in ifnames), nif, {}, {})
  {
    chain := [MULTICAST];
    var k := 0;
    while k < |ifnames|
      invariant 0 <= k <= |ifnames| && |chain| == k + 1 && chain[0] == MULTICAST
      invariant forall j :: 1 <= j <= k ==> chain[j] == RejectRule(ifnames[j - 1])
    {
      chain := chain + [RejectRule(ifnames[k])];
      k := k + 1;
    }
    BaseEnforced(chain, ifnames, nif);
  }

  lemma BaseEnforced(chain: seq<Rule>, ifnames: seq<string>, nif: string)
    requires forall i, j :: 0 <= i < j < |ifnames| ==> ifnames[i] != ifnames[j]
    requires |chain| == |ifnames| + 1 && chain[0] == MULTICAST
    requires forall j :: 1 <= j <= |ifnames| ==> chain[j] == RejectRule(ifnames[j - 1])
    ensures Enforces(chain, (set i | i in ifnames), nif, {}, {})
  {
    var ifs := set i | i in ifnames;
    BaseOrdered(chain, ifnames);
    BaseMembers(chain, ifnames);
    NoPolicy(ifs, nif);
    hide Ordered, BaseRules, NoDuplicates, Rules, SelfRules;
    BagOfSet(chain, BaseRules(ifs));
  }

  lemma NoPolicy(ifs: set<string>, nif: string)
    ensures Rules(ifs, nif, {}, {}) == BaseRules(ifs) && SelfRules({}) == {}
  {
  }

  lemma BaseOrdered(chain: seq<Rule>, ifnames: seq<string>)
    requires |chain| == |ifnames| + 1 && chain[0] == MULTICAST
    requires forall j :: 1 <= j <= |ifnames| ==> chain[j] == RejectRule(ifnames[j - 1])
    ensures Ordered(chain, (set i | i in ifnames))
  {
    var ifs := set i | i in ifnames;
    forall i | i in ifs ensures RejectRule(i) in chain {
      var j :| 0 <= j < |ifnames| && ifnames[j] == i;
      assert chain[j + 1] == RejectRule(i);
    }
    forall r | r in chain ensures Known(r, ifs) {
      var j :| 0 <= j < |chain| && chain[j] == r;
    }
  }

  lemma BaseMembers(chain: seq<Rule>, ifnames: seq<string>)
    requires forall i, j :: 0 <= i < j < |ifnames| ==> ifnames[i] != ifnames[j]
    requires |chain| == |ifnames| + 1 && chain[0] == MULTICAST
    requires forall j :: 1 <= j <= |ifnames| ==> chain[j] == RejectRule(ifnames[j - 1])
    ensures NoDuplicates(chain) && forall r :: r in chain <==> r in BaseRules(set i | i in ifnames)
  {
    var ifs := set i | i in ifnames;
    forall r ensures r in chain <==> r in BaseRules(ifs) {
      if r in chain {
        var j :| 0 <= j < |chain| && chain[j] == r;
      }
      if r in BaseRules(ifs) && r != MULTICAST {
        var i :| i in ifs && r == RejectRule(i);
        var j :| 0 <= j < |ifnames| && ifnames[j] == i;
        assert chain[j + 1] == r;
      }
    }
  }

  lemma BagOfSet(chain: seq<Rule>, s: set<Rule>)
    requires NoDuplicates(chain) && forall r :: r in chain <==> r in s
    ensures multiset(chain) == multiset(s)
  {
    hide NoDuplicates;
    CountsOne(chain);
    forall r ensures multiset(chain)[r] == multiset(s)[r] {
      assert r in chain <==> r in multiset(chain);
    }
  }
}
