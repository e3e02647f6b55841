/** The bookkeeping of radius_server.c as values: sessions of all clients, pending timers and statistics counters. */
module RadiusSessions {
  import opened Bytes
  import opened Options
  import opened Md5Spec

  const MAX_SESSION := 1000

  /** One statistics event of struct radius_server_counters. */
  datatype Kind =
    Request | Invalid | Duplicate | AcceptSent | RejectSent | Challenge | Malformed | BadAuth | Dropped | Unknown

  /** struct radius_server_counters: 32-bit counters. */
  type Counters = map<Kind, word>

  /** struct radius_session; serial stands for the object itself. */
  datatype Session = Session(serial: nat, id: word, client: nat, username: seq<byte>, nas: Ip, port: int, ident: byte,
                             auth: Digest16, reply: Option<seq<byte>>)

  /** struct radius_client */
  datatype Client = Client(addr: Ip, mask: Ip, secret: seq<byte>, sessions: seq<Session>, counters: Counters)

  /** The sessions of all clients. */
  function All(cs: seq<Client>): (r: seq<Session>)
    decreases |cs|
  {
    if cs == [] then [] else All(cs[..|cs| - 1]) + cs[|cs| - 1].sessions
  }

  lemma AllNext(cs: seq<Client>, c: Client)
    ensures All(cs + [c]) == All(cs) + c.sessions
  {
    assert (cs + [c])[..|cs|] == cs;
  }

  lemma Associates<T>(a: seq<T>, b: seq<T>, c: seq<T>)
    ensures a + b + c == a + (b + c)
  {
  }

  lemma AllOfNone()
    ensures All([]) == []
  {
  }

  lemma AllConcatNext(a: seq<Client>, b: seq<Client>, c: Client)
    requires All(a + b) == All(a) + All(b)
    ensures All(a + (b + [c])) == All(a) + All(b + [c])
  {
    hide All;
    AllNext(b, c);
    AllNext(a + b, c);
    Associates(a, b, [c]);
    Associates(All(a), All(b), c.sessions);
  }

  lemma {:induction false} AllConcat(a: seq<Client>, b: seq<Client>)
    ensures All(a + b) == All(a) + All(b)
    decreases |b|
  {
    hide All;
    if b == [] {
      AllOfNone();
      assert a + b == a && All(a) + [] == All(a);
    } else {
      var init, last := b[..|b| - 1], b[|b| - 1];
      assert b == init + [last];
      AllConcat(a, init);
      AllConcatNext(a, init, last);
    }
  }

  /** The sessions before and after those of one client. */
  lemma AllAround(cs: seq<Client>, i: nat, c: Client)
    requires i < |cs|
    ensures All(cs) == All(cs[..i]) + cs[i].sessions + All(cs[i + 1..])
    ensures All(cs[i := c]) == All(cs[..i]) + c.sessions + All(cs[i + 1..])
  {
    var before, after := cs[..i], cs[i + 1..];
    assert cs == before + [cs[i]] + after && cs[i := c] == before + [c] + after;
    AllConcat(before + [cs[i]], after);
    AllConcat(before + [c], after);
  }

  ghost function Serials(all: seq<Session>): (r: set<nat>) { set s | s in all :: s.serial }

  ghost predicate DistinctSerials(all: seq<Session>)
  {
    forall i, j :: 0 <= i < j < |all| ==> all[i].serial != all[j].serial
  }

  /** num_sess counts the sessions, ids are serials modulo 2^32, and each session has its one timer. */
  ghost predicate Booked(all: seq<Session>, num: int, made: nat, timers: set<nat>)
  {
    && num == |all| <= MAX_SESSION
    && (forall s :: s in all ==> s.serial < made && s.id == s.serial % WORD)
    && DistinctSerials(all) && timers == Serials(all)
  }

  lemma InsertBooked(a: seq<Session>, b: seq<Session>, s: Session, num: int, made: nat, timers: set<nat>)
    requires Booked(a + b, num, made, timers) && num < MAX_SESSION && s.serial == made && s.id == made % WORD
    ensures Booked(a + ([s] + b), num + 1, made + 1, timers + {made})
  {
    var was, all := a + b, a + ([s] + b);
    assert all[|a|] == s && Serials(all) == Serials(was) + {s.serial};
    forall i, j | 0 <= i < j < |all| ensures all[i].serial != all[j].serial {
      var i', j' := if i < |a| then i else i - 1, if j < |a| then j else j - 1;
      if i != |a| && j != |a| {
        assert was[i'].serial != was[j'].serial;
      }
    }
  }

  lemma RemoveBooked(a: seq<Session>, b: seq<Session>, s: Session, num: int, made: nat, timers: set<nat>)
    requires Booked(a + ([s] + b), num, made, timers)
    ensures Booked(a + b, num - 1, made, timers - {s.serial})
  {
    RemoveDistinct(a, b, s);
    var all, was := a + b, a + ([s] + b);
    assert forall x: Session :: x in was <==> x in all || x == s;
    assert Serials(all) == Serials(was) - {s.serial};
  }

  lemma RemoveDistinct(a: seq<Session>, b: seq<Session>, s: Session)
    requires DistinctSerials(a + ([s] + b))
    ensures DistinctSerials(a + b) && forall x :: x in a + b ==> x.serial != s.serial
  {
    var all, was := a + b, a + ([s] + b);
    forall i, j | 0 <= i < j < |all| ensures all[i].serial != all[j].serial {
      var i', j' := if i < |a| then i else i + 1, if j < |a| then j else j + 1;
      assert was[i'].serial != was[j'].serial;
    }
    forall i | 0 <= i < |all| ensures all[i].serial != s.serial {
      assert if i < |a| then was[i].serial != was[|a|].serial else was[|a|].serial != was[i + 1].serial;
    }
  }

  lemma ReplaceBooked(a: seq<Session>, b: seq<Session>, s: Session, t: Session, num: int, made: nat, timers: set<nat>)
    requires Booked(a + ([s] + b), num, made, timers) && t.serial == s.serial && t.id == s.id
    ensures Booked(a + ([t] + b), num, made, timers)
  {
    var all, was := a + ([t] + b), a + ([s] + b);
    assert forall i :: 0 <= i < |all| ==> all[i] == if i == |a| then t else was[i];
    assert was[|a|] == s && all[|a|] == t;
  }

  /** Two sessions share an id exactly when their serials differ by a multiple of 2^32, so ids are distinct while
      the counter has not come round since the older of them was made. */
  lemma DistinctIds(all: seq<Session>, num: int, made: nat, timers: set<nat>, i: nat, j: nat)
    requires Booked(all, num, made, timers) && i < j < |all|
    ensures all[i].id == all[j].id <==> (all[i].serial - all[j].serial) % WORD == 0
    ensures made - all[i].serial <= WORD && made - all[j].serial <= WORD ==> all[i].id != all[j].id
  {
  }

  ghost predicate AllKinds(c: Counters) { forall k: Kind :: k in c }

  const ZERO_COUNTERS: Counters := map[Request := 0, Invalid := 0, Duplicate := 0, AcceptSent := 0, RejectSent := 0,
                                       Challenge := 0, Malformed := 0, BadAuth := 0, Dropped := 0, Unknown := 0]

  function Bump(c: Counters, k: Kind): (r: Counters)
    requires k in c
  {
    c[k := (c[k] + 1) % WORD]
  }

  function Sum(cs: seq<Client>, k: Kind): (r: nat)
    requires forall c :: c in cs ==> k in c.counters
    decreases |cs|
  {
    if cs == [] then 0 else Sum(cs[..|cs| - 1], k) + cs[|cs| - 1].counters[k]
  }

  function Count(log: seq<Kind>, k: Kind): (r: nat)
    ensures r <= |log|
    decreases |log|
  {
    if log == [] then 0 else Count(log[..|log| - 1], k) + (if log[|log| - 1] == k then 1 else 0)
  }

  lemma CountNext(log: seq<Kind>, x: Kind, k: Kind)
    ensures Count(log + [x], k) == Count(log, k) + if x == k then 1 else 0
  {
  }

  /** Changing one client's counter changes the sum by as much. */
  lemma {:induction false} SumUpdate(cs: seq<Client>, i: nat, c: Client, k: Kind)
    requires i < |cs| && (forall d :: d in cs ==> k in d.counters) && k in c.counters
    ensures forall d :: d in cs[i := c] ==> k in d.counters
    ensures Sum(cs[i := c], k) == Sum(cs, k) - cs[i].counters[k] + c.counters[k]
    ensures cs[i].counters[k] <= Sum(cs, k)
    decreases |cs|
  {
    var n := |cs| - 1;
    if i < n {
      assert cs[i := c][..n] == cs[..n][i := c];
      SumUpdate(cs[..n], i, c, k);
    }
  }

  /** Every counter is the number of its events modulo 2^32, and except for packets from unknown addresses the sum over
      all clients. */
  ghost predicate Tallied(cs: seq<Client>, counters: Counters, log: seq<Kind>)
  {
    && AllKinds(counters) && (forall c :: c in cs ==> AllKinds(c.counters))
    && (forall k: Kind :: counters[k] == Count(log, k) % WORD)
    && (forall k: Kind :: k != Invalid ==> Sum(cs, k) % WORD == counters[k])
  }

  lemma BumpTallied(cs: seq<Client>, i: nat, c: Client, counters: Counters, log: seq<Kind>, x: Kind)
    requires Tallied(cs, counters, log) && i < |cs| && c.counters == Bump(cs[i].counters, x)
    ensures Tallied(cs[i := c], Bump(counters, x), log + [x])
  {
    hide Sum, Count;
    forall k: Kind ensures Bump(counters, x)[k] == Count(log + [x], k) % WORD {
      BumpedCount(counters, log, x, k);
    }
    forall k: Kind | k != Invalid ensures Sum(cs[i := c], k) % WORD == Bump(counters, x)[k] {
      BumpedSum(cs, i, c, counters, x, k);
    }
  }

  lemma BumpedCount(counters: Counters, log: seq<Kind>, x: Kind, k: Kind)
    requires x in counters && k in counters && counters[k] == Count(log, k) % WORD
    ensures Bump(counters, x)[k] == Count(log + [x], k) % WORD
  {
    CountNext(log, x, k);
    hide Count;
  }

  lemma BumpedSum(cs: seq<Client>, i: nat, c: Client, counters: Counters, x: Kind, k: Kind)
    requires x in counters && k in counters && i < |cs| && (forall d :: d in cs ==> k in d.counters)
    requires x in cs[i].counters && c.counters == Bump(cs[i].counters, x) && Sum(cs, k) % WORD == counters[k]
    ensures (forall d :: d in cs[i := c] ==> k in d.counters) && Sum(cs[i := c], k) % WORD == Bump(counters, x)[k]
  {
    hide Sum;
    SumUpdate(cs, i, c, k);
    if k == x {
      Carry(Sum(cs, k), cs[i].counters[k]);
    }
  }

  lemma InvalidTallied(cs: seq<Client>, counters: Counters, log: seq<Kind>)
    requires Tallied(cs, counters, log)
    ensures Tallied(cs, Bump(counters, Invalid), log + [Invalid])
  {
    hide Sum, Count;
    forall k: Kind ensures Bump(counters, Invalid)[k] == Count(log + [Invalid], k) % WORD {
      BumpedCount(counters, log, Invalid, k);
    }
  }

  lemma AddMod(a: nat, b: nat)
    ensures (a % WORD + b) % WORD == (a + b) % WORD
  {
  }

  lemma Carry(sum: nat, x: word)
    requires x <= sum
    ensures (sum - x + (x + 1) % WORD) % WORD == (sum % WORD + 1) % WORD
  {
  }

  /** Every request has one outcome: an accept, a reject, a duplicate, a bad authenticator, or none was possible. */
  ghost predicate Accounted(log: seq<Kind>, silent: nat)
  {
    Count(log, Request) ==
    Count(log, AcceptSent) + Count(log, RejectSent) + Count(log, Duplicate) + Count(log, BadAuth) + silent
  }

  /** Before a counter wraps, the outcomes do not exceed the requests. */
  lemma OutcomesBounded(cs: seq<Client>, counters: Counters, log: seq<Kind>, silent: nat)
    requires Tallied(cs, counters, log) && Accounted(log, silent) && Count(log, Request) < WORD
    ensures AllKinds(counters)
    ensures counters[Request] ==
            counters[AcceptSent] + counters[RejectSent] + counters[Duplicate] + counters[BadAuth] + silent
  {
    hide Tallied, Count;
    NotWrapped(cs, counters, log, Request);
    NotWrapped(cs, counters, log, AcceptSent);
    NotWrapped(cs, counters, log, RejectSent);
    NotWrapped(cs, counters, log, Duplicate);
    NotWrapped(cs, counters, log, BadAuth);
  }

  lemma NotWrapped(cs: seq<Client>, counters: Counters, log: seq<Kind>, k: Kind)
    requires Tallied(cs, counters, log)
    ensures AllKinds(counters) && (Count(log, k) < WORD ==> counters[k] == Count(log, k))
  {
    hide Count, Sum;
  }
}
