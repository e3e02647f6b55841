/** The RADIUS server and the supervisor together: runs of datagrams, timeouts and supervisor commands, in which the
    server asks the supervisor about the MAC of a session and the answer changes the supervisor's tables. */
module Joint {
  import opened Bytes
  import opened Options
  import opened Md5Spec
  import opened KeyHiding
  import opened BridgeList
  import opened RadiusCodec
  import opened RadiusAuth
  import opened RadiusMsg
  import opened RadiusOps
  import opened RadiusReply
  import opened RadiusSessions
  import opened RadiusServer
  import opened Access
  import Commands

  datatype World = World(book: Book, tables: Commands.State)

  datatype Happening =
    | Arrival(from: Ip, port: int, data: seq<byte>, salt: nat, now: int)
    | Timeout(serial: nat)
    | Order(command: Commands.Command)
  {
    ghost predicate Readable() { Arrival? ==> Checkable(data) }
  }

  ghost predicate AllReadable(es: seq<Happening>) { forall i :: 0 <= i < |es| ==> es[i].Readable() }

  /** The session about whose MAC the callback is asked: that of a verified request that does not repeat the last one
      of its session. */
  ghost function Asked(h: Hash, b: Book, from: Ip, port: int, data: seq<byte>): (r: Option<nat>)
    requires Checkable(data)
  {
    var i, raw := ClientAt(b.clients, from), Accepted(data);
    if i.None? || raw.None? || raw.value[0] != ACCESS_REQUEST then None
    else
      var c, num := b.clients[i.value], |All(b.clients)|;
      if !MsgAuthVerified(h, raw.value, c.secret, None) then None
      else if TargetOf(AttrsOf(raw.value), c.sessions, num).NoSession? then None
      else
        var p := Placed(raw.value, c, num, b.made, b.made % WORD, i.value, from);
        var s := p.0.sessions[p.1];
        if Repeats(s, port, raw.value) then None else Some(s.serial)
  }

  /** What a datagram that asks is about: the request and the client it came from. */
  ghost predicate Concerns(b: Book, from: Ip, data: seq<byte>, raw: seq<byte>, c: Client)
  {
    var i := ClientAt(b.clients, from);
    i.Some? && b.clients[i.value] == c && Accepted(data) == Some(raw) && WellFormed(raw)
  }

  /** The reply to a datagram that asks is the one decided with the answer; for any other the answer does not matter. */
  lemma AnswerUsed(h: Hash, b: Book, from: Ip, port: int, data: seq<byte>, conn: Conn, salt: nat, raw: seq<byte>,
                   c: Client)
    requires AllCounted(b.clients) && Checkable(data) && Asked(h, b, from, port, data).Some?
    requires Concerns(b, from, data, raw, c)
    ensures Step(h, b, Datagram(from, port, data, conn, salt)).1 == Decision(h, raw, c.secret, conn, salt).1
  {
    hide AttrsOf, ParseAttrs, Accepted, MsgAuthVerified, MacInside, TargetOf, ReplyTo, ReplyAttrs, AllFit, Decision,
         Counted, ClientAfter, Verdict, FreshSession, All, ClientAt;
    var i, num := ClientAt(b.clients, from).value, |All(b.clients)|;
    VerdictCases(h, raw, c, num, b.made, b.made % WORD, i, from, port, conn, salt);
    SameSecret(raw, c, num, b.made, b.made % WORD, i, from);
  }

  lemma SameSecret(raw: seq<byte>, c: Client, num: int, serial: nat, id: word, i: nat, from: Ip)
    requires WellFormed(raw) && !TargetOf(AttrsOf(raw), c.sessions, num).NoSession?
    ensures Placed(raw, c, num, serial, id, i, from).0.secret == c.secret
  {
    hide TargetOf, FreshSession, AttrsOf;
  }

  lemma AnswerUnused(h: Hash, b: Book, from: Ip, port: int, data: seq<byte>, conn: Conn, salt: nat, conn': Conn,
                     salt': nat)
    requires AllCounted(b.clients) && Checkable(data) && Asked(h, b, from, port, data).None?
    ensures Step(h, b, Datagram(from, port, data, conn, salt)) == Step(h, b, Datagram(from, port, data, conn', salt'))
  {
    hide AttrsOf, ParseAttrs, Accepted, MsgAuthVerified, MacInside, ReplyTo, ReplyAttrs, AllFit, Decision, Counted,
         ClientAfter, All, ClientAt, TargetOf;
  }

  /** The datagram makes the server ask about this MAC. */
  ghost predicate AsksFor(h: Hash, macOf: nat -> Mac, b: Book, e: Happening, m: Mac)
  {
    e.Arrival? && e.Readable() &&
    var asked := Asked(h, b, e.from, e.port, e.data);
    asked.Some? && macOf(asked.value) == m
  }

  /** One step. The MAC of a session is that of the request that opened it, here given by the session. */
  ghost function Move(h: Hash, c: Commands.Conf, macOf: nat -> Mac, w: World, e: Happening)
    : (r: (World, Option<seq<byte>>))
    requires AllCounted(w.book.clients) && e.Readable()
    ensures AllCounted(r.0.book.clients)
  {
    match e
    case Arrival(from, port, data, salt, now) =>
      var asked := Asked(h, w.book, from, port, data);
      if asked.None? then
        var r := Step(h, w.book, Datagram(from, port, data, REFUSE, salt));
        (w.(book := r.0), r.1)
      else
        var m := macOf(asked.value);
        var r := Step(h, w.book, Datagram(from, port, data, ConnOf(c, w.tables, m, now), salt));
        (World(r.0, Commands.Next(c, w.tables, Commands.Connect(m, now))), r.1)
    case Timeout(serial) => (w.(book := Step(h, w.book, Timer(serial)).0), None)
    case Order(k) => (w.(tables := Commands.Next(c, w.tables, k)), None)
  }

  /** A run: the last world, and what was sent on every event. */
  ghost function Moves(h: Hash, c: Commands.Conf, macOf: nat -> Mac, w: World, es: seq<Happening>)
    : (r: (World, seq<Option<seq<byte>>>))
    requires AllCounted(w.book.clients) && AllReadable(es)
    ensures AllCounted(r.0.book.clients) && |r.1| == |es|
    decreases |es|
  {
    if es == [] then (w, [])
    else
      var r := Move(h, c, macOf, w, es[0]);
      var rest := Moves(h, c, macOf, r.0, es[1..]);
      (rest.0, [r.1] + rest.1)
  }

  /** The server's share of a run. */
  ghost function Events(h: Hash, c: Commands.Conf, macOf: nat -> Mac, w: World, es: seq<Happening>): (r: seq<Event>)
    requires AllCounted(w.book.clients) && AllReadable(es)
    ensures RadiusServer.AllReadable(r)
    decreases |es|
  {
    if es == [] then []
    else
      var first := match es[0]
        case Arrival(from, port, data, salt, now) =>
          var asked := Asked(h, w.book, from, port, data);
          var conn := if asked.None? then REFUSE else ConnOf(c, w.tables, macOf(asked.value), now);
          [Datagram(from, port, data, conn, salt)]
        case Timeout(serial) => [Timer(serial)]
        case Order(_) => [];
      first + Events(h, c, macOf, Move(h, c, macOf, w, es[0]).0, es[1..])
  }

  /** The supervisor's share: the commands, and a connection for every question. */
  ghost function Orders(h: Hash, c: Commands.Conf, macOf: nat -> Mac, w: World, es: seq<Happening>)
    : (r: seq<Commands.Command>)
    requires AllCounted(w.book.clients) && AllReadable(es)
    decreases |es|
  {
    if es == [] then []
    else
      var first := match es[0]
        case Arrival(from, port, data, salt, now) =>
          var asked := Asked(h, w.book, from, port, data);
          if asked.None? then [] else [Commands.Connect(macOf(asked.value), now)]
        case Timeout(_) => []
        case Order(k) => [k];
      first + Orders(h, c, macOf, Move(h, c, macOf, w, es[0]).0, es[1..])
  }

  /** A joint run is a run of the server and a run of the supervisor. */
  lemma {:induction false} Projections(h: Hash, c: Commands.Conf, macOf: nat -> Mac, w: World, es: seq<Happening>)
    requires AllCounted(w.book.clients) && AllReadable(es)
    ensures var end := Moves(h, c, macOf, w, es).0;
            && end.book == Steps(h, w.book, Events(h, c, macOf, w, es)).0
            && end.tables == Commands.Run(c, w.tables, Orders(h, c, macOf, w, es))
    decreases |es|
  {
    hide Step, Asked, Commands.Next, AllCounted;
    if es != [] {
      var next := Move(h, c, macOf, w, es[0]).0;
      Projections(h, c, macOf, next, es[1..]);
      var evs, ks := Events(h, c, macOf, next, es[1..]), Orders(h, c, macOf, next, es[1..]);
      match es[0] {
        case Arrival(from, port, data, salt, now) =>
          var asked := Asked(h, w.book, from, port, data);
          var conn := if asked.None? then REFUSE else ConnOf(c, w.tables, macOf(asked.value), now);
          assert ([Datagram(from, port, data, conn, salt)] + evs)[1..] == evs;
          if asked.None? {
            assert [] + ks == ks;
          } else {
            assert ([Commands.Connect(macOf(asked.value), now)] + ks)[1..] == ks;
          }
        case Timeout(serial) =>
          assert ([Timer(serial)] + evs)[1..] == evs && [] + ks == ks;
        case Order(k) =>
          assert [] + evs == evs && ([k] + ks)[1..] == ks;
      }
    }
  }

  /** The world before event n of a run, and what that event sent. */
  lemma {:induction false} MovesAt(h: Hash, c: Commands.Conf, macOf: nat -> Mac, w: World, es: seq<Happening>, n: nat)
    requires AllCounted(w.book.clients) && AllReadable(es) && n < |es|
    ensures var before := Moves(h, c, macOf, w, es[..n]).0;
            Moves(h, c, macOf, w, es).1[n] == Move(h, c, macOf, before, es[n]).1
    decreases n
  {
    hide Move, AllCounted;
    if n == 0 {
      assert es[..0] == [];
    } else {
      assert es[..n][1..] == es[1..][..n - 1] && es[..n][0] == es[0];
      MovesAt(h, c, macOf, Move(h, c, macOf, w, es[0]).0, es[1..], n - 1);
    }
  }

  lemma {:induction false} MovesConcat(h: Hash, c: Commands.Conf, macOf: nat -> Mac, w: World, a: seq<Happening>,
                                       b: seq<Happening>)
    requires AllCounted(w.book.clients) && AllReadable(a) && AllReadable(b)
    ensures AllReadable(a + b)
    ensures Moves(h, c, macOf, w, a + b).0 == Moves(h, c, macOf, Moves(h, c, macOf, w, a).0, b).0
    decreases |a|
  {
    hide Move, AllCounted, Happening.Readable;
    if a == [] {
      assert a + b == b;
    } else {
      assert (a + b)[1..] == a[1..] + b;
      MovesConcat(h, c, macOf, Move(h, c, macOf, w, a[0]).0, a[1..], b);
    }
  }

  /** The reply is an accept exactly if the request has a User-Password and the MAC is welcome, and then says the VLAN
      and the passphrase the tables hold for it. */
  ghost predicate Told(h: Hash, c: Commands.Conf, s: Commands.State, m: Mac, raw: seq<byte>, secret: seq<byte>,
                       out: seq<byte>, numTagged: nat)
    requires WellFormed(raw)
  {
    && WellFormed(out)
    && Tells(h, out, RequestAuth(raw), secret, numTagged, OfType(AttrsOf(raw), USER_PASSWORD) != [] && Welcome(c, s, m),
             Commands.Due(c, s, m), KeyDue(c, s, m))
  }

  lemma MoveTells(h: Hash, c: Commands.Conf, macOf: nat -> Mac, w: World, e: Happening, m: Mac, raw: seq<byte>,
                  client: Client, numTagged: nat)
    requires AllCounted(w.book.clients) && AsksFor(h, macOf, w.book, e, m) && |e.data| <= MAX_MSG_LEN
    requires Concerns(w.book, e.from, e.data, raw, client)
    ensures var sent := Move(h, c, macOf, w, e).1;
            && (sent.Some? <==> (Accepts(AttrsOf(raw), ConnOf(c, w.tables, m, e.now)) ==>
                                   PaddedBlocks(|KeyDue(c, w.tables, m)|) <= 15))
            && (sent.Some? ==> Told(h, c, w.tables, m, raw, client.secret, sent.value, numTagged))
  {
    hide AttrsOf, ParseAttrs, Asked, Step, ConnOf, KeyDue, Welcome, Commands.Due, Tells, PaddedBlocks, AllFit,
         ReplyAttrs, Draft, FinishedReply, Commands.Next, OfType, AllCounted;
    var conn := ConnOf(c, w.tables, m, e.now);
    AcceptedLength(e.data);
    AnswerUsed(h, w.book, e.from, e.port, e.data, conn, e.salt, raw, client);
    ConnIsDue(c, w.tables, m, e.now);
    ReplyFits(h, raw, conn, e.salt, client.secret);
    if Move(h, c, macOf, w, e).1.Some? {
      AccessGranted(h, c, w.tables, m, e.now, raw, e.salt, client.secret, numTagged);
    }
  }

  lemma AcceptedLength(data: seq<byte>)
    ensures Accepted(data).Some? ==> |Accepted(data).value| <= |data|
  {
  }

  /** In every run, a datagram that asks is answered exactly if the answer fits, and the reply tells what the tables
      hold for the MAC at that moment. */
  lemma RunTells(h: Hash, c: Commands.Conf, macOf: nat -> Mac, w: World, es: seq<Happening>, n: nat, m: Mac,
                 raw: seq<byte>, client: Client, numTagged: nat)
    requires AllCounted(w.book.clients) && AllReadable(es) && n < |es|
    ensures var before, e, sent := Moves(h, c, macOf, w, es[..n]).0, es[n], Moves(h, c, macOf, w, es).1[n];
            && AsksFor(h, macOf, before.book, e, m) && |e.data| <= MAX_MSG_LEN
            && Concerns(before.book, e.from, e.data, raw, client) ==>
              && (sent.Some? <==> (Accepts(AttrsOf(raw), ConnOf(c, before.tables, m, e.now)) ==>
                                     PaddedBlocks(|KeyDue(c, before.tables, m)|) <= 15))
              && (sent.Some? ==> Told(h, c, before.tables, m, raw, client.secret, sent.value, numTagged))
  {
    hide Move, AllCounted, ConnOf, KeyDue, Accepts, PaddedBlocks, Told, AttrsOf, ParseAttrs, Asked, ClientAt, Accepted;
    var before, e := Moves(h, c, macOf, w, es[..n]).0, es[n];
    MovesAt(h, c, macOf, w, es, n);
    if AsksFor(h, macOf, before.book, e, m) && |e.data| <= MAX_MSG_LEN &&
       Concerns(before.book, e.from, e.data, raw, client) {
      MoveTells(h, c, macOf, before, e, m, raw, client, numTagged);
    }
  }

  /** No command of the run accepts, denies or re-keys the MAC; connections do not either. */
  lemma {:induction false} OrdersKeep(h: Hash, c: Commands.Conf, macOf: nat -> Mac, w: World, es: seq<Happening>,
                                      m: Mac)
    requires AllCounted(w.book.clients) && AllReadable(es)
    requires forall i :: 0 <= i < |es| && es[i].Order? ==> !Commands.Rekeys(es[i].command, m)
    ensures forall k :: k in Orders(h, c, macOf, w, es) ==> !Commands.Rekeys(k, m)
    decreases |es|
  {
    hide Move, Asked, AllCounted;
    if es != [] {
      OrdersKeep(h, c, macOf, Move(h, c, macOf, w, es[0]).0, es[1..], m);
    }
  }

  /** The VLAN and the passphrase a MAC is due are the same in both tables, and it may connect. */
  ghost predicate SameDue(c: Commands.Conf, s: Commands.State, t: Commands.State, m: Mac)
  {
    Welcome(c, t, m) && Commands.Due(c, t, m) == Commands.Due(c, s, m) && KeyDue(c, t, m) == KeyDue(c, s, m)
  }

  lemma MoveConnects(h: Hash, c: Commands.Conf, macOf: nat -> Mac, w: World, e: Happening, m: Mac)
    requires AllCounted(w.book.clients) && AsksFor(h, macOf, w.book, e, m) && e.Readable()
    ensures Move(h, c, macOf, w, e).0.tables == Commands.Admission(c, w.tables, m, e.now).0
  {
    hide Step, Asked, ConnOf, Commands.Admission, AllCounted;
  }

  lemma StaysFrom(h: Hash, c: Commands.Conf, macOf: nat -> Mac, w: World, e: Happening, es: seq<Happening>, m: Mac)
    requires AllCounted(w.book.clients) && AllReadable(es) && AsksFor(h, macOf, w.book, e, m) && e.Readable()
    requires Welcome(c, w.tables, m) && KeyDue(c, w.tables, m) != []
    requires forall i :: 0 <= i < |es| && es[i].Order? ==> !Commands.Rekeys(es[i].command, m)
    ensures SameDue(c, w.tables, Moves(h, c, macOf, Move(h, c, macOf, w, e).0, es).0.tables, m)
  {
    hide AllCounted, Asked, Move, Moves, Events, Orders, Steps, Welcome, KeyDue, Commands.Due, Commands.Run,
         Commands.Admission, Commands.Rekeys, Happening.Readable, AllReadable;
    var next := Move(h, c, macOf, w, e).0;
    MoveConnects(h, c, macOf, w, e, m);
    Projections(h, c, macOf, next, es);
    OrdersKeep(h, c, macOf, next, es, m);
    DueStays(c, w.tables, m, e.now, Orders(h, c, macOf, next, es));
  }

  /** In every run, a MAC that was welcome when it was asked about is welcome with the same VLAN and passphrase at every
      later event, if no command in between accepts, denies or re-keys it. By RunTells that is what replies tell. */
  lemma RunStays(h: Hash, c: Commands.Conf, macOf: nat -> Mac, w: World, es: seq<Happening>, j: nat, n: nat, m: Mac)
    requires AllCounted(w.book.clients) && AllReadable(es) && j < n <= |es|
    ensures var was, now := Moves(h, c, macOf, w, es[..j]).0, Moves(h, c, macOf, w, es[..n]).0;
            && AsksFor(h, macOf, was.book, es[j], m) && Welcome(c, was.tables, m) && KeyDue(c, was.tables, m) != []
            && (forall i :: j < i < n && es[i].Order? ==> !Commands.Rekeys(es[i].command, m)) ==>
              SameDue(c, was.tables, now.tables, m)
  {
    hide AllCounted, AsksFor, Move, Welcome, KeyDue, SameDue, Commands.Rekeys;
    var was, between := Moves(h, c, macOf, w, es[..j]).0, es[j + 1..n];
    if && AsksFor(h, macOf, was.book, es[j], m) && Welcome(c, was.tables, m) && KeyDue(c, was.tables, m) != []
       && (forall i :: j < i < n && es[i].Order? ==> !Commands.Rekeys(es[i].command, m)) {
      assert es[..n] == es[..j] + es[j..n] && es[j..n][1..] == between && es[j..n][0] == es[j];
      MovesConcat(h, c, macOf, w, es[..j], es[j..n]);
      StaysFrom(h, c, macOf, was, es[j], between, m);
    }
  }
}
