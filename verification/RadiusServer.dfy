/** The RADIUS server loop (radius_server.c): clients, sessions with timers, duplicate detection and counters. */
module RadiusServer {
  import opened Bytes
  import opened Bits
  import opened Options
  import opened Md5Spec
  import opened RadiusCodec
  import opened RadiusAuth
  import opened RadiusMsg
  import opened RadiusOps
  import opened RadiusQueries
  import opened Tunnel
  import opened RadiusReply
  import opened PrintfEncode
  import opened RadiusSessions

  const USER_NAME: byte := 1
  const STATE: byte := 24
  const ACCESS_REQUEST: byte := 1

  /** A datagram the client takes as the answer to its request: it parses whole, carries the identifier and verifies
      against the request authenticator. It never names a session. */
  ghost predicate Answers(h: Hash, out: seq<byte>, ident: byte, auth: Digest16, secret: seq<byte>)
  {
    && WellFormed(out) && MacInside(out) && Accepted(out) == Some(out)
    && ReplyVerified(h, out, secret, auth, true) && out[1] == ident && OfType(AttrsOf(out), STATE) == []
  }

  /** The finished reply to a request, with the answer of the connection callback. */
  ghost function ReplyTo(h: Hash, request: seq<byte>, conn: Conn, salt: nat, secret: seq<byte>): (r: seq<byte>)
    requires WellFormed(request)
    requires AllFit(ReplyAttrs(h, AttrsOf(request), conn, salt, RequestAuth(request), secret))
  {
    FinishedReply(h, Draft(h, request, conn, salt, secret), secret, RequestAuth(request))
  }

  const REFUSE := Conn(-1, [])

  lemma DraftBound(h: Hash, request: seq<byte>, conn: Conn, salt: nat, secret: seq<byte>)
    requires WellFormed(request) && |request| <= MAX_MSG_LEN
    requires AllFit(ReplyAttrs(h, AttrsOf(request), conn, salt, RequestAuth(request), secret))
    ensures |Draft(h, request, conn, salt, secret)| <= HEADER + |request| + 1020
  {
    hide ParseAttrs, OfType, EncodeAttrs, VlanAttrs, PasswordAttr;
    var attrs, auth := AttrsOf(request), RequestAuth(request);
    var extra := if !Accepts(attrs, conn) then []
                 else VlanAttrs(Short(conn.vlan)) + [PasswordAttr(h, conn.pass, salt, auth, secret)];
    var all := OfType(attrs, PROXY_STATE) + extra;
    DraftLength(request, extra);
  }

  lemma ReplyAnswers(h: Hash, request: seq<byte>, conn: Conn, salt: nat, secret: seq<byte>)
    requires WellFormed(request) && |request| <= MAX_MSG_LEN
    requires AllFit(ReplyAttrs(h, AttrsOf(request), conn, salt, RequestAuth(request), secret))
    ensures var out := ReplyTo(h, request, conn, salt, secret);
            && Answers(h, out, request[1], RequestAuth(request), secret)
            && out[0] == if Accepts(AttrsOf(request), conn) then ACCESS_ACCEPT else ACCESS_REJECT
  {
    hide ParseAttrs, OfType, ReplyAttrs, ReplyVerified, MacInside, Accepted, AttrsOf, FinishedReply, Draft, Accepts;
    DraftBound(h, request, conn, salt, secret);
    ReplyEndToEnd(h, request, conn, salt, secret, [], 0);
    DraftHeader(h, request, conn, salt, secret);
    var out := ReplyTo(h, request, conn, salt, secret);
    assert out + [] == out;
    FirstOctet(h, request, conn, salt, secret);
    NoState(h, request, conn, salt, secret);
  }

  lemma NoState(h: Hash, request: seq<byte>, conn: Conn, salt: nat, secret: seq<byte>)
    requires WellFormed(request)
    requires AllFit(ReplyAttrs(h, AttrsOf(request), conn, salt, RequestAuth(request), secret))
    ensures var out := ReplyTo(h, request, conn, salt, secret);
            WellFormed(out) && OfType(AttrsOf(out), STATE) == []
  {
    hide ParseAttrs, OfType, AttrsOf, FinishedReply, Draft, Accepts, PasswordAttr, VlanAttrs, AllFit;
    var attrs, auth := AttrsOf(request), RequestAuth(request);
    DraftAttrs(h, request, conn, salt, secret);
    var mac := FinishedReplyAttrs(h, Draft(h, request, conn, salt, secret), secret, auth);
    NoStateAttrs(h, attrs, conn, salt, auth, secret);
    var all := ReplyAttrs(h, attrs, conn, salt, auth, secret) + [MacAttr(mac)];
    OthersNotOfType(all, STATE);
  }

  lemma NoStateAttrs(h: Hash, attrs: seq<Attr>, conn: Conn, salt: nat, auth: seq<byte>, secret: seq<byte>)
    ensures forall a :: a in ReplyAttrs(h, attrs, conn, salt, auth, secret) ==> a.typ != STATE
  {
    hide OfType, Accepts;
    OfTypeMembers(attrs, PROXY_STATE);
  }

  lemma FirstOctet(h: Hash, request: seq<byte>, conn: Conn, salt: nat, secret: seq<byte>)
    requires WellFormed(request)
    requires AllFit(ReplyAttrs(h, AttrsOf(request), conn, salt, RequestAuth(request), secret))
    ensures ReplyTo(h, request, conn, salt, secret)[0] == Draft(h, request, conn, salt, secret)[0]
  {
  }

  lemma RefuseFits(h: Hash, request: seq<byte>, secret: seq<byte>)
    requires WellFormed(request)
    ensures AllFit(ReplyAttrs(h, AttrsOf(request), REFUSE, 0, RequestAuth(request), secret))
    ensures !Accepts(AttrsOf(request), REFUSE)
    ensures ReplyAttrs(h, AttrsOf(request), REFUSE, 0, RequestAuth(request), secret) ==
            OfType(AttrsOf(request), PROXY_STATE) + []
  {
    hide ParseAttrs, OfType;
    OfTypeMembers(AttrsOf(request), PROXY_STATE);
  }

  /** radius_server_reject: the reply it sends. */
  method RejectReply(request: Message, secret: seq<byte>) returns (out: seq<byte>)
    requires request.Valid() && |secret| < WORD && |request.Raw()| <= MAX_MSG_LEN
    ensures AllFit(ReplyAttrs(Md5, request.Attrs(), REFUSE, 0, RequestAuth(request.Raw()), secret))
    ensures out == ReplyTo(Md5, request.Raw(), REFUSE, 0, secret)
  {
    hide Md5, ParseAttrs, AttrsOf, Positions, OfType, FinishedReply, Draft, ReplyAttrs;
    RefuseFits(Md5, request.Raw(), secret);
    var auth: Digest16 := request.buf.data[4..HEADER];
    assert auth == RequestAuth(request.Raw());
    var reply := DraftReply(request, ACCESS_REJECT, []);
    DraftIs(Md5, request.Raw(), REFUSE, 0, secret, ACCESS_REJECT, [], reply.Raw());
    var _ := reply.FinishReply(secret, auth);
    out := reply.buf.data[..reply.buf.used];
  }

  /** The sessions of one client belong to it, and their stored replies answer the requests they were stored for.
      Without a stored reply a session is as it was made. */
  ghost predicate ClientOk(h: Hash, i: nat, c: Client)
  {
    && |c.secret| < WORD
    && (forall s :: s in c.sessions ==> SessionOk(h, i, c.secret, s))
  }

  ghost predicate SessionOk(h: Hash, i: nat, secret: seq<byte>, s: Session)
  {
    && s.client == i
    && (s.reply.Some? ==> Answers(h, s.reply.value, s.ident, s.auth, secret))
    && (s.reply.None? ==> s.port == 0 && s.ident == 0 && s.auth == Zeros(16))
  }

  ghost predicate ClientsOk(h: Hash, cs: seq<Client>) { forall i :: 0 <= i < |cs| ==> ClientOk(h, i, cs[i]) }

  /** radius_server_get_session: the first session of the client with this id. */
  function FindSession(ss: seq<Session>, id: nat): (r: Option<nat>)
    ensures r.Some? ==> r.value < |ss| && ss[r.value].id == id
    ensures r.None? ==> forall s :: s in ss ==> s.id != id
    decreases |ss|
  {
    if ss == [] then None
    else if ss[0].id == id then Some(0)
    else
      var rest := FindSession(ss[1..], id);
      if rest.None? then None else Some(rest.value + 1)
  }

  lemma FindStep(ss: seq<Session>, j: nat, id: nat)
    requires j < |ss|
    ensures var rest := FindSession(ss[j + 1..], id);
            FindSession(ss[j..], id) ==
            if ss[j].id == id then Some(0) else if rest.None? then None else Some(rest.value + 1)
  {
  }

  /** The session a request is for: a State attribute names one, otherwise a new one is made while there is room. */
  datatype Target = NoSession | Existing(at: nat) | Fresh

  function TargetOf(attrs: seq<Attr>, ss: seq<Session>, num: int): (r: Target)
    ensures r.Existing? ==> r.at < |ss|
  {
    var states, users := OfType(attrs, STATE), OfType(attrs, USER_NAME);
    if states != [] then
      if |states[0].value| != 4 then NoSession
      else
        var at := FindSession(ss, Be32At(states[0].value));
        if at.Some? then Existing(at.value) else NoSession
    else if users == [] || num >= MAX_SESSION then NoSession
    else Fresh
  }

  /** Only the counters differ. */
  ghost predicate SameSessions(a: seq<Client>, b: seq<Client>)
  {
    |a| == |b| && forall i :: 0 <= i < |a| ==> b[i] == a[i].(counters := b[i].counters)
  }

  /** The counters of a client after these events. */
  function Counted(c: Client, ks: seq<Kind>): (r: Client)
    requires AllKinds(c.counters)
    ensures r == c.(counters := r.counters) && AllKinds(r.counters)
    decreases |ks|
  {
    if ks == [] then c
    else
      var d := Counted(c, ks[..|ks| - 1]);
      d.(counters := Bump(d.counters, ks[|ks| - 1]))
  }

  lemma {:induction false} SameAll(a: seq<Client>, b: seq<Client>)
    requires SameSessions(a, b)
    ensures All(a) == All(b)
    decreases |a|
  {
    if a != [] {
      SameAll(a[..|a| - 1], b[..|b| - 1]);
    }
  }

  /** A datagram with what the callback and the random salt give, or the timer of a session. */
  datatype Event = Datagram(from: Ip, port: int, data: seq<byte>, conn: Conn, salt: nat) | Timer(serial: nat)
  {
    ghost predicate Readable() { Datagram? ==> Checkable(data) }

    ghost predicate Possible() { Datagram? ==> |data| <= MAX_MSG_LEN && Writable(conn) }
  }

  /** The datagram is the answer the client of this address takes for its request. */
  ghost predicate FitAnswer(h: Hash, cs: seq<Client>, from: Ip, data: seq<byte>, sent: seq<byte>)
  {
    var i, raw := ClientAt(cs, from), Accepted(data);
    i.Some? && raw.Some? && |raw.value| >= HEADER &&
    Answers(h, sent, raw.value[1], RequestAuth(raw.value), cs[i.value].secret)
  }

  /** A client after a datagram from it. */
  ghost function AfterDatagram(h: Hash, c: Client, num: int, serial: nat, id: word, i: nat, from: Ip, port: int,
                               data: seq<byte>, conn: Conn, salt: nat): (r: Client)
    requires Checkable(data) && AllKinds(c.counters)
    ensures AllKinds(r.counters) && |r.sessions| >= |c.sessions|
  {
    var raw := Accepted(data);
    if raw.None? then Counted(c, [Malformed])
    else if raw.value[0] != ACCESS_REQUEST then Counted(c, [Unknown])
    else
      var d := Counted(c, [Kind.Request]);
      if !MsgAuthVerified(h, raw.value, c.secret, None) then Counted(d, [BadAuth])
      else
        var v := Verdict(h, raw.value, c, num, port, conn, salt);
        ClientAfter(raw.value, d, num, serial, id, i, from, port, v.0, v.1)
  }

  /** Every datagram the server sends answers the request it came for, also when it repeats a stored reply. */
  lemma ReactionAnswers(h: Hash, cs: seq<Client>, i: nat, num: int, port: int, data: seq<byte>, conn: Conn, salt: nat)
    requires ClientsOk(h, cs) && i < |cs| && |data| <= MAX_MSG_LEN && Checkable(data)
    ensures var r := Reaction(h, cs[i], num, port, data, conn, salt);
            r.1.Some? ==>
              && Accepted(data).Some? && |Accepted(data).value| >= HEADER
              && var raw := Accepted(data).value;
                 Answers(h, r.1.value, raw[1], RequestAuth(raw), cs[i].secret)
  {
    hide AttrsOf, ParseAttrs, ReplyTo, ReplyAttrs, MsgAuthVerified, MacInside, Answers, Accepts;
    var c, raw := cs[i], Accepted(data);
    if Reaction(h, c, num, port, data, conn, salt).1.Some? {
      var t := TargetOf(AttrsOf(raw.value), c.sessions, num);
      hide TargetOf;
      RefuseFits(h, raw.value, c.secret);
      if t.NoSession? {
        ReplyAnswers(h, raw.value, REFUSE, 0, c.secret);
      } else if t.Existing? && Repeats(c.sessions[t.at], port, raw.value) {
        assert ClientOk(h, i, c) && SessionOk(h, i, c.secret, c.sessions[t.at]);
      } else if !(t.Fresh? && port == 0 && raw.value[1] == 0 && raw.value[4..HEADER] == Zeros(16)) {
        ReplyAnswers(h, raw.value, conn, salt, c.secret);
      }
    }
  }

  class Server {
    var clients: seq<Client>
    var numSess: int
    var nextId: word
    var counters: Counters
    var timers: set<nat>
    var made: nat
    ghost var log: seq<Kind>
    ghost var silent: nat

    ghost predicate Sound()
      reads this
    {
      && Booked(All(clients), numSess, made, timers) && nextId == made % WORD
      && Tallied(clients, counters, log) && ClientsOk(Md5, clients)
    }

    ghost predicate Valid()
      reads this
    {
      Sound() && Accounted(log, silent)
    }

    /** radius_server_get_client: the first whose subnet holds the address. */
    method GetClient(addr: Ip) returns (r: Option<nat>)
      ensures r == ClientAt(clients, addr)
    {
      hide AndBits, InSubnet;
      var i := 0;
      while i < |clients|
        invariant 0 <= i <= |clients|
        invariant var r := ClientAt(clients[i..], addr);
                  ClientAt(clients, addr) == if r.None? then None else Some(r.value + i)
      {
        if InSubnet(clients[i], addr) {
          return Some(i);
        }
        i := i + 1;
      }
      r := None;
    }

    /** The paired increments of a server counter and the client's own. */
    method Note(i: nat, k: Kind)
      requires Sound() && i < |clients|
      modifies this`clients, this`counters, this`log
      ensures Sound() && log == old(log) + [k] && AllKinds(old(counters)) && counters == Bump(old(counters), k)
      ensures AllKinds(old(clients)[i].counters)
      ensures clients == old(clients)[i := Counted(old(clients)[i], [k])]
    {
      hide Booked, Count, Sum, All, Md5, SessionOk;
      var c := clients[i].(counters := Bump(clients[i].counters, k));
      BumpTallied(clients, i, c, counters, log, k);
      SameAll(clients, clients[i := c]);
      counters := Bump(counters, k);
      clients := clients[i := c];
      log := log + [k];
    }

    /** A packet from an address that belongs to no client has no client counter. */
    method NoteInvalid()
      requires Sound()
      modifies this`counters, this`log
      ensures Sound() && log == old(log) + [Invalid]
    {
      hide Booked, Count, Sum, All, Md5, ClientsOk;
      InvalidTallied(clients, counters, log);
      counters := Bump(counters, Invalid);
      log := log + [Invalid];
    }

    /** radius_server_session_remove and radius_server_session_free, on the session at position j of client i. */
    method Remove(i: nat, j: nat)
      requires Sound() && i < |clients| && j < |clients[i].sessions|
      modifies this`clients, this`numSess, this`timers
      ensures Sound() && numSess == old(numSess) - 1
      ensures clients == old(clients)[i := Without(old(clients)[i], j)]
      ensures timers == old(timers) - {old(clients)[i].sessions[j].serial}
    {
      hide Booked, Count, Sum, All, Md5, SessionOk;
      var s, ss := clients[i].sessions[j], clients[i].sessions;
      var c := Without(clients[i], j);
      AllAround(clients, i, c);
      ghost var a, b := All(clients[..i]) + ss[..j], ss[j + 1..] + All(clients[i + 1..]);
      assert All(clients) == a + ([s] + b) && All(clients[i := c]) == a + b;
      RemoveBooked(a, b, s, numSess, made, timers);
      SameCounters(clients, i, c, counters, log);
      timers := timers - {s.serial};
      numSess := numSess - 1;
      clients := clients[i := c];
    }

    /** radius_server_new_session and radius_server_get_new_session, with room for one more. */
    method NewSession(i: nat, user: seq<byte>, from: Ip)
      requires Sound() && i < |clients| && numSess < MAX_SESSION
      modifies this`clients, this`numSess, this`timers, this`nextId, this`made
      ensures Sound() && numSess == old(numSess) + 1 && timers == old(timers) + {old(made)} && made == old(made) + 1
      ensures var s := Session(old(made), old(nextId), i, Encode(user), from, 0, 0, Zeros(16), None);
              clients == old(clients)[i := With(old(clients)[i], s)]
    {
      hide Booked, Count, Sum, All, Md5, Answers, Encode;
      var txt := new byte[4 * |user| + 1];
      var n, len := EncodeInto(txt, user);
      assert user[..n] == user;
      var s := Session(made, nextId, i, txt[..len], from, 0, 0, Zeros(16), None);
      var c := With(clients[i], s);
      AllAround(clients, i, c);
      ghost var a, b := All(clients[..i]), clients[i].sessions + All(clients[i + 1..]);
      assert All(clients) == a + b && All(clients[i := c]) == a + ([s] + b);
      InsertBooked(a, b, s, numSess, made, timers);
      SameCounters(clients, i, c, counters, log);
      AddMod(made, 1);
      timers := timers + {made};
      clients := clients[i := c];
      numSess := numSess + 1;
      nextId, made := (nextId + 1) % WORD, made + 1;
    }

    /** No sessions, no timers, all counters zero. */
    constructor (clients: seq<Client>)
      requires forall c :: c in clients ==> c.sessions == [] && |c.secret| < WORD && c.counters == ZERO_COUNTERS
      ensures Valid() && this.clients == clients && log == [] && silent == 0 && made == 0
    {
      hide Md5, Booked, Tallied, All, ClientsOk, Accounted;
      this.clients := clients;
      numSess, nextId, timers, made, log, silent := 0, 0, {}, 0, [], 0;
      counters := ZERO_COUNTERS;
      new;
      EmptyStart(clients);
    }

    /** radius_server_request, the first part: the session the request is for, made if there is none. */
    method Locate(i: nat, msg: Message, from: Ip) returns (at: Option<nat>)
      requires Sound() && i < |clients| && msg.Valid()
      modifies this`clients, this`numSess, this`timers, this`nextId, this`made
      ensures Sound()
      ensures var t := TargetOf(msg.Attrs(), old(clients)[i].sessions, old(numSess));
              && |clients| == |old(clients)|
              && made == old(made) + |clients[i].sessions| - |old(clients)[i].sessions|
              && (t.NoSession? ==> at == None && clients == old(clients))
              && (t.Existing? ==> at == Some(t.at) && clients == old(clients))
              && (t.Fresh? ==>
                    (var s := FreshSession(msg.Attrs(), old(made), old(nextId), i, from);
                    at == Some(0) && clients == old(clients)[i := With(old(clients)[i], s)]))
    {
      hide Booked, Tallied, ClientsOk, All, Md5, AttrsOf, Positions, ParseAttrs, OfType, Encode;
      ghost var ss := clients[i].sessions;
      var state := FirstOfType(msg, STATE);
      if state.Some? {
        if |state.value| != 4 {
          return None;
        }
        at := GetSession(i, Be32At(state.value));
        return;
      }
      var user := FirstOfType(msg, USER_NAME);
      if user.None? || numSess >= MAX_SESSION {
        return None;
      }
      NewSession(i, user.value, from);
      at := Some(0);
    }

    /** radius_server_get_session */
    method GetSession(i: nat, id: nat) returns (at: Option<nat>)
      requires i < |clients|
      ensures at == FindSession(clients[i].sessions, id)
    {
      hide FindSession;
      var ss := clients[i].sessions;
      var j := 0;
      while j < |ss|
        invariant 0 <= j <= |ss|
        invariant var r := FindSession(ss[j..], id);
                  FindSession(ss, id) == if r.None? then None else Some(r.value + j)
      {
        FindStep(ss, j, id);
        if ss[j].id == id {
          return Some(j);
        }
        j := j + 1;
      }
      at := None;
    }

    /** The last_reply, last_from_port, last_identifier and last_authenticator fields of a session. */
    method Remember(i: nat, j: nat, port: int, ident: byte, auth: Digest16, reply: seq<byte>)
      requires Sound() && i < |clients| && j < |clients[i].sessions|
      requires Answers(Md5, reply, ident, auth, clients[i].secret)
      modifies this`clients
      ensures Sound() && clients == old(clients)[i := Answered(old(clients)[i], j, port, ident, auth, reply)]
    {
      hide Booked, Count, Sum, All, Md5, Answers;
      var s, ss := clients[i].sessions[j], clients[i].sessions;
      var t := s.(port := port, ident := ident, auth := auth, reply := Some(reply));
      var c := Answered(clients[i], j, port, ident, auth, reply);
      AllAround(clients, i, c);
      ghost var a, b := All(clients[..i]) + ss[..j], ss[j + 1..] + All(clients[i + 1..]);
      assert All(clients) == a + ([s] + b) && All(clients[i := c]) == a + ([t] + b);
      ReplaceBooked(a, b, s, t, numSess, made, timers);
      assert ClientOk(Md5, i, clients[i]) && s in ss && SessionOk(Md5, i, c.secret, t);
      SameCounters(clients, i, c, counters, log);
      clients := clients[i := c];
    }

    /** radius_server_reject */
    method Reject(i: nat, msg: Message) returns (sent: seq<byte>)
      requires Sound() && i < |clients| && msg.Valid() && |msg.Raw()| <= MAX_MSG_LEN
      modifies this`clients, this`counters, this`log
      ensures Sound() && log == old(log) + [RejectSent] && AllKinds(old(clients)[i].counters)
      ensures clients == old(clients)[i := Counted(old(clients)[i], [RejectSent])]
      ensures AllFit(ReplyAttrs(Md5, msg.Attrs(), REFUSE, 0, RequestAuth(msg.Raw()), old(clients)[i].secret))
      ensures sent == ReplyTo(Md5, msg.Raw(), REFUSE, 0, old(clients)[i].secret)
    {
      hide Booked, Tallied, All, Md5, AttrsOf, Positions, ParseAttrs, ReplyTo, ReplyAttrs;
      sent := RejectReply(msg, clients[i].secret);
      Note(i, RejectSent);
    }

    /** radius_server_request, the last part: the reply, counted and remembered in the session. */
    method Answer(i: nat, j: nat, msg: Message, port: int, conn: Conn, salt: nat)
      returns (kind: Option<Kind>, sent: Option<seq<byte>>)
      requires Sound() && i < |clients| && j < |clients[i].sessions|
      requires msg.Valid() && |msg.Raw()| <= MAX_MSG_LEN && Writable(conn)
      modifies this`clients, this`counters, this`log, this`silent
      ensures Sound() && (kind, sent) == Decision(Md5, msg.Raw(), old(clients)[i].secret, conn, salt)
      ensures kind.Some? ==> log == old(log) + [kind.value] && silent == old(silent)
      ensures kind.None? ==> log == old(log) && silent == old(silent) + 1 && clients == old(clients)
      ensures AllKinds(old(clients)[i].counters) && (kind.Some? <==> sent.Some?) && kind != Some(Duplicate)
      ensures kind.Some? ==> clients == old(clients)[i := Answered(Counted(old(clients)[i], [kind.value]), j, port,
                                                                   msg.Raw()[1], RequestAuth(msg.Raw()), sent.value)]
    {
      hide Booked, Tallied, ClientsOk, All, Md5, AttrsOf, Positions, ParseAttrs, ReplyAttrs, Answers, FinishedReply,
           Draft, Counted;
      SecretOf(Md5, clients, i);
      KindsOf(clients, counters, log, i);
      ghost var raw := msg.Raw();
      var secret := clients[i].secret;
      var auth: Digest16 := msg.buf.data[4..HEADER];
      assert auth == RequestAuth(raw);
      var reply := Macacl(msg, conn, salt, secret);
      if reply == null {
        silent := silent + 1;
        return None, None;
      }
      ReplyAnswers(Md5, raw, conn, salt, secret);
      var out := reply.buf.data[..reply.buf.used];
      kind := Some(KindOf(reply.buf.data[0]));
      Note(i, kind.value);
      sent := Some(out);
      Remember(i, j, port, msg.buf.data[1], auth, out);
    }

    /** radius_server_request, once it has a session: the stored reply to a repeated request, else a new one. */
    method Serve(i: nat, j: nat, msg: Message, port: int, conn: Conn, salt: nat)
      returns (kind: Option<Kind>, sent: Option<seq<byte>>)
      requires Sound() && i < |clients| && j < |clients[i].sessions|
      requires msg.Valid() && |msg.Raw()| <= MAX_MSG_LEN && Writable(conn)
      modifies this`clients, this`counters, this`log, this`silent
      ensures Sound() && AllKinds(old(clients)[i].counters)
      ensures var o := Outcome(Md5, msg.Raw(), old(clients)[i], j, port, conn, salt);
              kind == o.0 && sent == o.1 && clients == old(clients)[i := o.2]
      ensures kind.Some? ==> log == old(log) + [kind.value] && silent == old(silent)
      ensures kind.None? ==> log == old(log) && silent == old(silent) + 1
    {
      hide Booked, Tallied, ClientsOk, All, Md5, AttrsOf, Positions, ParseAttrs, Decision, Counted, Answers;
      KindsOf(clients, counters, log, i);
      var s, auth := clients[i].sessions[j], msg.buf.data[4..HEADER];
      assert auth == msg.Raw()[4..HEADER];
      if s.port == port && s.ident == msg.buf.data[1] && s.auth == auth {
        Note(i, Duplicate);
        return Some(Duplicate), s.reply;
      }
      kind, sent := Answer(i, j, msg, port, conn, salt);
      assert kind.None? ==> clients == old(clients)[i := old(clients)[i]];
    }

    /** radius_server_request */
    method Request(i: nat, msg: Message, from: Ip, port: int, conn: Conn, salt: nat)
      returns (kind: Option<Kind>, sent: Option<seq<byte>>)
      requires Sound() && i < |clients|
      requires msg.Valid() && |msg.Raw()| <= MAX_MSG_LEN && Writable(conn)
      modifies this
      ensures Sound() && (kind, sent) == Verdict(Md5, msg.Raw(), old(clients)[i], old(numSess), port, conn, salt)
      ensures kind.Some? ==> log == old(log) + [kind.value] && silent == old(silent)
      ensures kind.None? ==> log == old(log) && silent == old(silent) + 1
      ensures AllKinds(old(clients)[i].counters)
      ensures |clients| == |old(clients)| && made == old(made) + |clients[i].sessions| - |old(clients)[i].sessions|
      ensures clients == old(clients)[i := ClientAfter(msg.Raw(), old(clients)[i], old(numSess), old(made),
                                                       old(nextId), i, from, port, kind, sent)]
    {
      hide Booked, Tallied, ClientsOk, All, Md5, AttrsOf, Positions, ParseAttrs, ReplyAttrs, Answers, FinishedReply,
           Draft, Decision, ReplyTo, TargetOf, Counted, FreshSession, Verdict, ClientAfter, Outcome;
      KindsOf(clients, counters, log, i);
      VerdictCases(Md5, msg.Raw(), clients[i], numSess, made, nextId, i, from, port, conn, salt);
      var at := Locate(i, msg, from);
      if at.None? {
        var out := Reject(i, msg);
        return Some(RejectSent), Some(out);
      }
      OutcomeKeeps(Md5, msg.Raw(), clients[i], at.value, port, conn, salt);
      kind, sent := Serve(i, at.value, msg, port, conn, salt);
      assert clients == old(clients)[i := clients[i]];
    }

    /** radius_server_receive_auth, once the client is known. */
    method FromClient(i: nat, from: Ip, port: int, data: seq<byte>, conn: Conn, salt: nat)
      returns (sent: Option<seq<byte>>)
      requires Sound() && i < |clients| && |data| <= MAX_MSG_LEN && Writable(conn) && Checkable(data)
      modifies this
      ensures Sound()
      ensures var r := Reaction(Md5, old(clients)[i], old(numSess), port, data, conn, salt);
              log == old(log) + r.0 && sent == r.1 && silent == old(silent) + (if r.0 == [Kind.Request] then 1 else 0)
      ensures AllKinds(old(clients)[i].counters)
      ensures |clients| == |old(clients)| && made == old(made) + |clients[i].sessions| - |old(clients)[i].sessions|
      ensures clients == old(clients)[i := AfterDatagram(Md5, old(clients)[i], old(numSess), old(made), old(nextId), i,
                                                         from, port, data, conn, salt)]
    {
      hide Booked, Tallied, ClientsOk, All, Md5, AttrsOf, Positions, ParseAttrs, Verdict, MsgAuthVerified, MacInside,
           Counted, ClientAfter;
      var msg := Parse(data);
      if msg == null {
        Note(i, Malformed);
        return None;
      }
      if msg.buf.data[0] != ACCESS_REQUEST {
        Note(i, Unknown);
        return None;
      }
      SecretOf(Md5, clients, i);
      Note(i, Kind.Request);
      var bad := msg.VerifyMsgAuth(clients[i].secret, None);
      if bad != 0 {
        Note(i, BadAuth);
        return None;
      }
      VerdictSame(Md5, msg.Raw(), old(clients)[i], clients[i], numSess, port, conn, salt);
      var kind;
      kind, sent := Request(i, msg, from, port, conn, salt);
    }

    /** radius_server_receive_auth */
    method Receive(from: Ip, port: int, data: seq<byte>, conn: Conn, salt: nat) returns (sent: Option<seq<byte>>)
      requires Valid() && |data| <= MAX_MSG_LEN && Writable(conn) && Checkable(data)
      modifies this
      ensures Valid()
      ensures var i := ClientAt(old(clients), from);
              if i.None? then sent == None && log == old(log) + [Invalid] && clients == old(clients)
              else var r := Reaction(Md5, old(clients)[i.value], old(numSess), port, data, conn, salt);
                   log == old(log) + r.0 && sent == r.1
      ensures sent.Some? ==> FitAnswer(Md5, old(clients), from, data, sent.value)
      ensures SameClients(old(clients), clients) && AllCounted(old(clients))
      ensures (Book(clients, made), sent) ==
              Step(Md5, Book(old(clients), old(made)), Event.Datagram(from, port, data, conn, salt))
    {
      hide Booked, Tallied, ClientsOk, All, Md5, Reaction, Count, Checkable, Accounted, AfterDatagram, Answers,
           AllCounted;
      BookCounts(clients, numSess, made, timers, counters, log);
      var i := GetClient(from);
      if i.None? {
        AccountedNext(log, silent, [Invalid]);
        NoteInvalid();
        return None;
      }
      ghost var r := Reaction(Md5, clients[i.value], numSess, port, data, conn, salt);
      Balance(Md5, clients[i.value], numSess, port, data, conn, salt);
      ReactionAnswers(Md5, clients, i.value, numSess, port, data, conn, salt);
      AccountedNext(log, silent, r.0);
      KindsOf(clients, counters, log, i.value);
      AfterSame(Md5, clients[i.value], numSess, made, nextId, i.value, from, port, data, conn, salt);
      sent := FromClient(i.value, from, port, data, conn, salt);
    }

    /** Where the session of a timer is. */
    method FindSerial(serial: nat) returns (i: nat, j: nat)
      requires exists k, l ::
                 0 <= k < |clients| && 0 <= l < |clients[k].sessions| && clients[k].sessions[l].serial == serial
      ensures i < |clients| && j < |clients[i].sessions| && clients[i].sessions[j].serial == serial
      ensures Expired(clients, serial) == clients[i := Without(clients[i], j)]
    {
      hide Expired;
      var found := false;
      i, j := 0, 0;
      while i < |clients| && !found
        invariant 0 <= i <= |clients|
        invariant forall k, l ::
                    0 <= k < i && 0 <= l < |clients[k].sessions| ==> clients[k].sessions[l].serial != serial
        invariant found ==> i < |clients| && j < |clients[i].sessions| && clients[i].sessions[j].serial == serial
        invariant found ==> forall l :: 0 <= l < j ==> clients[i].sessions[l].serial != serial
        decreases |clients| - i, !found
      {
        j := Position(clients[i].sessions, serial);
        if j < |clients[i].sessions| {
          found := true;
        } else {
          i := i + 1;
        }
      }
      ExpiredIs(clients, i, j, serial);
    }

    /** radius_server_session_timeout: a pending timer names a live session, which goes. */
    method Expire(serial: nat)
      requires Valid() && serial in timers
      modifies this`clients, this`numSess, this`timers
      ensures Valid() && timers == old(timers) - {serial} && numSess == old(numSess) - 1
      ensures SameClients(old(clients), clients) && clients == Expired(old(clients), serial)
    {
      hide Tallied, ClientsOk, All, Md5, Accounted, Booked, Expired;
      LiveTimer(clients, numSess, made, timers, serial);
      var i, j := FindSerial(serial);
      Remove(i, j);
    }

    /** One event: what it does is a step of the pure machine, and what it sends is the answer to what came. */
    method Handle(e: Event) returns (out: Option<seq<byte>>)
      requires Valid() && e.Readable() && e.Possible()
      modifies this
      ensures Valid() && AllCounted(old(clients)) && AllCounted(clients)
      ensures SameClients(old(clients), clients) && FitEvent(Md5, old(clients), e, out)
      ensures (Book(clients, made), out) == Step(Md5, Book(old(clients), old(made)), e)
    {
      hide Sound, Accounted, Checkable, FitAnswer, SameClients, Reaction, ClientAt, Md5, AllCounted, Step, Expired,
           Writable;
      Countable();
      match e {
        case Datagram(from, port, data, conn, salt) =>
          out := Receive(from, port, data, conn, salt);
        case Timer(serial) =>
          TimerStep(Md5, Book(clients, made), serial);
          out := None;
          if serial in timers {
            Expire(serial);
          } else {
            NoTimer(serial);
            SameRefl(clients);
          }
      }
      Countable();
    }

    /** Every run of datagrams and timeouts is one of the pure machine, and each datagram sent in it is the answer to
        the one it came for. */
    method Run(events: seq<Event>) returns (sent: seq<Option<seq<byte>>>)
      requires Valid() && AllReadable(events) && forall e :: e in events ==> e.Possible()
      modifies this
      ensures Valid() && SameClients(old(clients), clients) && |sent| == |events| && AllCounted(old(clients))
      ensures forall n :: 0 <= n < |sent| ==> FitEvent(Md5, old(clients), events[n], sent[n])
      ensures var all := Steps(Md5, Book(old(clients), old(made)), events);
              Book(clients, made) == all.0 && sent == all.1
    {
      hide Server.Valid, FitEvent, SameClients, Md5, AllCounted, Step, Steps, Event.Possible, Event.Readable;
      sent := [];
      SameRefl(clients);
      Countable();
      assert events[0..] == events;
      ghost var start := Book(clients, made);
      for n := 0 to |events|
        invariant Valid() && SameClients(old(clients), clients) && |sent| == n && AllCounted(clients)
        invariant forall k :: 0 <= k < n ==> FitEvent(Md5, old(clients), events[k], sent[k])
        invariant var all, rest := Steps(Md5, start, events), Steps(Md5, Book(clients, made), events[n..]);
                  all.0 == rest.0 && all.1 == sent + rest.1
      {
        assert events[n] in events;
        StepsFrom(Md5, Book(clients, made), events, n);
        ghost var before := clients;
        var out := Handle(events[n]);
        SameStep(Md5, old(clients), before, clients, events[n], out);
        sent := sent + [out];
      }
      StepsEnd(Md5, Book(clients, made), events);
    }

    lemma Countable()
      requires Valid()
      ensures AllCounted(clients)
    {
    }

    lemma NoTimer(serial: nat)
      requires Valid() && serial !in timers
      ensures Expired(clients, serial) == clients
    {
      hide ClientsOk, Tallied, Accounted, Md5;
      forall i, l | 0 <= i < |clients| && 0 <= l < |clients[i].sessions|
        ensures clients[i].sessions[l].serial != serial
      {
        InAll(clients, i, clients[i].sessions[l]);
      }
      ExpiredNone(clients, serial);
    }
  }

  /** What the server remembers: the clients with their sessions and counters, and how many sessions were ever made. */
  datatype Book = Book(clients: seq<Client>, made: nat)

  ghost predicate AllReadable(es: seq<Event>) { forall i :: 0 <= i < |es| ==> es[i].Readable() }

  ghost predicate AllCounted(cs: seq<Client>) { forall c :: c in cs ==> AllKinds(c.counters) }

  /** Where a session is in a list; its length if it is not there. */
  function Place(ss: seq<Session>, serial: nat): (j: nat)
    ensures j <= |ss|
    decreases |ss|
  {
    if ss == [] || ss[0].serial == serial then 0 else 1 + Place(ss[1..], serial)
  }

  /** The clients after the timer of a session, which is in at most one of them. */
  function Expired(cs: seq<Client>, serial: nat): (r: seq<Client>)
    ensures |r| == |cs| && forall i :: 0 <= i < |r| ==> r[i].counters == cs[i].counters
    decreases |cs|
  {
    if cs == [] then []
    else
      var j := Place(cs[0].sessions, serial);
      if j < |cs[0].sessions| then [Without(cs[0], j)] + cs[1..] else [cs[0]] + Expired(cs[1..], serial)
  }

  /** The server as a pure machine: what it remembers after an event, and what it sends. */
  ghost function Step(h: Hash, b: Book, e: Event): (r: (Book, Option<seq<byte>>))
    requires AllCounted(b.clients) && e.Readable()
    ensures AllCounted(r.0.clients)
  {
    match e
    case Datagram(from, port, data, conn, salt) =>
      var i := ClientAt(b.clients, from);
      if i.None? then (b, None)
      else
        var c, num := b.clients[i.value], |All(b.clients)|;
        var d := AfterDatagram(h, c, num, b.made, b.made % WORD, i.value, from, port, data, conn, salt);
        (Book(b.clients[i.value := d], b.made + (|d.sessions| - |c.sessions|)),
         Reaction(h, c, num, port, data, conn, salt).1)
    case Timer(serial) => (Book(Expired(b.clients, serial), b.made), None)
  }

  ghost function Steps(h: Hash, b: Book, es: seq<Event>): (r: (Book, seq<Option<seq<byte>>>))
    requires AllCounted(b.clients) && AllReadable(es)
    ensures |r.1| == |es|
    decreases |es|
  {
    if es == [] then (b, [])
    else
      var r := Step(h, b, es[0]);
      var rest := Steps(h, r.0, es[1..]);
      (rest.0, [r.1] + rest.1)
  }

  lemma StepsFrom(h: Hash, b: Book, es: seq<Event>, n: nat)
    requires AllCounted(b.clients) && AllReadable(es) && n < |es|
    ensures var r := Step(h, b, es[n]);
            var all, rest := Steps(h, b, es[n..]), Steps(h, r.0, es[n + 1..]);
            all.0 == rest.0 && all.1 == [r.1] + rest.1
  {
    hide Step;
    assert es[n..][1..] == es[n + 1..];
  }

  lemma StepsEnd(h: Hash, b: Book, es: seq<Event>)
    requires AllCounted(b.clients)
    ensures Steps(h, b, es[|es|..]) == (b, [])
  {
  }

  lemma TimerStep(h: Hash, b: Book, serial: nat)
    requires AllCounted(b.clients)
    ensures Step(h, b, Timer(serial)) == (Book(Expired(b.clients, serial), b.made), None)
  {
  }

  lemma BookCounts(cs: seq<Client>, num: int, made: nat, timers: set<nat>, counters: Counters, log: seq<Kind>)
    requires Booked(All(cs), num, made, timers) && Tallied(cs, counters, log)
    ensures num == |All(cs)| && AllCounted(cs)
  {
  }

  lemma {:induction false} PlaceIs(ss: seq<Session>, j: nat, serial: nat)
    requires j <= |ss| && (j < |ss| ==> ss[j].serial == serial)
    requires forall l :: 0 <= l < j ==> ss[l].serial != serial
    ensures Place(ss, serial) == j
    decreases |ss|
  {
    if j > 0 {
      PlaceIs(ss[1..], j - 1, serial);
    }
  }

  lemma {:induction false} ExpiredIs(cs: seq<Client>, i: nat, j: nat, serial: nat)
    requires i < |cs| && j < |cs[i].sessions| && cs[i].sessions[j].serial == serial
    requires forall l :: 0 <= l < j ==> cs[i].sessions[l].serial != serial
    requires forall k, l :: 0 <= k < i && 0 <= l < |cs[k].sessions| ==> cs[k].sessions[l].serial != serial
    ensures Expired(cs, serial) == cs[i := Without(cs[i], j)]
    decreases |cs|
  {
    hide Place, Without;
    var d, rest := Without(cs[i], j), cs[1..];
    if i == 0 {
      PlaceIs(cs[0].sessions, j, serial);
      assert [d] + rest == cs[0 := d];
    } else {
      PlaceIs(cs[0].sessions, |cs[0].sessions|, serial);
      assert rest[i - 1] == cs[i];
      ExpiredIs(rest, i - 1, j, serial);
      assert [cs[0]] + rest[i - 1 := d] == cs[i := d];
    }
  }

  lemma {:induction false} ExpiredNone(cs: seq<Client>, serial: nat)
    requires forall k, l :: 0 <= k < |cs| && 0 <= l < |cs[k].sessions| ==> cs[k].sessions[l].serial != serial
    ensures Expired(cs, serial) == cs
    decreases |cs|
  {
    if cs != [] {
      PlaceIs(cs[0].sessions, |cs[0].sessions|, serial);
      ExpiredNone(cs[1..], serial);
    }
  }

  lemma {:induction false} InAll(cs: seq<Client>, i: nat, s: Session)
    requires i < |cs| && s in cs[i].sessions
    ensures s in All(cs)
    decreases |cs|
  {
    if i < |cs| - 1 {
      InAll(cs[..|cs| - 1], i, s);
    }
  }

  /** The clients stay those configured: only their sessions and counters change. */
  ghost predicate SameClients(a: seq<Client>, b: seq<Client>)
  {
    |a| == |b| && forall i :: 0 <= i < |a| ==> b[i] == a[i].(sessions := b[i].sessions, counters := b[i].counters)
  }

  /** What is sent on an event: nothing on a timer, on a datagram its answer if anything. */
  ghost predicate FitEvent(h: Hash, cs: seq<Client>, e: Event, sent: Option<seq<byte>>)
  {
    sent.Some? ==> e.Datagram? && FitAnswer(h, cs, e.from, e.data, sent.value)
  }

  lemma SameRefl(cs: seq<Client>)
    ensures SameClients(cs, cs)
  {
  }

  lemma {:induction false} SameClientAt(a: seq<Client>, b: seq<Client>, addr: Ip)
    requires SameClients(a, b)
    ensures ClientAt(a, addr) == ClientAt(b, addr)
    decreases |a|
  {
    hide AndBits;
    if a != [] {
      SameClientAt(a[1..], b[1..], addr);
    }
  }

  lemma SameStep(h: Hash, a: seq<Client>, b: seq<Client>, c: seq<Client>, e: Event, sent: Option<seq<byte>>)
    requires SameClients(a, b) && SameClients(b, c) && FitEvent(h, b, e, sent)
    ensures SameClients(a, c) && FitEvent(h, a, e, sent)
  {
    hide ClientAt, Answers, Accepted;
    if sent.Some? {
      SameClientAt(a, b, e.from);
    }
  }

  lemma AfterSame(h: Hash, c: Client, num: int, serial: nat, id: word, i: nat, from: Ip, port: int, data: seq<byte>,
                  conn: Conn, salt: nat)
    requires Checkable(data) && AllKinds(c.counters)
    ensures var d := AfterDatagram(h, c, num, serial, id, i, from, port, data, conn, salt);
            d == c.(sessions := d.sessions, counters := d.counters)
  {
    hide MsgAuthVerified, Verdict, TargetOf, Counted, AttrsOf, Accepted, FreshSession;
  }

  /** A session as radius_server_new_session and radius_server_get_new_session leave it. */
  function FreshSession(attrs: seq<Attr>, serial: nat, id: word, i: nat, from: Ip): (r: Session)
    requires OfType(attrs, USER_NAME) != []
  {
    Session(serial, id, i, Encode(OfType(attrs, USER_NAME)[0].value), from, 0, 0, Zeros(16), None)
  }

  /** A client after a verified request: a fresh session in front, the outcome counted, a decision kept in its
      session. */
  ghost function ClientAfter(raw: seq<byte>, c: Client, num: int, serial: nat, id: word, i: nat, from: Ip, port: int,
                             kind: Option<Kind>, sent: Option<seq<byte>>): (r: Client)
    requires WellFormed(raw) && AllKinds(c.counters)
  {
    var attrs := AttrsOf(raw);
    var t := TargetOf(attrs, c.sessions, num);
    var d := if t.Fresh? then With(c, FreshSession(attrs, serial, id, i, from)) else c;
    var e := if kind.Some? then Counted(d, [kind.value]) else d;
    if t.NoSession? || sent.None? || kind == Some(Duplicate) then e
    else Answered(e, if t.Fresh? then 0 else t.at, port, raw[1], RequestAuth(raw), sent.value)
  }

  /** The client with the session of a request in place, and where it is. */
  ghost function Placed(raw: seq<byte>, c: Client, num: int, serial: nat, id: word, i: nat, from: Ip)
    : (r: (Client, nat))
    requires WellFormed(raw) && !TargetOf(AttrsOf(raw), c.sessions, num).NoSession?
    ensures r.1 < |r.0.sessions| && r.0.counters == c.counters
  {
    var t := TargetOf(AttrsOf(raw), c.sessions, num);
    if t.Fresh? then (With(c, FreshSession(AttrsOf(raw), serial, id, i, from)), 0) else (c, t.at)
  }

  /** A request in its session: counted if it repeats the last one, else decided and kept. */
  ghost function Outcome(h: Hash, raw: seq<byte>, c: Client, j: nat, port: int, conn: Conn, salt: nat)
    : (r: (Option<Kind>, Option<seq<byte>>, Client))
    requires WellFormed(raw) && j < |c.sessions| && AllKinds(c.counters)
  {
    var s, d := c.sessions[j], Decision(h, raw, c.secret, conn, salt);
    DecisionKind(h, raw, c.secret, conn, salt);
    if Repeats(s, port, raw) then (Some(Duplicate), s.reply, Counted(c, [Duplicate]))
    else (d.0, d.1, if d.0.None? then c
                    else Answered(Counted(c, [d.0.value]), j, port, raw[1], RequestAuth(raw), d.1.value))
  }

  lemma OutcomeKeeps(h: Hash, raw: seq<byte>, c: Client, j: nat, port: int, conn: Conn, salt: nat)
    requires WellFormed(raw) && j < |c.sessions|
    ensures AllKinds(c.counters) ==> |Outcome(h, raw, c, j, port, conn, salt).2.sessions| == |c.sessions|
  {
    hide Decision, Counted;
  }

  /** A request without a session is rejected and counted, any other has its outcome in its session. */
  lemma VerdictCases(h: Hash, raw: seq<byte>, c: Client, num: int, serial: nat, id: word, i: nat, from: Ip, port: int,
                     conn: Conn, salt: nat)
    requires WellFormed(raw) && AllKinds(c.counters)
    ensures var v := Verdict(h, raw, c, num, port, conn, salt);
            var after := ClientAfter(raw, c, num, serial, id, i, from, port, v.0, v.1);
            if TargetOf(AttrsOf(raw), c.sessions, num).NoSession? then
              && AllFit(ReplyAttrs(h, AttrsOf(raw), REFUSE, 0, RequestAuth(raw), c.secret))
              && v == (Some(RejectSent), Some(ReplyTo(h, raw, REFUSE, 0, c.secret)))
              && after == Counted(c, [RejectSent])
            else
              var p := Placed(raw, c, num, serial, id, i, from);
              var o := Outcome(h, raw, p.0, p.1, port, conn, salt);
              v == (o.0, o.1) && after == o.2
  {
    hide AttrsOf, ParseAttrs, TargetOf, ReplyTo, ReplyAttrs, Decision, Counted, Encode, AllFit;
    RefuseFits(h, raw, c.secret);
    DecisionKind(h, raw, c.secret, conn, salt);
  }

  lemma DecisionKind(h: Hash, raw: seq<byte>, secret: seq<byte>, conn: Conn, salt: nat)
    requires WellFormed(raw)
    ensures var d := Decision(h, raw, secret, conn, salt);
            d.0 != Some(Duplicate) && (d.0.Some? <==> d.1.Some?)
  {
  }

  function Answered(c: Client, j: nat, port: int, ident: byte, auth: Digest16, reply: seq<byte>): Client
    requires j < |c.sessions|
  {
    c.(sessions := c.sessions[j := c.sessions[j].(port := port, ident := ident, auth := auth, reply := Some(reply))])
  }

  lemma ZeroKinds()
    ensures AllKinds(ZERO_COUNTERS) && forall k: Kind :: ZERO_COUNTERS[k] == 0
  {
    forall k: Kind ensures k in ZERO_COUNTERS && ZERO_COUNTERS[k] == 0 {
      match k {
        case Request | Invalid | Duplicate | AcceptSent | RejectSent =>
        case Challenge | Malformed | BadAuth | Dropped | Unknown =>
      }
    }
  }

  lemma EmptyStart(cs: seq<Client>)
    requires forall c :: c in cs ==> c.sessions == [] && |c.secret| < WORD && c.counters == ZERO_COUNTERS
    ensures Booked(All(cs), 0, 0, {}) && Tallied(cs, ZERO_COUNTERS, []) && Accounted([], 0) && ClientsOk(Md5, cs)
  {
    hide Md5, Sum, All;
    EmptySums(cs);
    assert Booked([], 0, 0, {});
  }

  lemma {:induction false} EmptySums(cs: seq<Client>)
    requires forall c :: c in cs ==> c.sessions == [] && c.counters == ZERO_COUNTERS
    ensures AllKinds(ZERO_COUNTERS) && All(cs) == [] && forall k: Kind :: ZERO_COUNTERS[k] == 0 && Sum(cs, k) == 0
    decreases |cs|
  {
    ZeroKinds();
    if cs != [] {
      EmptySums(cs[..|cs| - 1]);
    }
  }

  /** The port, identifier and authenticator of the last request of a session. */
  predicate Repeats(s: Session, port: int, raw: seq<byte>)
    requires |raw| >= HEADER
  {
    s.port == port && s.ident == raw[1] && s.auth == raw[4..HEADER]
  }

  /** What a verified request is counted as and answered with: a plain reject where there is no session for it, the
      stored reply to a repeated request, else the reply the callback decides, if its attributes fit. */
  ghost function Verdict(h: Hash, raw: seq<byte>, c: Client, num: int, port: int, conn: Conn, salt: nat)
    : (r: (Option<Kind>, Option<seq<byte>>))
    requires WellFormed(raw)
  {
    var attrs := AttrsOf(raw);
    var t := TargetOf(attrs, c.sessions, num);
    if t.NoSession? then
      RefuseFits(h, raw, c.secret);
      (Some(RejectSent), Some(ReplyTo(h, raw, REFUSE, 0, c.secret)))
    else if t.Existing? && Repeats(c.sessions[t.at], port, raw) then (Some(Duplicate), c.sessions[t.at].reply)
    else if t.Fresh? && port == 0 && raw[1] == 0 && raw[4..HEADER] == Zeros(16) then (Some(Duplicate), None)
    else Decision(h, raw, c.secret, conn, salt)
  }

  ghost function Decision(h: Hash, raw: seq<byte>, secret: seq<byte>, conn: Conn, salt: nat)
    : (r: (Option<Kind>, Option<seq<byte>>))
    requires WellFormed(raw)
  {
    var attrs := AttrsOf(raw);
    if !AllFit(ReplyAttrs(h, attrs, conn, salt, RequestAuth(raw), secret)) then (None, None)
    else (Some(if Accepts(attrs, conn) then AcceptSent else RejectSent), Some(ReplyTo(h, raw, conn, salt, secret)))
  }

  function KindOf(code: byte): Kind { if code == ACCESS_ACCEPT then AcceptSent else RejectSent }

  lemma KindsOf(cs: seq<Client>, counters: Counters, log: seq<Kind>, i: nat)
    requires Tallied(cs, counters, log) && i < |cs|
    ensures AllKinds(counters) && AllKinds(cs[i].counters)
  {
  }

  lemma SecretOf(h: Hash, cs: seq<Client>, i: nat)
    requires ClientsOk(h, cs) && i < |cs|
    ensures |cs[i].secret| < WORD
  {
  }

  /** radius_server_get_client: the first client whose subnet holds the address. */
  function ClientAt(cs: seq<Client>, addr: Ip): (r: Option<nat>)
    ensures r.Some? ==> r.value < |cs| && InSubnet(cs[r.value], addr)
    ensures r.None? ==> forall c :: c in cs ==> !InSubnet(c, addr)
    decreases |cs|
  {
    if cs == [] then None
    else if InSubnet(cs[0], addr) then Some(0)
    else
      var rest := ClientAt(cs[1..], addr);
      if rest.None? then None else Some(rest.value + 1)
  }

  /** A Message-Authenticator, if the datagram parses and has one, is inside it. */
  ghost predicate Checkable(data: seq<byte>)
  {
    var raw := Accepted(data);
    raw.Some? ==> WellFormed(raw.value) && MacInside(raw.value)
  }

  /** What a datagram from a client is counted as, and what is sent back. */
  ghost function Reaction(h: Hash, c: Client, num: int, port: int, data: seq<byte>, conn: Conn, salt: nat)
    : (r: (seq<Kind>, Option<seq<byte>>))
    requires Checkable(data)
  {
    var raw := Accepted(data);
    if raw.None? then ([Malformed], None)
    else if raw.value[0] != ACCESS_REQUEST then ([Unknown], None)
    else if !MsgAuthVerified(h, raw.value, c.secret, None) then ([Kind.Request, BadAuth], None)
    else
      var v := Verdict(h, raw.value, c, num, port, conn, salt);
      (if v.0.None? then [Kind.Request] else [Kind.Request, v.0.value], v.1)
  }

  /** What is counted, by the octets: malformed is what attributes do not tile, unknown what is no request (1); the rest
      are requests, with a bad authenticator, a reply of code 2, one of code 3, a repetition, or nothing further. */
  lemma CountedAs(h: Hash, c: Client, num: int, port: int, data: seq<byte>, conn: Conn, salt: nat)
    requires Checkable(data)
    ensures var r, raw := Reaction(h, c, num, port, data, conn, salt), Accepted(data);
            && (r.0 == [Malformed] <==> raw.None?)
            && (r.0 == [Unknown] <==> raw.Some? && raw.value[0] != 1)
            && (r.0 == [Kind.Request, BadAuth] <==>
                  raw.Some? && raw.value[0] == 1 && !MsgAuthVerified(h, raw.value, c.secret, None))
            && (r.0 == [Kind.Request, AcceptSent] ==> r.1.Some? && r.1.value[0] == 2)
            && (r.0 == [Kind.Request, RejectSent] ==> r.1.Some? && r.1.value[0] == 3)
            && (r.1.Some? ==> |r.0| == 2 && r.0[0] == Kind.Request && r.0[1] in {AcceptSent, RejectSent, Duplicate})
  {
    hide AttrsOf, ParseAttrs, ReplyAttrs, MsgAuthVerified, MacInside, AllFit, Accepted, FinishedReply, Accepts;
    var raw := Accepted(data);
    if raw.Some? {
      RefuseFits(h, raw.value, c.secret);
      CodeOf(h, raw.value, REFUSE, 0, c.secret);
      CodeOf(h, raw.value, conn, salt, c.secret);
      hide TargetOf, ReplyTo;
    }
  }

  lemma CodeOf(h: Hash, request: seq<byte>, conn: Conn, salt: nat, secret: seq<byte>)
    requires WellFormed(request)
    ensures AllFit(ReplyAttrs(h, AttrsOf(request), conn, salt, RequestAuth(request), secret)) ==>
              ReplyTo(h, request, conn, salt, secret)[0] == if Accepts(AttrsOf(request), conn) then 2 else 3
  {
    hide AttrsOf, ParseAttrs, ReplyAttrs, AllFit, Accepts, EncodeAttrs;
    if AllFit(ReplyAttrs(h, AttrsOf(request), conn, salt, RequestAuth(request), secret)) {
      FirstOctet(h, request, conn, salt, secret);
      DraftHeader(h, request, conn, salt, secret);
    }
  }

  /** Which session a request is for, by its attributes: the State (24) names it in four octets, most significant first;
      a request without State opens one if it has a User-Name (1) and there are fewer than 1000. */
  lemma TargetIs(attrs: seq<Attr>, ss: seq<Session>, num: int)
    ensures var t, state := TargetOf(attrs, ss, num), OfType(attrs, 24);
            && (t.Fresh? <==> state == [] && OfType(attrs, 1) != [] && num < 1000)
            && (t.Existing? <==> state != [] && |state[0].value| == 4 &&
                                 exists s :: s in ss && IdIs(s.id, state[0].value))
            && (t.Existing? ==> IdIs(ss[t.at].id, state[0].value) &&
                                forall j :: 0 <= j < t.at ==> !IdIs(ss[j].id, state[0].value))
  {
    hide OfType, FindSession;
    var state := OfType(attrs, STATE);
    if state != [] && |state[0].value| == 4 {
      FirstFound(ss, Be32At(state[0].value));
    }
  }

  ghost predicate IdIs(id: nat, v: seq<byte>)
    requires |v| == 4
  {
    var a: int, b: int, c: int, d: int := v[0], v[1], v[2], v[3];
    id == a * 0x100_0000 + b * 0x1_0000 + c * 0x100 + d
  }

  lemma {:induction false} FirstFound(ss: seq<Session>, id: nat)
    ensures FindSession(ss, id).Some? <==> exists s :: s in ss && s.id == id
    ensures FindSession(ss, id).Some? ==> forall j :: 0 <= j < FindSession(ss, id).value ==> ss[j].id != id
    decreases |ss|
  {
    if ss != [] {
      FirstFound(ss[1..], id);
    }
  }

  /** Counters do not influence the verdict. */
  lemma VerdictSame(h: Hash, raw: seq<byte>, c: Client, d: Client, num: int, port: int, conn: Conn, salt: nat)
    requires WellFormed(raw) && d == c.(counters := d.counters)
    ensures Verdict(h, raw, c, num, port, conn, salt) == Verdict(h, raw, d, num, port, conn, salt)
  {
  }

  /** A datagram is not a request, or it is one and has at most one outcome. */
  predicate Balanced(ks: seq<Kind>)
  {
    || (|ks| == 1 && ks[0] in {Malformed, Unknown, Invalid, Kind.Request})
    || (|ks| == 2 && ks[0] == Kind.Request && ks[1] in {AcceptSent, RejectSent, Duplicate, BadAuth})
  }

  lemma Balance(h: Hash, c: Client, num: int, port: int, data: seq<byte>, conn: Conn, salt: nat)
    requires Checkable(data)
    ensures Balanced(Reaction(h, c, num, port, data, conn, salt).0)
  {
  }

  lemma AccountedNext(log: seq<Kind>, silent: nat, ks: seq<Kind>)
    requires Accounted(log, silent) && Balanced(ks)
    ensures Accounted(log + ks, silent + if ks == [Kind.Request] then 1 else 0)
  {
    hide Count;
    CountKinds(log, ks[0]);
    if |ks| == 2 {
      CountKinds(log + [ks[0]], ks[1]);
      assert log + ks == log + [ks[0]] + [ks[1]];
    } else {
      assert log + ks == log + [ks[0]];
    }
  }

  lemma CountKinds(log: seq<Kind>, x: Kind)
    ensures forall k: Kind :: Count(log + [x], k) == Count(log, k) + if x == k then 1 else 0
  {
  }

  /** Where a session is in a list; its length if it is not there. */
  method Position(ss: seq<Session>, serial: nat) returns (j: nat)
    ensures j <= |ss| && (j < |ss| ==> ss[j].serial == serial)
    ensures forall l :: 0 <= l < j ==> ss[l].serial != serial
  {
    j := 0;
    while j < |ss| && ss[j].serial != serial
      invariant 0 <= j <= |ss| && forall l :: 0 <= l < j ==> ss[l].serial != serial
    {
      j := j + 1;
    }
  }

  lemma LiveTimer(cs: seq<Client>, num: int, made: nat, timers: set<nat>, serial: nat)
    requires Booked(All(cs), num, made, timers) && serial in timers
    ensures exists i, j :: 0 <= i < |cs| && 0 <= j < |cs[i].sessions| && cs[i].sessions[j].serial == serial
  {
    var s :| s in All(cs) && s.serial == serial;
    Home(cs, s);
  }

  lemma {:induction false} Home(cs: seq<Client>, s: Session)
    requires s in All(cs)
    ensures exists i, j :: 0 <= i < |cs| && 0 <= j < |cs[i].sessions| && cs[i].sessions[j] == s
    decreases |cs|
  {
    var n := |cs| - 1;
    if s in All(cs[..n]) {
      Home(cs[..n], s);
      var i, j :| 0 <= i < n && 0 <= j < |cs[..n][i].sessions| && cs[..n][i].sessions[j] == s;
    } else {
      var j :| 0 <= j < |cs[n].sessions| && cs[n].sessions[j] == s;
    }
  }

  function With(c: Client, s: Session): Client { c.(sessions := [s] + c.sessions) }

  function Without(c: Client, j: nat): Client
    requires j < |c.sessions|
  {
    c.(sessions := c.sessions[..j] + c.sessions[j + 1..])
  }

  predicate InSubnet(c: Client, addr: Ip) { AndBits(c.addr, c.mask) == AndBits(addr, c.mask) }

  /** An address is a client's exactly if it agrees with the client's in every bit of the mask. */
  lemma InSubnetIff(c: Client, addr: Ip)
    ensures InSubnet(c, addr) <==> Agree(c.addr, addr, c.mask)
  {
    MaskedEqualIff(c.addr, addr, c.mask);
  }

  lemma SameCounters(cs: seq<Client>, i: nat, c: Client, counters: Counters, log: seq<Kind>)
    requires i < |cs| && Tallied(cs, counters, log) && c.counters == cs[i].counters
    ensures Tallied(cs[i := c], counters, log)
  {
    hide Sum, Count;
    forall k: Kind | k != Invalid ensures Sum(cs[i := c], k) == Sum(cs, k) {
      SumUpdate(cs, i, c, k);
    }
  }
}
