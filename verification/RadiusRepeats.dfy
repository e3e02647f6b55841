/** Requests the RADIUS server leaves without a reply, and requests a client sends again (radius_server.c). */
module RadiusRepeats {
  import opened Bytes
  import opened Options
  import opened Md5Spec
  import opened Hmac
  import opened KeyHiding
  import opened RadiusCodec
  import opened RadiusAuth
  import opened RadiusMsg
  import opened RadiusOps
  import opened RadiusReply
  import opened RadiusSessions
  import opened RadiusServer

  /** Port, identifier and authenticator as a session has them before its first reply. */
  ghost predicate AllZero(raw: seq<byte>, port: int)
    requires |raw| >= HEADER
  {
    port == 0 && raw[1] == 0 && RequestAuth(raw) == Zeros(16)
  }

  /** The session the request is for has no stored reply. */
  ghost predicate Unanswered(t: Target, ss: seq<Session>)
    requires t.Existing? ==> t.at < |ss|
  {
    t.Fresh? || (t.Existing? && ss[t.at].reply.None?)
  }

  ghost predicate Repetition(t: Target, ss: seq<Session>, port: int, raw: seq<byte>)
    requires (t.Existing? ==> t.at < |ss|) && |raw| >= HEADER
  {
    t.Existing? && Repeats(ss[t.at], port, raw)
  }

  /** A verified request gets no reply exactly if it is all zero and for a session without a stored reply, which takes
      it for a repetition, or if it is no repetition and asks for an accept whose passphrase is too long. */
  lemma SilentIff(h: Hash, i: nat, raw: seq<byte>, c: Client, num: int, port: int, conn: Conn, salt: nat)
    requires WellFormed(raw) && ClientOk(h, i, c)
    ensures var attrs, ss := AttrsOf(raw), c.sessions;
            var t := TargetOf(attrs, ss, num);
            Verdict(h, raw, c, num, port, conn, salt).1.None? <==>
            || (Unanswered(t, ss) && AllZero(raw, port))
            || (&& !t.NoSession? && !Repetition(t, ss, port, raw)
                && Accepts(attrs, conn) && PaddedBlocks(|conn.pass|) > 15)
  {
    hide AttrsOf, ParseAttrs, ReplyTo, ReplyAttrs, Answers, Accepts, PaddedBlocks, AllFit, Draft;
    var t := TargetOf(AttrsOf(raw), c.sessions, num);
    ReplyFits(h, raw, conn, salt, c.secret);
    hide TargetOf;
    if t.Existing? {
      assert SessionOk(h, i, c.secret, c.sessions[t.at]);
    }
  }

  /** A request is taken for a repetition exactly if port, identifier and authenticator are those its session has last
      answered, or all zero for a session that is new. */
  lemma DuplicateIff(h: Hash, raw: seq<byte>, c: Client, num: int, port: int, conn: Conn, salt: nat)
    requires WellFormed(raw)
    ensures var t := TargetOf(AttrsOf(raw), c.sessions, num);
            Verdict(h, raw, c, num, port, conn, salt).0 == Some(Duplicate) <==>
            || (t.Existing? && var s := c.sessions[t.at]; s.port == port && s.ident == raw[1] && s.auth == raw[4..20])
            || (t.Fresh? && port == 0 && raw[1] == 0 && raw[4..20] == Zeros(16))
  {
    hide AttrsOf, ParseAttrs, ReplyTo, ReplyAttrs, AllFit, TargetOf, Decision, Zeros;
    DecisionKind(h, raw, c.secret, conn, salt);
  }

  /** What radius_msg_finish makes of a request without Message-Authenticator is received whole and verifies. */
  lemma FinishedRequest(h: Hash, raw: seq<byte>, secret: seq<byte>) returns (mac: Digest16)
    requires WellFormed(raw) && !HasMac(AttrsOf(raw)) && |raw| + 18 <= MAX_MSG_LEN
    ensures var out := Finished(h, raw, secret);
            && |out| <= MAX_MSG_LEN && Accepted(out) == Some(out) && WellFormed(out) && MacInside(out)
            && MsgAuthVerified(h, out, secret, None)
            && out[..2] == raw[..2] && RequestAuth(out) == RequestAuth(raw)
            && AttrsOf(out) == AttrsOf(raw) + [MacAttr(mac)]
  {
    hide EncodeAttr, HmacOf, Be16, ParseAttrs, MacPositions, HasMac, Zeros, MsgAuthVerified, MacInside;
    FinishVerifies(h, raw, secret);
    var m := Unsigned(raw);
    mac := HmacOf(h, secret, m);
    var out := SetMac(m, |raw|, mac);
    MacAppended(raw, m, mac);
    WithMac(raw, out, mac);
    UnsignedAuth(raw);
    assert out[..4] == m[..4] && out[4..HEADER] == m[4..HEADER];
    ReplyParses(out, []);
    assert out + [] == out;
  }

  lemma UnsignedAuth(raw: seq<byte>)
    requires |raw| >= HEADER
    ensures Unsigned(raw)[4..HEADER] == raw[4..HEADER]
  {
    hide EncodeAttr, Be16;
    var a := EncodeAttr(MacAttr(Zeros(16)));
    assert |Be16(|raw + a|)| == 2 && Unsigned(raw) == SetLength(raw + a);
    assert SetLength(raw + a)[4..HEADER] == (raw + a)[4..HEADER];
  }

  /** The first request of a client that sends its user name from port 0 with all zero fields. */
  ghost function ZeroRequest(): (r: seq<byte>) { [ACCESS_REQUEST, 0] + Zeros(18) + [USER_NAME, 3, 97] }

  lemma ZeroRequestReads()
    ensures WellFormed(ZeroRequest()) && AttrsOf(ZeroRequest()) == [Attr(USER_NAME, [97])] && AllZero(ZeroRequest(), 0)
  {
    var name := Attr(USER_NAME, [97]);
    assert ZeroRequest()[HEADER..] == [] + EncodeAttr(name);
    ParseAppend([], name);
    assert ZeroRequest()[4..HEADER] == Zeros(16);
  }

  /** That request, finished with the right secret, is counted as a duplicate and never answered. */
  lemma ZeroSwallowed(h: Hash, c: Client, conn: Conn, salt: nat)
    requires c.sessions == []
    ensures var data := Finished(h, ZeroRequest(), c.secret);
            Checkable(data) && Reaction(h, c, 0, 0, data, conn, salt) == ([Kind.Request, Duplicate], None)
  {
    hide AttrsOf, ParseAttrs, Finished, MsgAuthVerified, MacInside, Accepted, Decision, ZeroRequest;
    ZeroRequestReads();
    assert ZeroRequest()[..2] == [ACCESS_REQUEST, 0] by { ZeroHeader(); }
    var mac := FinishedRequest(h, ZeroRequest(), c.secret);
    var attrs := [Attr(USER_NAME, [97])] + [MacAttr(mac)];
    TwoTypes(attrs);
    var data := Finished(h, ZeroRequest(), c.secret);
    assert data[..2][0] == 1 && data[..2][1] == 0;
  }

  lemma ZeroHeader()
    ensures ZeroRequest()[..2] == [ACCESS_REQUEST, 0]
  {
  }

  lemma TwoTypes(attrs: seq<Attr>)
    requires |attrs| == 2 && attrs[0].typ == USER_NAME && attrs[1].typ == MESSAGE_AUTHENTICATOR
    ensures OfType(attrs, STATE) == OfType(attrs, USER_PASSWORD) == [] && OfType(attrs, USER_NAME) != []
  {
    OthersNotOfType(attrs, STATE);
    OthersNotOfType(attrs, USER_PASSWORD);
  }

  /** A request that is received and ends with an empty Message-Authenticator, whose 16 octets are then not in it. */
  lemma ShortMac()
    ensures var data := [ACCESS_REQUEST, 0, 0, 22] + Zeros(16) + [MESSAGE_AUTHENTICATOR, 2];
            Accepted(data) == Some(data) && WellFormed(data) && !MacInside(data)
  {
    var data, m := [ACCESS_REQUEST, 0, 0, 22] + Zeros(16) + [MESSAGE_AUTHENTICATOR, 2], Attr(MESSAGE_AUTHENTICATOR, []);
    assert data[HEADER..] == [] + EncodeAttr(m);
    ParseAppend([], m);
    assert AttrsOf(data) == [m] && [m][1..] == [];
    assert MacPositions([m], HEADER) == [HEADER];
    assert Be16At(data, 2) == 22 && data[HEADER..22] == data[HEADER..] && data[..22] == data;
  }

  /** Replacing a session by one with the same id changes no look-up. */
  lemma {:induction false} FindKept(ss: seq<Session>, j: nat, s: Session, id: nat)
    requires j < |ss| && s.id == ss[j].id
    ensures FindSession(ss[j := s], id) == FindSession(ss, id)
    decreases |ss|
  {
    if j > 0 {
      assert ss[j := s][1..] == ss[1..][j - 1 := s];
      FindKept(ss[1..], j - 1, s, id);
    } else {
      assert ss[j := s][1..] == ss[1..];
    }
  }

  /** A request that names a session, or none there is, and was answered is answered with the same octets when it is
      sent again, whatever the callback now says. */
  lemma StateRepeats(h: Hash, i: nat, raw: seq<byte>, c: Client, num: int, serial: nat, id: word, from: Ip, port: int,
                     conn: Conn, salt: nat, conn': Conn, salt': nat)
    requires WellFormed(raw) && AllKinds(c.counters) && OfType(AttrsOf(raw), STATE) != []
    requires Verdict(h, raw, c, num, port, conn, salt).1.Some?
    ensures var v := Verdict(h, raw, c, num, port, conn, salt);
            var d := ClientAfter(raw, c, num, serial, id, i, from, port, v.0, v.1);
            var found := TargetOf(AttrsOf(raw), c.sessions, num).Existing?;
            Verdict(h, raw, d, num, port, conn', salt') == (Some(if found then Duplicate else RejectSent), v.1)
  {
    hide AttrsOf, ParseAttrs, ReplyTo, ReplyAttrs, OfType, Decision, FindSession, Counted, Be32At;
    var t := TargetOf(AttrsOf(raw), c.sessions, num);
    if t.Existing? && !Repeats(c.sessions[t.at], port, raw) {
      var v := Verdict(h, raw, c, num, port, conn, salt);
      var s := c.sessions[t.at].(port := port, ident := raw[1], auth := RequestAuth(raw), reply := v.1);
      FindKept(c.sessions, t.at, s, Be32At(OfType(AttrsOf(raw), STATE)[0].value));
      DecisionKind(h, raw, c.secret, conn, salt);
    }
  }

  /** A request that got a reply is taken for a repetition when it is sent again if and only if it was for a session
      that was there already. */
  lemma RepeatedIff(h: Hash, i: nat, raw: seq<byte>, c: Client, num: int, serial: nat, id: word, from: Ip, port: int,
                    conn: Conn, salt: nat, conn': Conn, salt': nat)
    requires WellFormed(raw) && AllKinds(c.counters) && Verdict(h, raw, c, num, port, conn, salt).1.Some?
    ensures var t, v := TargetOf(AttrsOf(raw), c.sessions, num), Verdict(h, raw, c, num, port, conn, salt);
            var d := ClientAfter(raw, c, num, serial, id, i, from, port, v.0, v.1);
            var again := Verdict(h, raw, d, if t.Fresh? then num + 1 else num, port, conn', salt');
            && (again.0 == Some(Duplicate) <==> t.Existing?)
            && (t.Existing? ==> again.1 == v.1)
  {
    hide AttrsOf, ParseAttrs, ReplyTo, ReplyAttrs, OfType, Decision, FindSession, Counted, Be32At;
    if OfType(AttrsOf(raw), STATE) != [] {
      StateRepeats(h, i, raw, c, num, serial, id, from, port, conn, salt, conn', salt');
    } else {
      DecisionKind(h, raw, c.secret, conn, salt);
      DecisionKind(h, raw, c.secret, conn', salt');
    }
  }

  /** The zero request from port 1, rejected for want of a password: sent again it is rejected anew, not repeated. */
  lemma NotRepeated(h: Hash, i: nat, c: Client, from: Ip, conn: Conn, salt: nat, conn': Conn, salt': nat)
    requires c.sessions == [] && AllKinds(c.counters)
    ensures var raw := Finished(h, ZeroRequest(), c.secret);
            && WellFormed(raw) && Checkable(raw)
            && var first := Reaction(h, c, 0, 1, raw, conn, salt);
               var d := AfterDatagram(h, c, 0, 0, 0, i, from, 1, raw, conn, salt);
               && first.0 == [Kind.Request, RejectSent] && first.1.Some?
               && Reaction(h, d, 1, 1, raw, conn', salt').0 == [Kind.Request, RejectSent]
  {
    hide AttrsOf, ParseAttrs, Finished, MsgAuthVerified, MacInside, Accepted, ZeroRequest, ReplyTo, ReplyAttrs, AllFit,
         Counted, FreshSession;
    ZeroRequestReads();
    assert ZeroRequest()[..2] == [ACCESS_REQUEST, 0] by { ZeroHeader(); }
    var mac := FinishedRequest(h, ZeroRequest(), c.secret);
    TwoTypes([Attr(USER_NAME, [97])] + [MacAttr(mac)]);
    var raw := Finished(h, ZeroRequest(), c.secret);
    assert raw[..2][0] == 1 && raw[..2][1] == 0;
    ReplyFits(h, raw, conn, salt, c.secret);
    ReplyFits(h, raw, conn', salt', c.secret);
  }

  /** The client, and the number of sessions of all clients, after the same request n times, each time with its own
      callback answer and salt. */
  ghost function Resent(h: Hash, i: nat, raw: seq<byte>, c: Client, num: int, made: nat, from: Ip, port: int,
                        conn: nat -> Conn, salt: nat -> nat, n: nat): (r: (Client, int))
    requires WellFormed(raw) && AllKinds(c.counters)
    ensures AllKinds(r.0.counters) && num <= r.1 && r.0.secret == c.secret
  {
    if n == 0 then (c, num) else
      var p := Resent(h, i, raw, c, num, made, from, port, conn, salt, n - 1);
      var v := Verdict(h, raw, p.0, p.1, port, conn(n - 1), salt(n - 1));
      var serial := made + (p.1 - num);
      (ClientAfter(raw, p.0, p.1, serial, serial % WORD, i, from, port, v.0, v.1),
       if TargetOf(AttrsOf(raw), p.0.sessions, p.1).Fresh? then p.1 + 1 else p.1)
  }

  lemma SessionsAfter(raw: seq<byte>, c: Client, num: int, serial: nat, i: nat, from: Ip, port: int, kind: Option<Kind>,
                      sent: Option<seq<byte>>)
    requires WellFormed(raw) && AllKinds(c.counters)
    ensures |ClientAfter(raw, c, num, serial, serial % WORD, i, from, port, kind, sent).sessions| ==
            |c.sessions| + if TargetOf(AttrsOf(raw), c.sessions, num).Fresh? then 1 else 0
  {
    hide AttrsOf, TargetOf, Counted;
  }

  /** A request with a user name, without State and not all zero is never taken for a repetition: each time it is sent
      again it uses up one more session and is decided anew, and once there is no room it is rejected. */
  lemma {:induction false} FreshRepeats(h: Hash, i: nat, raw: seq<byte>, c: Client, num: int, made: nat, from: Ip,
                                        port: int, conn: nat -> Conn, salt: nat -> nat, n: nat)
    requires WellFormed(raw) && AllKinds(c.counters) && num <= MAX_SESSION
    requires OfType(AttrsOf(raw), STATE) == [] && OfType(AttrsOf(raw), USER_NAME) != [] && !AllZero(raw, port)
    ensures var p := Resent(h, i, raw, c, num, made, from, port, conn, salt, n);
            && p.1 == (if num + n < MAX_SESSION then num + n else MAX_SESSION)
            && |p.0.sessions| == |c.sessions| + (p.1 - num)
            && AllFit(ReplyAttrs(h, AttrsOf(raw), REFUSE, 0, RequestAuth(raw), c.secret))
            && Verdict(h, raw, p.0, p.1, port, conn(n), salt(n)) ==
               if num + n < MAX_SESSION then Decision(h, raw, c.secret, conn(n), salt(n))
               else (Some(RejectSent), Some(ReplyTo(h, raw, REFUSE, 0, c.secret)))
  {
    hide AttrsOf, ParseAttrs, ReplyTo, ReplyAttrs, OfType, Decision, AllFit, Verdict, TargetOf, ClientAfter, AllZero;
    if n > 0 {
      FreshRepeats(h, i, raw, c, num, made, from, port, conn, salt, n - 1);
      var p := Resent(h, i, raw, c, num, made, from, port, conn, salt, n - 1);
      var v := Verdict(h, raw, p.0, p.1, port, conn(n - 1), salt(n - 1));
      var serial := made + (p.1 - num);
      SessionsAfter(raw, p.0, p.1, serial, i, from, port, v.0, v.1);
      FreshVerdict(h, raw, p.0, p.1, port, conn(n - 1), salt(n - 1));
    }
    var q := Resent(h, i, raw, c, num, made, from, port, conn, salt, n);
    FreshVerdict(h, raw, q.0, q.1, port, conn(n), salt(n));
  }

  lemma FreshVerdict(h: Hash, raw: seq<byte>, c: Client, num: int, port: int, conn: Conn, salt: nat)
    requires WellFormed(raw) && num <= MAX_SESSION
    requires OfType(AttrsOf(raw), STATE) == [] && OfType(AttrsOf(raw), USER_NAME) != [] && !AllZero(raw, port)
    ensures TargetOf(AttrsOf(raw), c.sessions, num) == if num < MAX_SESSION then Fresh else NoSession
    ensures AllFit(ReplyAttrs(h, AttrsOf(raw), REFUSE, 0, RequestAuth(raw), c.secret))
    ensures Verdict(h, raw, c, num, port, conn, salt) ==
            if num < MAX_SESSION then Decision(h, raw, c.secret, conn, salt)
            else (Some(RejectSent), Some(ReplyTo(h, raw, REFUSE, 0, c.secret)))
  {
    hide AttrsOf, ParseAttrs, ReplyTo, ReplyAttrs, OfType, Decision, AllFit;
    RefuseFits(h, raw, c.secret);
  }
}
