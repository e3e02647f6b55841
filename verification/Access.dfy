/** From the supervisor's tables to the octets an access point reads: get_mac_conn_cmd answers the callback of the
    RADIUS server, and its reply carries that answer. */
module Access {
  import opened Bytes
  import opened Options
  import opened Md5Spec
  import opened BridgeList
  import opened RadiusCodec
  import opened RadiusAuth
  import opened RadiusOps
  import opened Tunnel
  import opened RadiusReply
  import Commands

  /** What the callback tells the RADIUS server about a MAC. */
  function ConnOf(c: Commands.Conf, s: Commands.State, m: Mac, now: int): (r: Conn)
  {
    var i := Commands.Admission(c, s, m, now).1;
    Conn(i.vlan, i.pass)
  }

  /** The passphrase a MAC is due: its own, the ticket's, or the default. */
  function KeyDue(c: Commands.Conf, s: Commands.State, m: Mac): (r: seq<byte>)
  {
    if m in s.macs && s.macs[m].pass != [] then s.macs[m].pass
    else if s.ticket.Some? && !c.openAll then s.ticket.value.pass
    else c.pass
  }

  /** A MAC that may connect: not denied, due a VLAN, and with packet capture on one that has an interface. */
  predicate Welcome(c: Commands.Conf, s: Commands.State, m: Mac)
  {
    && !Commands.Denied(s, m) && Commands.Due(c, s, m) >= 0
    && (c.capture ==> Commands.Due(c, s, m) in c.vlans)
  }

  lemma ConnIsDue(c: Commands.Conf, s: Commands.State, m: Mac, now: int)
    ensures var conn := ConnOf(c, s, m, now);
            && (conn.vlan >= 0 <==> Welcome(c, s, m))
            && (conn.vlan >= 0 ==> conn.vlan == Commands.Due(c, s, m) && conn.pass == KeyDue(c, s, m))
  {
    hide Commands.Allocated;
    Commands.RejectedIff(c, s, m, now);
  }

  /** The reply says exactly this: no VLAN and a reject, or an accept with this VLAN and passphrase. */
  ghost predicate Tells(h: Hash, out: seq<byte>, auth: Digest16, secret: seq<byte>, numTagged: nat, accept: bool,
                        vlan: int, pass: seq<byte>)
    requires WellFormed(out)
  {
    var scan := ScanAll(AttrsOf(out), numTagged);
    && (out[0] == ACCESS_ACCEPT <==> accept)
    && (Found(scan) <==> accept && vlan % 0x1_0000 != 0)
    && (accept && vlan < 0x1_0000 ==> Untagged(scan, 0) == vlan)
    && (accept && 1 <= |pass| <= 239 ==> Password(h, AttrsOf(out), auth, secret, 0) == Some(pass))
  }

  /** A request is accepted exactly if it has a User-Password and the MAC is welcome, and the access point then reads
      the VLAN and the passphrase that the tables, the ticket or the configuration hold for it. */
  lemma AccessGranted(h: Hash, c: Commands.Conf, s: Commands.State, m: Mac, now: int, request: seq<byte>, salt: nat,
                      secret: seq<byte>, numTagged: nat)
    requires WellFormed(request) && |request| <= MAX_MSG_LEN
    requires AllFit(ReplyAttrs(h, AttrsOf(request), ConnOf(c, s, m, now), salt, RequestAuth(request), secret))
    ensures var draft := Draft(h, request, ConnOf(c, s, m, now), salt, secret);
            var out := FinishedReply(h, draft, secret, RequestAuth(request));
            var accept := OfType(AttrsOf(request), USER_PASSWORD) != [] && Welcome(c, s, m);
            && WellFormed(out)
            && Tells(h, out, RequestAuth(request), secret, numTagged, accept, Commands.Due(c, s, m), KeyDue(c, s, m))
  {
    hide Draft, FinishedReply, ReplyAttrs, OfType, ScanAll, Untagged, Found, Password, AttrsOf, ParseAttrs, AllFit,
         Welcome, KeyDue, ConnOf, Commands.Due;
    var conn := ConnOf(c, s, m, now);
    ConnIsDue(c, s, m, now);
    ReplyFits(h, request, conn, salt, secret);
    ReplyEndToEnd(h, request, conn, salt, secret, [], numTagged);
  }

  /** A MAC that may connect with a VLAN and a passphrase is due the same after it did and after every run of commands
      that does not accept, deny or re-key it. */
  lemma DueStays(c: Commands.Conf, s: Commands.State, m: Mac, now: int, ks: seq<Commands.Command>)
    requires Welcome(c, s, m) && KeyDue(c, s, m) != []
    requires forall k :: k in ks ==> !Commands.Rekeys(k, m)
    ensures var t := Commands.Run(c, Commands.Admission(c, s, m, now).0, ks);
            && Welcome(c, t, m)
            && Commands.Due(c, t, m) == Commands.Due(c, s, m) && KeyDue(c, t, m) == KeyDue(c, s, m)
  {
    hide Welcome, KeyDue, Commands.Due, Commands.Run, Commands.Admission;
    var t := Commands.Run(c, Commands.Admission(c, s, m, now).0, ks);
    ConnIsDue(c, s, m, now);
    Commands.AdmittedStays(c, s, m, now, ks, now);
    ConnIsDue(c, t, m, now);
  }

  /** It is then told the same by the reply to any later request. */
  lemma AccessStays(h: Hash, c: Commands.Conf, s: Commands.State, m: Mac, now: int, ks: seq<Commands.Command>,
                    later: int, request: seq<byte>, salt: nat, secret: seq<byte>, numTagged: nat)
    requires Welcome(c, s, m) && KeyDue(c, s, m) != []
    requires forall k :: k in ks ==> !Commands.Rekeys(k, m)
    requires WellFormed(request) && |request| <= MAX_MSG_LEN && OfType(AttrsOf(request), USER_PASSWORD) != []
    requires AllFit(ReplyAttrs(h, AttrsOf(request), Conn(Commands.Due(c, s, m), KeyDue(c, s, m)), salt,
                               RequestAuth(request), secret))
    ensures var t := Commands.Run(c, Commands.Admission(c, s, m, now).0, ks);
            var conn := ConnOf(c, t, m, later);
            && conn == Conn(Commands.Due(c, s, m), KeyDue(c, s, m))
            && var out := FinishedReply(h, Draft(h, request, conn, salt, secret), secret, RequestAuth(request));
               && WellFormed(out)
               && Tells(h, out, RequestAuth(request), secret, numTagged, true, Commands.Due(c, s, m), KeyDue(c, s, m))
  {
    hide Draft, FinishedReply, ReplyAttrs, OfType, Tells, AttrsOf, ParseAttrs, AllFit, Welcome, KeyDue, Commands.Due,
         Commands.Run, Commands.Admission;
    var t := Commands.Run(c, Commands.Admission(c, s, m, now).0, ks);
    DueStays(c, s, m, now, ks);
    ConnIsDue(c, t, m, later);
    AccessGranted(h, c, t, m, later, request, salt, secret, numTagged);
  }
}
