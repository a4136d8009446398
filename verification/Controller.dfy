/** The network controller: authorising members, and certificates whose time window shuts out deauthorised ones. */
module Controller {
  import opened Common
  import opened Certificate
  import JsonDb
  import Summaries

  /** The least and the greatest delta a certificate gets. */
  datatype Limits = Limits(min: uint64, max: uint64) {
    predicate Valid() {
      5000 <= min <= max <= 0xffff_ffff_ffff_ffff - 5000
    }
  }

  const DEFAULT_LIMITS := Limits(185000, 7200000)

  /** An entry of a member's authorisation history, with the token that was used, if one was. */
  datatype AuthEvent = AuthEvent(granted: bool, token: Option<string>)

  datatype Version = Version(major: int, minor: int, revision: int, protocol: int)

  /** What a genuine request says of its sender. */
  datatype Report = Report(version: Version, from: Option<nat>)

  datatype Member = Member(identity: Option<nat>, authorized: bool, lastAuthorized: uint64, lastDeauthorized: uint64,
                           history: seq<AuthEvent>, revision: nat, version: Version, physicalAddr: Option<nat>)

  const NEW_MEMBER := Member(None, false, 0, 0, [], 0, Version(-1, -1, -1, -1), None)

  datatype Token = Token(token: string, expires: uint64, maxUses: uint64)

  /** A certificate handed out, and the identity that asked for it. */
  datatype Grant = Grant(to: uint64, identity: nat, timestamp: uint64, delta: uint64)

  // ----- the credential window

  function CredentialDelta(l: Limits, now: uint64, deauthTime: uint64): (d: uint64)
    requires l.Valid()
    ensures l.min - 5000 <= d <= l.max
  {
    if now > deauthTime then
      var window := now - deauthTime;
      if window < l.min then l.min else if window < l.max + 5000 then window - 5000 else l.max
    else l.max
  }

  /** A certificate as the controller issues it. */
  function NewCertificate(l: Limits, now: uint64, deauthTime: uint64, network: uint64, to: uint64): (c: Certificate)
    requires l.Valid()
    ensures Increasing(c)
  {
    Issued(now, CredentialDelta(l, now, deauthTime), network, to)
  }

  /** A new certificate agrees with one from before the last deauthorisation exactly when that is too recent. */
  lemma StaleAgrees(l: Limits, now: uint64, deauthTime: uint64, timestamp: uint64, delta: uint64, network: uint64,
                    a: uint64, b: uint64)
    requires l.Valid() && timestamp <= deauthTime <= now
    ensures Agrees(NewCertificate(l, now, deauthTime, network, a), Issued(timestamp, delta, network, b)) <==>
            now - deauthTime < l.min && now - timestamp <= (if now == deauthTime then l.max else l.min)
  {
    hide Agrees;
    IssuedAgree(now, CredentialDelta(l, now, deauthTime), network, a, timestamp, delta, network, b);
  }

  /** How far apart two timestamps may be: the greatest delta without a recent deauthorisation, the time since it less five
      seconds after one, and the least delta right after one. */
  lemma NewAgrees(l: Limits, now: uint64, deauthTime: uint64, timestamp: uint64, delta: uint64, network: uint64,
                  other: uint64, a: uint64, b: uint64)
    requires l.Valid()
    ensures var bound: int :=
              if now <= deauthTime || now - deauthTime >= l.max + 5000 then l.max
              else if now - deauthTime >= l.min then now - deauthTime - 5000
              else l.min;
            Agrees(NewCertificate(l, now, deauthTime, network, a), Issued(timestamp, delta, other, b)) <==>
            network == other && now - bound <= timestamp <= now + bound
    ensures NewCertificate(l, now, deauthTime, network, a).q[0].maxDelta ==
              if now <= deauthTime || now - deauthTime >= l.max + 5000 then l.max
              else if now - deauthTime >= l.min then now - deauthTime - 5000
              else l.min
  {
    IssuedSays(now, CredentialDelta(l, now, deauthTime), network, a);
    hide Agrees;
    IssuedAgree(now, CredentialDelta(l, now, deauthTime), network, a, timestamp, delta, other, b);
  }

  /** By default a certificate of a network that nobody was put out of lately reaches two hours, and one of a network that
      somebody was put out of just now 185 seconds. */
  lemma DefaultWindow(now: uint64, deauthTime: uint64, timestamp: uint64, delta: uint64, network: uint64, a: uint64,
                      b: uint64)
    ensures deauthTime == 0 && now >= 7205000 ==>
              (Agrees(NewCertificate(DEFAULT_LIMITS, now, deauthTime, network, a), Issued(timestamp, delta, network, b)) <==>
               now - 7200000 <= timestamp <= now + 7200000)
    ensures now == deauthTime + 1 ==>
              (Agrees(NewCertificate(DEFAULT_LIMITS, now, deauthTime, network, a), Issued(timestamp, delta, network, b)) <==>
               now - 185000 <= timestamp <= now + 185000)
  {
    hide Agrees, NewCertificate, Issued;
    NewAgrees(DEFAULT_LIMITS, now, deauthTime, timestamp, delta, network, network, a, b);
  }

  /** The window shuts out every certificate from before the last deauthorisation exactly from the minimum onwards. */
  lemma WindowExactly(l: Limits, now: uint64, deauthTime: uint64, network: uint64, a: uint64, b: uint64)
    requires l.Valid() && deauthTime <= now
    ensures (forall t: uint64, d: uint64 :: t <= deauthTime ==>
               !Agrees(NewCertificate(l, now, deauthTime, network, a), Issued(t, d, network, b))) <==>
            now - deauthTime >= l.min
  {
    hide Agrees, Issued, NewCertificate;
    forall t: uint64, d: uint64 | t <= deauthTime
      ensures Agrees(NewCertificate(l, now, deauthTime, network, a), Issued(t, d, network, b)) <==>
              now - deauthTime < l.min && now - t <= (if now == deauthTime then l.max else l.min)
    {
      StaleAgrees(l, now, deauthTime, t, d, network, a, b);
    }
    if now - deauthTime < l.min {
      StaleAgrees(l, now, deauthTime, deauthTime, 0, network, a, b);
    }
  }

  // ----- tokens

  function Uses(history: seq<AuthEvent>, token: string): nat {
    if history == [] then 0
    else (if history[0].granted && history[0].token == Some(token) then 1 else 0) + Uses(history[1..], token)
  }

  /** The entries of a history that grant access by the token. */
  function UsedAt(history: seq<AuthEvent>, token: string): set<nat> {
    set i: nat | i < |history| && history[i] == AuthEvent(true, Some(token))
  }

  /** The uses of a token are the granting entries of the history that name it. */
  lemma {:induction false} UsesCount(history: seq<AuthEvent>, token: string)
    ensures Uses(history, token) == |set i: nat | i < |history| && history[i] == AuthEvent(true, Some(token))|
    ensures Uses(history, token) == |UsedAt(history, token)|
  {
    if history == [] {
      assert UsedAt([], token) == {};
    } else {
      var last := |history| - 1;
      UsesCount(history[..last], token);
      UsedAtLast(history, token);
      assert history == history[..last] + [history[last]];
      hide Uses, UsedAt;
      UsesAppend(history[..last], history[last], token);
    }
    assert UsedAt(history, token) == set i: nat | i < |history| && history[i] == AuthEvent(true, Some(token));
  }

  lemma UsedAtLast(history: seq<AuthEvent>, token: string)
    requires history != []
    ensures var last := |history| - 1;
            |UsedAt(history, token)| ==
            |UsedAt(history[..last], token)| + if history[last] == AuthEvent(true, Some(token)) then 1 else 0
  {
    var last := |history| - 1;
    var one: set<nat> := if history[last] == AuthEvent(true, Some(token)) then {last} else {};
    assert UsedAt(history, token) == UsedAt(history[..last], token) + one;
  }

  lemma {:induction false} UsesAppend(history: seq<AuthEvent>, e: AuthEvent, token: string)
    ensures Uses(history + [e], token) == Uses(history, token) + if e.granted && e.token == Some(token) then 1 else 0
  {
    if history == [] {
      assert history + [e] == [e];
    } else {
      assert (history + [e])[1..] == history[1..] + [e];
      UsesAppend(history[1..], e, token);
    }
  }

  predicate Usable(t: Token, history: seq<AuthEvent>, presented: string, now: uint64) {
    && (t.expires == 0 || t.expires > now) && t.token == presented
    && (t.maxUses == 0 || Uses(history, t.token) < t.maxUses)
  }

  method CountUses(history: seq<AuthEvent>, token: string) returns (n: nat)
    ensures n == Uses(history, token)
  {
    n := 0;
    for i := 0 to |history|
      invariant n == Uses(history[..i], token)
    {
      assert history[..i + 1] == history[..i] + [history[i]];
      UsesAppend(history[..i], history[i], token);
      if history[i].granted && history[i].token == Some(token) {
        n := n + 1;
      }
    }
    assert history[..|history|] == history;
  }

  /** Looks for a token entry that lets the member in. */
  method FindToken(tokens: seq<Token>, history: seq<AuthEvent>, presented: string, now: uint64) returns (found: bool)
    ensures found <==> exists t :: t in tokens && Usable(t, history, presented, now)
    ensures found <==>
            exists t :: && t in tokens && t.token == presented && (t.expires == 0 || now < t.expires)
                        && (t.maxUses == 0 || Uses(history, presented) < t.maxUses)
  {
    UsableIs(tokens, history, presented, now);
    hide Usable;
    found := false;
    for i := 0 to |tokens|
      invariant found <==> exists k :: 0 <= k < i && Usable(tokens[k], history, presented, now)
    {
      var t := tokens[i];
      var usable := TokenUsable(t, history, presented, now);
      found := found || usable;
    }
  }

  lemma UsableIs(tokens: seq<Token>, history: seq<AuthEvent>, presented: string, now: uint64)
    ensures forall t :: t in tokens ==>
              (Usable(t, history, presented, now) <==>
               && t.token == presented && (t.expires == 0 || now < t.expires)
               && (t.maxUses == 0 || Uses(history, presented) < t.maxUses))
  {
  }

  method TokenUsable(t: Token, history: seq<AuthEvent>, presented: string, now: uint64) returns (usable: bool)
    ensures usable <==> Usable(t, history, presented, now)
  {
    usable := false;
    if (t.expires == 0 || t.expires > now) && t.token == presented {
      usable := t.maxUses == 0;
      if !usable {
        var n := CountUses(history, t.token);
        usable := n < t.maxUses;
      }
    }
  }

  /** Every entry for the token limits its uses, and none to more than limit. */
  predicate LimitedTo(tokens: seq<Token>, token: string, limit: nat) {
    forall t :: t in tokens && t.token == token ==> 0 < t.maxUses <= limit
  }

  // ----- the summary value requests read

  /** What the summary sees of the members. */
  function Seen(members: map<uint64, Member>): Summaries.Members {
    map a: nat | a in members :: Summaries.Member(members[a].authorized, false, [], members[a].lastDeauthorized, None)
  }

  /** The summary is fresh: its time is that of the latest deauthorisation of a member not authorised since. */
  predicate IsDeauthTime(members: map<uint64, Member>, d: uint64) {
    Summaries.IsDeauthTime(Seen(members), d)
  }

  // ----- what every run keeps

  /** Certificates of deauthorised members are no younger than their deauthorisation. */
  predicate Outdated(members: map<uint64, Member>, issued: set<Grant>) {
    forall g :: g in issued && g.to in members && !members[g.to].authorized ==>
      g.timestamp <= members[g.to].lastDeauthorized
  }

  /** Members only move forward in time, and each address belongs to the identity first seen. */
  predicate Timely(members: map<uint64, Member>, issued: set<Grant>, clock: uint64) {
    && (forall a :: a in members ==> members[a].lastDeauthorized <= clock)
    && (forall g :: g in issued ==>
         g.to in members && g.timestamp <= clock && members[g.to].identity == Some(g.identity))
  }

  /** No member has used a token more often than its entries allow. */
  ghost predicate TokensKept(members: map<uint64, Member>, tokens: seq<Token>) {
    forall a, t, limit :: a in members && LimitedTo(tokens, t, limit) ==> Uses(members[a].history, t) <= limit
  }

  lemma UseKeepsLimits(tokens: seq<Token>, history: seq<AuthEvent>, presented: string, now: uint64, token: string,
                       limit: nat)
    requires exists t :: t in tokens && Usable(t, history, presented, now)
    requires LimitedTo(tokens, token, limit) && Uses(history, token) <= limit
    ensures Uses(history + [AuthEvent(true, Some(presented))], token) <= limit
  {
    var t :| t in tokens && Usable(t, history, presented, now);
    UsesAppend(history, AuthEvent(true, Some(presented)), token);
  }

  function Record(members: map<uint64, Member>, address: uint64): Member {
    if address in members then members[address] else NEW_MEMBER
  }

  /** A member not seen before is not authorised and has neither history nor identity. */
  lemma NewRecord(members: map<uint64, Member>, address: uint64)
    ensures address in members ==> Record(members, address) == members[address]
    ensures address !in members ==>
              Record(members, address) == Member(None, false, 0, 0, [], 0, Version(-1, -1, -1, -1), None)
  {
  }

  class Controller {
    const limits: Limits
    const network: uint64
    const isPrivate: bool
    const tokens: seq<Token>
    var members: map<uint64, Member>
    /** Where genuine requests of a member last came from. */
    var physicalAddrs: map<uint64, nat>
    ghost var issued: set<Grant>
    ghost var clock: uint64

    ghost predicate Valid()
      reads this
    {
      && limits.Valid() && Timely(members, issued, clock) && TokensKept(members, tokens)
      && (isPrivate ==> Outdated(members, issued))
    }

    constructor (limits: Limits, network: uint64, isPrivate: bool, tokens: seq<Token>)
      requires limits.Valid()
      ensures Valid() && members == map[] && physicalAddrs == map[] && issued == {} && clock == 0
      ensures this.limits == limits && this.network == network && this.isPrivate == isPrivate && this.tokens == tokens
    {
      this.limits, this.network, this.isPrivate, this.tokens := limits, network, isPrivate, tokens;
      members, physicalAddrs, issued, clock := map[], map[], {}, 0;
    }

    /** The administrator sets or clears a member's authorisation. */
    method SetAuthorized(address: uint64, authorized: bool, now: uint64)
      requires Valid() && clock <= now
      modifies this
      ensures Valid() && clock == now && issued == old(issued) && physicalAddrs == old(physicalAddrs)
      ensures address in members && members == old(members)[address := members[address]]
      ensures members[address] ==
              var was := Record(old(members), address);
              var m := if authorized == was.authorized then was
                       else was.(authorized := authorized, history := was.history + [AuthEvent(authorized, None)],
                                 lastAuthorized := if authorized then now else was.lastAuthorized,
                                 lastDeauthorized := if authorized then was.lastDeauthorized else now);
              if address in old(members) && m == was then m else m.(revision := was.revision + 1)
    {
      hide Timely, TokensKept, Outdated, Extends;
      var m := Record(members, address);
      TimePasses(members, issued, clock, now);
      var changed := address !in members;
      if authorized != m.authorized {
        if authorized {
          m := m.(authorized := true, lastAuthorized := now);
        } else {
          m := m.(authorized := false, lastDeauthorized := now);
        }
        m := m.(history := m.history + [AuthEvent(authorized, None)]);
        changed := true;
      }
      if changed {
        m := m.(revision := m.revision + 1);
      }
      ExtendsBy(tokens, Record(members, address).history, m.history, authorized, now);
      TokensStep(members, tokens, address, m, now);
      TimelyStep(members, issued, now, address, m);
      OutdatedStep(members, issued, now, address, m);
      members := members[address := m];
      clock := now;
    }

    /** Whether the member's record and what it presents let it in. */
    ghost predicate Allowed(was: Member, auth: string, now: uint64) {
      was.authorized || !isPrivate || Admits(was.history, auth, now)
    }

    ghost predicate Known(was: Member, identity: nat) {
      was.identity.None? || was.identity == Some(identity)
    }

    /** Determines whether and how a member is authorised, and records it if that happens by itself. */
    method Admit(was: Member, identity: nat, auth: string, now: uint64) returns (allowed: bool, m: Member)
      ensures allowed <==> Allowed(was, auth, now)
      ensures m == Admitted(was, identity, auth, now) && Extends(tokens, was.history, m.history, now)
      ensures allowed <==>
              || was.authorized || !isPrivate
              || (&& |auth| > 6 && auth[..6] == "token:"
                  && exists t :: && t in tokens && t.token == auth[6..] && (t.expires == 0 || now < t.expires)
                                 && (t.maxUses == 0 || Uses(was.history, auth[6..]) < t.maxUses))
      ensures m == was.(identity := Some(identity)) ||
              (&& !was.authorized && m.authorized
               && m == was.(identity := Some(identity), authorized := true, lastAuthorized := now, history := m.history,
                            revision := was.revision + 1)
               && m.history == was.history + [AuthEvent(true, if isPrivate then Some(auth[6..]) else None)])
      ensures !was.authorized ==> (m.authorized <==> allowed && (isPrivate || was.history == []))
      ensures m.identity == Some(identity) && m.lastDeauthorized == was.lastDeauthorized
      ensures (was.authorized || (isPrivate && allowed)) ==> m.authorized
    {
      if |auth| > 6 {
        UsableIs(tokens, was.history, auth[6..], now);
      }
      hide Usable;
      m := was.(identity := Some(identity));
      allowed := m.authorized;
      var event := None;
      if !m.authorized && !isPrivate {
        allowed := true;
        if m.history == [] {
          event := Some(AuthEvent(true, None));
        }
      } else if !m.authorized && |auth| > 6 && auth[..6] == "token:" {
        allowed := FindToken(tokens, m.history, auth[6..], now);
        if allowed {
          event := Some(AuthEvent(true, Some(auth[6..])));
        }
      }
      if event.Some? {
        m := m.(authorized := true, lastAuthorized := now, history := m.history + [event.value],
                revision := m.revision + 1);
      }
    }

    /** Answers a configuration request: a certificate, or none if access is denied. */
    method Request(address: uint64, identity: nat, auth: string, report: Option<Report>, now: uint64, deauthTime: uint64)
      returns (certificate: Option<Certificate>)
      requires Valid() && clock <= now
      modifies this
      ensures Valid() && clock == now
      ensures var was := Record(old(members), address);
              certificate.Some? <==> Known(was, identity) && Allowed(was, auth, now)
      ensures address in old(members) && old(members)[address].identity !in {None, Some(identity)} ==>
                certificate.None? && members == old(members)
      ensures certificate.None? ==> issued == old(issued) && physicalAddrs == old(physicalAddrs)
      ensures certificate.Some? ==>
                && certificate.value == NewCertificate(limits, now, deauthTime, network, address)
                && issued == old(issued) + {Grant(address, identity, now, CredentialDelta(limits, now, deauthTime))}
                && physicalAddrs == if report.Some? && report.value.from.Some?
                                    then old(physicalAddrs)[address := report.value.from.value] else old(physicalAddrs)
      ensures var was := Record(old(members), address);
              members == if !Known(was, identity) then old(members)
                         else if certificate.None? then old(members)[address := Admitted(was, identity, auth, now)]
                         else old(members)[address := Reported(Admitted(was, identity, auth, now),
                                                               address, report, physicalAddrs)]
      ensures certificate.Some? ==> address in members
      ensures certificate.Some? && report.Some? ==>
                && members[address].version == report.value.version
                && (report.value.from.Some? ==> members[address].physicalAddr == report.value.from)
                && (report.value.from.None? && address in old(physicalAddrs) ==>
                      members[address].physicalAddr == Some(old(physicalAddrs)[address]))
      ensures certificate.Some? && report.None? ==>
                && members[address].version == Record(old(members), address).version
                && members[address].physicalAddr == Record(old(members), address).physicalAddr
      ensures certificate.Some? && isPrivate &&
              IsDeauthTime(old(members), deauthTime) && now - deauthTime >= limits.min ==>
                forall g :: g in issued && g.to in members && !members[g.to].authorized ==>
                  !Agrees(certificate.value, Issued(g.timestamp, g.delta, network, g.to))
    {
      hide Timely, TokensKept, Outdated, IsDeauthTime, CredentialDelta, NewCertificate, Agrees, Issued;
      hide Extends, Admitted, Allowed;
      var m := Record(members, address);
      TimePasses(members, issued, clock, now);
      clock := now;
      if m.identity.Some? && m.identity.value != identity {
        return None;
      }
      var allowed;
      allowed, m := Admit(m, identity, auth, now);
      if allowed && report.Some? {
        physicalAddrs := Located(physicalAddrs, address, report);
        m := Reported(m, address, report, physicalAddrs);
      }
      TokensStep(members, tokens, address, m, now);
      TimelyStep(members, issued, clock, address, m);
      OutdatedStep(members, issued, clock, address, m);
      members := members[address := m];
      if !allowed {
        return None;
      }
      GrantedDelta(limits, now, deauthTime, network, address);
      ghost var grant := Grant(address, identity, now, CredentialDelta(limits, now, deauthTime));
      certificate := Some(NewCertificate(limits, now, deauthTime, network, address));
      GrantStep(members, issued, clock, grant);
      if isPrivate && IsDeauthTime(old(members), deauthTime) && now - deauthTime >= limits.min {
        ShutOut(limits, old(members), members, issued, grant, deauthTime, network);
      }
      issued := issued + {grant};
    }

    /** The member's record after a request: the identity learned, and authorised if that happens by itself. */
    ghost function Admitted(was: Member, identity: nat, auth: string, now: uint64): Member {
      var m := was.(identity := Some(identity));
      var event := if isPrivate then Some(auth[if |auth| < 6 then |auth| else 6..]) else None;
      if !was.authorized && (if isPrivate then Admits(was.history, auth, now) else was.history == []) then
        m.(authorized := true, lastAuthorized := now, history := was.history + [AuthEvent(true, event)],
           revision := was.revision + 1)
      else m
    }

    /** The request presents a token that lets a member with this history in. */
    ghost predicate Admits(history: seq<AuthEvent>, auth: string, now: uint64) {
      && |auth| > 6 && auth[..6] == "token:"
      && exists t :: t in tokens && Usable(t, history, auth[6..], now)
    }
  }

  function Located(addrs: map<uint64, nat>, address: uint64, report: Option<Report>): map<uint64, nat> {
    if report.Some? && report.value.from.Some? then addrs[address := report.value.from.value] else addrs
  }

  /** The record of an authorised member after a genuine request. */
  function Reported(m: Member, address: uint64, report: Option<Report>, addrs: map<uint64, nat>): Member {
    if report.None? then m
    else m.(version := report.value.version,
            physicalAddr := if address in addrs then Some(addrs[address]) else m.physicalAddr)
  }

  lemma GrantedDelta(l: Limits, now: uint64, deauthTime: uint64, network: uint64, to: uint64)
    requires l.Valid()
    ensures NewCertificate(l, now, deauthTime, network, to) ==
            Issued(now, CredentialDelta(l, now, deauthTime), network, to)
  {
  }

  /** A certificate issued ten milliseconds after a member was deauthorised agrees with that member's. */
  method TooEarly() returns (c: Controller, older: Certificate, newer: Certificate)
    ensures c.isPrivate && 1 in c.members && !c.members[1].authorized && c.members[1].lastDeauthorized == 30
    ensures Grant(1, 100, 20, 185000) in c.issued && older == Issued(20, 185000, 7, 1)
    ensures Grant(2, 200, 40, 185000) in c.issued && newer == Issued(40, 185000, 7, 2) && Agrees(newer, older)
  {
    hide Agrees, Issued, Timely, TokensKept, Outdated, IsDeauthTime;
    c := new Controller(DEFAULT_LIMITS, 7, true, []);
    c.SetAuthorized(1, true, 10);
    var x := c.Request(1, 100, "", None, 20, 0);
    c.SetAuthorized(1, false, 30);
    c.SetAuthorized(2, true, 30);
    var y := c.Request(2, 200, "", None, 40, 30);
    older, newer := x.value, y.value;
    StaleAgrees(DEFAULT_LIMITS, 40, 30, 20, 185000, 7, 2, 1);
  }

  lemma TimePasses(members: map<uint64, Member>, issued: set<Grant>, clock: uint64, now: uint64)
    requires Timely(members, issued, clock) && clock <= now
    ensures Timely(members, issued, now)
  {
  }

  lemma TimelyStep(members: map<uint64, Member>, issued: set<Grant>, clock: uint64, address: uint64, m: Member)
    requires Timely(members, issued, clock) && m.lastDeauthorized <= clock
    requires address in members && members[address].identity.Some? ==> m.identity == members[address].identity
    ensures Timely(members[address := m], issued, clock)
  {
  }

  lemma OutdatedStep(members: map<uint64, Member>, issued: set<Grant>, clock: uint64, address: uint64, m: Member)
    requires Timely(members, issued, clock)
    requires || m.authorized || m.lastDeauthorized == clock
             || (!Record(members, address).authorized && Record(members, address).lastDeauthorized == m.lastDeauthorized)
    ensures Outdated(members, issued) ==> Outdated(members[address := m], issued)
  {
  }

  ghost predicate Extends(tokens: seq<Token>, was: seq<AuthEvent>, history: seq<AuthEvent>, now: uint64) {
    || history == was
    || history == was + [AuthEvent(true, None)] || history == was + [AuthEvent(false, None)]
    || exists presented, t :: && t in tokens && Usable(t, was, presented, now)
                              && history == was + [AuthEvent(true, Some(presented))]
  }

  lemma ExtendsBy(tokens: seq<Token>, was: seq<AuthEvent>, history: seq<AuthEvent>, granted: bool, now: uint64)
    requires history == was || history == was + [AuthEvent(granted, None)]
    ensures Extends(tokens, was, history, now)
  {
  }

  lemma TokensStep(members: map<uint64, Member>, tokens: seq<Token>, address: uint64, m: Member, now: uint64)
    requires TokensKept(members, tokens) && Extends(tokens, Record(members, address).history, m.history, now)
    ensures TokensKept(members[address := m], tokens)
  {
    var was := Record(members, address).history;
    forall t, limit | LimitedTo(tokens, t, limit) ensures Uses(m.history, t) <= limit {
      UsesOf(was, AuthEvent(true, None));
      UsesOf(was, AuthEvent(false, None));
      if m.history !in {was, was + [AuthEvent(true, None)], was + [AuthEvent(false, None)]} {
        var presented, u :| && u in tokens && Usable(u, was, presented, now)
                            && m.history == was + [AuthEvent(true, Some(presented))];
        UseKeepsLimits(tokens, was, presented, now, t, limit);
      }
    }
  }

  lemma GrantStep(members: map<uint64, Member>, issued: set<Grant>, clock: uint64, g: Grant)
    requires Timely(members, issued, clock)
    requires g.to in members && g.timestamp <= clock && members[g.to].identity == Some(g.identity)
    ensures Timely(members, issued + {g}, clock)
    ensures Outdated(members, issued) && members[g.to].authorized ==> Outdated(members, issued + {g})
  {
  }

  /** Once the window has reached its minimum, the new certificate disagrees with all those of deauthorised members. */
  lemma ShutOut(l: Limits, before: map<uint64, Member>, members: map<uint64, Member>, issued: set<Grant>, latest: Grant,
                deauthTime: uint64, network: uint64)
    requires l.Valid() && IsDeauthTime(before, deauthTime) && latest.timestamp - deauthTime >= l.min
    requires Outdated(members, issued) && Timely(before, issued, latest.timestamp)
    requires latest.to in members && members[latest.to].authorized
    requires forall a :: a in before && a != latest.to ==> a in members && members[a] == before[a]
    ensures forall g :: g in issued + {latest} && g.to in members && !members[g.to].authorized ==>
              !Agrees(NewCertificate(l, latest.timestamp, deauthTime, network, latest.to),
                      Issued(g.timestamp, g.delta, network, g.to))
  {
    hide Agrees, Issued, NewCertificate;
    forall g | g in issued + {latest} && g.to in members && !members[g.to].authorized
      ensures !Agrees(NewCertificate(l, latest.timestamp, deauthTime, network, latest.to),
                      Issued(g.timestamp, g.delta, network, g.to))
    {
      assert before[g.to] == members[g.to];
      assert Seen(before)[g.to].lastDeauthorized == members[g.to].lastDeauthorized;
      StaleAgrees(l, latest.timestamp, deauthTime, g.timestamp, g.delta, network, latest.to, g.to);
    }
  }

  lemma UsesOf(history: seq<AuthEvent>, e: AuthEvent)
    requires e.token.None?
    ensures forall token :: Uses(history + [e], token) == Uses(history, token)
  {
    forall token ensures Uses(history + [e], token) == Uses(history, token) {
      UsesAppend(history, e, token);
    }
  }

  // ----- the summary a database at rest gives

  /** The database holds these members, as far as summaries depend on it. */
  predicate Stores(db: Summaries.Members, members: map<uint64, Member>) {
    && (forall a :: a in db ==> a in members)
    && (forall a :: a in members ==>
          a in db && db[a].authorized == members[a].authorized && db[a].lastDeauthorized == members[a].lastDeauthorized)
  }

  lemma ExactIsFresh(db: Summaries.Members, members: map<uint64, Member>, d: nat)
    requires Stores(db, members) && Summaries.IsDeauthTime(db, d)
    ensures d < 0x1_0000_0000_0000_0000 && IsDeauthTime(members, d)
  {
    var seen := Seen(members);
    if d != 0 {
      var a :| a in db && !db[a].authorized && db[a].lastDeauthorized == d;
      assert a in members && a in seen && seen[a].lastDeauthorized == d;
    }
    forall a | a in seen && !seen[a].authorized ensures seen[a].lastDeauthorized <= d {
      assert a in db;
    }
  }

  /** The cached summary of a network in a database at rest is fresh. */
  lemma FreshAtRest(states: seq<JsonDb.State>, steps: seq<JsonDb.Step>, k: nat, n: nat, members: map<uint64, Member>)
    requires JsonDb.IsRun(states, steps) && k < |states| && JsonDb.Quiescent(states[k]) && n in states[k].networks
    requires Stores(Summaries.Readable(states[k].networks[n].members), members)
    ensures var d := states[k].networks[n].summary.deauthTime;
            d < 0x1_0000_0000_0000_0000 && IsDeauthTime(members, d)
  {
    hide JsonDb.IsRun, JsonDb.Inv;
    JsonDb.RunKeeps(states, steps, k);
    JsonDb.CoveredAtRest(states[k], n);
    ExactIsFresh(Summaries.Readable(states[k].networks[n].members), members, states[k].networks[n].summary.deauthTime);
  }

  /** So a request that reads it shuts deauthorised members out, whatever interleaving led there. */
  lemma RestShutsOut(states: seq<JsonDb.State>, steps: seq<JsonDb.Step>, k: nat, n: nat, l: Limits,
                     before: map<uint64, Member>, members: map<uint64, Member>, issued: set<Grant>, latest: Grant,
                     network: uint64)
    requires JsonDb.IsRun(states, steps) && k < |states| && JsonDb.Quiescent(states[k]) && n in states[k].networks
    requires Stores(Summaries.Readable(states[k].networks[n].members), before)
    requires l.Valid() && latest.timestamp - states[k].networks[n].summary.deauthTime >= l.min
    requires Outdated(members, issued) && Timely(before, issued, latest.timestamp)
    requires latest.to in members && members[latest.to].authorized
    requires forall a :: a in before && a != latest.to ==> a in members && members[a] == before[a]
    ensures var d := states[k].networks[n].summary.deauthTime;
            && d < 0x1_0000_0000_0000_0000
            && forall g :: g in issued + {latest} && g.to in members && !members[g.to].authorized ==>
                 !Agrees(NewCertificate(l, latest.timestamp, d, network, latest.to),
                         Issued(g.timestamp, g.delta, network, g.to))
  {
    hide JsonDb.IsRun, Agrees, Issued, NewCertificate, Stores, IsDeauthTime;
    FreshAtRest(states, steps, k, n, before);
    ShutOut(l, before, members, issued, latest, states[k].networks[n].summary.deauthTime, network);
  }
}
