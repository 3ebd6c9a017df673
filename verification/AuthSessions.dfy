/** Login, refresh-token rotation with replay detection, and logout, as steps over the
    session store, and what every run of them guarantees. */
module AuthSessions {
  import opened Common
  import opened SessionStore

  datatype Kind = Access | Refresh

  /** What a signed token says. */
  datatype Claims = Claims(user: Id, family: Id, exp: Time, kind: Kind)

  /** The session store with the tokens signed so far and the last refresh token of each family. */
  datatype Auth = Auth(t: Tracked, accessTTL: nat, issued: map<Id, Claims>, last: map<Id, Id>)

  datatype Op =
    | OpenFamily(user: Id, family: Id, jti: Id, accessJti: Id, storeDelay: nat, stored: Outcome)
    | RefreshToken(jti: Id, newJti: Id, accessJti: Id,
                   lookUpDelay: nat, signDelay: nat, storeDelay: nat, deleteDelay: nat,
                   lookUpFails: bool, stored: Outcome, deleted: Outcome, revoked: Outcome)
    | Logout(jti: Id, deleteDelay: nat, deleted: Outcome)
    | LogoutAll(user: Id, deleted: Outcome)
    | Tick(d: nat)

  datatype Reply = Tokens(accessJti: Id, refreshJti: Id) | Success | ErrInvalidToken | ErrTokenRevoked | ErrStorage

  // ----- The pieces of a request -----

  /** Expiry claims are whole seconds. */
  function ExpiryClaim(now: Time, ttl: nat): Time { (now + ttl) / 1000 * 1000 }

  /** A token parses when the service signed it and its expiry claim is in the future. */
  function Parse(a: Auth, jti: Id): Option<Claims> {
    if jti in a.issued && a.t.store.now < a.issued[jti].exp then Some(a.issued[jti]) else None
  }

  function SignAccess(a: Auth, jti: Id, user: Id): Auth {
    a.(issued := a.issued[jti := Claims(user, "", ExpiryClaim(a.t.store.now, a.accessTTL), Access)])
  }

  function SignRefresh(a: Auth, jti: Id, user: Id, family: Id): Auth {
    a.(issued := a.issued[jti := Claims(user, family, ExpiryClaim(a.t.store.now, a.t.ttl), Refresh)],
       last := a.last[family := jti],
       t := a.t.(owner := a.t.owner[family := user]))
  }

  ghost function Pause(a: Auth, d: nat): Auth { a.(t := Effect(a.t, CWait(d))) }

  ghost function Attempt(a: Auth, c: Call, o: Outcome): Auth {
    if o.FailedBefore? then a else a.(t := Effect(a.t, c))
  }

  // ----- The requests -----

  /** Login and Register from the point where the user is known. */
  ghost function OpenStep(a: Auth, op: Op): (Auth, Reply)
    requires op.OpenFamily?
  {
    var signed := SignRefresh(SignAccess(a, op.accessJti, op.user), op.jti, op.user, op.family);
    var after := Attempt(Pause(signed, op.storeDelay), CStore(op.jti, op.user, op.family), op.stored);
    (after, if op.stored.Done? then Tokens(op.accessJti, op.jti) else ErrStorage)
  }

  /** A missing token with a valid signature is a replay: the family is deleted. */
  ghost function ReplayStep(a: Auth, claims: Claims, revoked: Outcome): (Auth, Reply) {
    (Attempt(a, CDeleteFamily(claims.family, claims.user), revoked), ErrTokenRevoked)
  }

  /** A live token is exchanged: the new one is stored before the old one is deleted. */
  ghost function RotateStep(a: Auth, op: Op, token: Token): (Auth, Reply)
    requires op.RefreshToken?
  {
    var signed := SignRefresh(SignAccess(a, op.accessJti, token.user), op.newJti, token.user, token.family);
    var stored := Attempt(Pause(signed, op.storeDelay), CStore(op.newJti, token.user, token.family), op.stored);
    if !op.stored.Done? then (stored, ErrStorage)
    else (Attempt(Pause(stored, op.deleteDelay), CDelete(op.jti), op.deleted), Tokens(op.accessJti, op.newJti))
  }

  ghost function RefreshStep(a: Auth, op: Op): (Auth, Reply)
    requires op.RefreshToken?
  {
    match Parse(a, op.jti)
    case None => (a, ErrInvalidToken)
    case Some(claims) =>
      if claims.kind != Refresh then (a, ErrInvalidToken)
      else
        var b := Pause(a, op.lookUpDelay);
        if op.lookUpFails then (b, ErrStorage)
        else
          match LookUp(b.t.store, op.jti)
          case None => ReplayStep(b, claims, op.revoked)
          case Some(token) => RotateStep(Pause(b, op.signDelay), op, token)
  }

  ghost function LogoutStep(a: Auth, op: Op): (Auth, Reply)
    requires op.Logout?
  {
    match Parse(a, op.jti)
    case None => (a, ErrInvalidToken)
    case Some(_) =>
      (Attempt(Pause(a, op.deleteDelay), CDelete(op.jti), op.deleted), if op.deleted.Done? then Success else ErrStorage)
  }

  ghost function Step(a: Auth, op: Op): (Auth, Reply) {
    match op
    case OpenFamily(_, _, _, _, _, _) => OpenStep(a, op)
    case RefreshToken(_, _, _, _, _, _, _, _, _, _, _) => RefreshStep(a, op)
    case Logout(_, _, _) => LogoutStep(a, op)
    case LogoutAll(user, deleted) =>
      (Attempt(a, CDeleteAll(user), deleted), if deleted.Done? then Success else ErrStorage)
    case Tick(d) => (Pause(a, d), Success)
  }

  /** Identifiers drawn by a request are new. */
  ghost predicate Fresh(a: Auth, op: Op) {
    match op
    case OpenFamily(_, family, jti, accessJti, _, _) =>
      && family !in a.t.owner && jti !in a.issued && accessJti !in a.issued && jti != accessJti
    case RefreshToken(_, newJti, accessJti, _, _, _, _, _, _, _, _) =>
      && newJti !in a.issued && accessJti !in a.issued && newJti != accessJti
    case _ => true
  }

  ghost predicate FreshRun(a: Auth, ops: seq<Op>)
    decreases |ops|
  {
    ops == [] || (Fresh(a, ops[0]) && FreshRun(Step(a, ops[0]).0, ops[1..]))
  }

  ghost function RunAll(a: Auth, ops: seq<Op>): Auth
    decreases |ops|
  {
    if ops == [] then a else RunAll(Step(a, ops[0]).0, ops[1..])
  }

  ghost function Start(now: Time, ttl: nat, accessTTL: nat): Auth {
    Auth(Empty(now, ttl), accessTTL, map[], map[])
  }

  // ----- Invariant -----

  /** Stored tokens carry the claims of a refresh token the service signed, and outlive its expiry claim. */
  ghost predicate ClaimsAgree(a: Auth) {
    && (forall j :: j in a.t.home ==> j in a.issued && a.issued[j].kind == Refresh && a.issued[j].family == a.t.home[j])
    && (forall j :: j in a.t.store.tokens && j in a.issued ==>
          a.issued[j].exp <= a.t.store.tokens[j].expiry && a.issued[j].user == a.t.store.tokens[j].user)
    && (forall j :: j in a.issued && a.issued[j].kind == Refresh ==>
          a.issued[j].family in a.t.owner && a.t.owner[a.issued[j].family] == a.issued[j].user)
  }

  ghost predicate AuthInv(a: Auth) { Inv(a.t) && ClaimsAgree(a) }

  lemma PauseKeeps(a: Auth, d: nat)
    requires AuthInv(a)
    ensures AuthInv(Pause(a, d))
  {
    hide Inv;
    CallKeeps(a.t, CWait(d));
  }

  lemma SignAccessKeeps(a: Auth, jti: Id, user: Id)
    requires AuthInv(a) && jti !in a.issued
    ensures AuthInv(SignAccess(a, jti, user))
  {
    hide Indexed, FamiliesKnown, UsersKnown, AllIndexed;
    assert jti !in a.t.home;
    assert jti !in a.t.store.tokens;
  }

  lemma SignRefreshKeeps(a: Auth, jti: Id, user: Id, family: Id)
    requires AuthInv(a) && jti !in a.issued
    requires family in a.t.owner ==> a.t.owner[family] == user
    ensures AuthInv(SignRefresh(a, jti, user, family))
  {
    hide Inv;
    TokensHaveHome(a);
    OpeningKeeps(a.t, family, user);
    assert jti !in a.t.home;
    assert jti !in a.t.store.tokens;
  }

  lemma TokensHaveHome(a: Auth)
    requires AuthInv(a)
    ensures forall j :: j in a.t.store.tokens ==> j in a.t.home && a.t.home[j] == a.t.store.tokens[j].family
    ensures forall j :: j in a.t.store.tokens ==> j in a.issued
  {}

  lemma AttemptKeeps(a: Auth, c: Call, o: Outcome)
    requires AuthInv(a)
    requires !c.CStore? && !c.CWait? && Allowed(a.t, c)
    ensures AuthInv(Attempt(a, c, o))
  {
    hide Inv;
    CallKeeps(a.t, c);
  }

  /** A token signed no later than it is stored outlives its expiry claim. */
  lemma StoreSignedKeeps(a: Auth, jti: Id, user: Id, family: Id, o: Outcome)
    requires AuthInv(a)
    requires jti in a.issued && jti !in a.t.home
    requires a.issued[jti].kind == Refresh && a.issued[jti].user == user && a.issued[jti].family == family
    requires a.issued[jti].exp <= a.t.store.now + a.t.ttl
    ensures AuthInv(Attempt(a, CStore(jti, user, family), o))
  {
    hide Inv;
    assert Allowed(a.t, CStore(jti, user, family));
    CallKeeps(a.t, CStore(jti, user, family));
  }

  /** Signing a refresh token, pausing and storing it, as Login and rotation do. */
  ghost function Issue(a: Auth, accessJti: Id, jti: Id, user: Id, family: Id, d: nat, o: Outcome): Auth {
    Attempt(Pause(SignRefresh(SignAccess(a, accessJti, user), jti, user, family), d), CStore(jti, user, family), o)
  }

  lemma IssueKeeps(a: Auth, accessJti: Id, jti: Id, user: Id, family: Id, d: nat, o: Outcome)
    requires AuthInv(a) && accessJti !in a.issued && jti !in a.issued && jti != accessJti
    requires family in a.t.owner ==> a.t.owner[family] == user
    ensures AuthInv(Issue(a, accessJti, jti, user, family, d, o))
  {
    hide AuthInv, Attempt;
    SignAccessKeeps(a, accessJti, user);
    var b := SignAccess(a, accessJti, user);
    SignRefreshKeeps(b, jti, user, family);
    var c := SignRefresh(b, jti, user, family);
    PauseKeeps(c, d);
    HomeIsIssued(a, jti);
    assert ExpiryClaim(a.t.store.now, a.t.ttl) <= a.t.store.now + a.t.ttl;
    StoreSignedKeeps(Pause(c, d), jti, user, family, o);
  }

  lemma HomeIsIssued(a: Auth, jti: Id)
    requires AuthInv(a)
    ensures jti in a.t.home ==> jti in a.issued
  {}

  /** A live token was signed as a refresh token of its user and family. */
  lemma LiveIsIssued(a: Auth, j: Id)
    requires AuthInv(a) && LiveToken(a.t.store, j)
    ensures j in a.issued && a.issued[j].kind == Refresh
    ensures a.issued[j].family == a.t.store.tokens[j].family && a.issued[j].user == a.t.store.tokens[j].user
    ensures a.issued[j].exp <= a.t.store.tokens[j].expiry
    ensures a.t.store.tokens[j].family in a.t.owner && a.t.owner[a.t.store.tokens[j].family] == a.t.store.tokens[j].user
  {}

  lemma StepKeeps(a: Auth, op: Op)
    requires AuthInv(a) && Fresh(a, op)
    ensures AuthInv(Step(a, op).0)
  {
    hide AuthInv, Attempt, Effect, SignAccess, SignRefresh;
    match op
    case OpenFamily(user, family, jti, accessJti, d, o) =>
      IssueKeeps(a, accessJti, jti, user, family, d, o);
    case RefreshToken(_, _, _, _, _, _, _, _, _, _, _) =>
      RefreshKeeps(a, op);
    case Logout(jti, d, o) =>
      PauseKeeps(a, d);
      AttemptKeeps(Pause(a, d), CDelete(jti), o);
    case LogoutAll(user, o) =>
      AttemptKeeps(a, CDeleteAll(user), o);
    case Tick(d) =>
      PauseKeeps(a, d);
  }

  lemma PauseFacts(a: Auth, d: nat)
    ensures Pause(a, d).issued == a.issued && Pause(a, d).t.owner == a.t.owner && Pause(a, d).last == a.last
    ensures Pause(a, d).t.store == Wait(a.t.store, d) && Pause(a, d).t.ttl == a.t.ttl && Pause(a, d).t.home == a.t.home
  {}

  lemma RefreshKeeps(a: Auth, op: Op)
    requires AuthInv(a) && Fresh(a, op) && op.RefreshToken?
    ensures AuthInv(Step(a, op).0)
  {
    hide AuthInv, Attempt, Effect, SignAccess, SignRefresh, Pause;
    var b := Pause(a, op.lookUpDelay);
    PauseKeeps(a, op.lookUpDelay);
    PauseFacts(a, op.lookUpDelay);
    if Parse(a, op.jti).Some? && Parse(a, op.jti).value.kind == Refresh && !op.lookUpFails {
      var claims := a.issued[op.jti];
      match LookUp(b.t.store, op.jti)
      case None =>
        OwnerOfClaims(b, op.jti);
        AttemptKeeps(b, CDeleteFamily(claims.family, claims.user), op.revoked);
      case Some(token) =>
        var c := Pause(b, op.signDelay);
        PauseKeeps(b, op.signDelay);
        PauseFacts(b, op.signDelay);
        LiveIsIssued(b, op.jti);
        IssueKeeps(c, op.accessJti, op.newJti, token.user, token.family, op.storeDelay, op.stored);
        var e := Issue(c, op.accessJti, op.newJti, token.user, token.family, op.storeDelay, op.stored);
        PauseKeeps(e, op.deleteDelay);
        AttemptKeeps(Pause(e, op.deleteDelay), CDelete(op.jti), op.deleted);
    }
  }

  lemma OwnerOfClaims(a: Auth, jti: Id)
    requires AuthInv(a) && jti in a.issued && a.issued[jti].kind == Refresh
    ensures Allowed(a.t, CDeleteFamily(a.issued[jti].family, a.issued[jti].user))
  {}

  lemma StartHolds(now: Time, ttl: nat, accessTTL: nat)
    ensures AuthInv(Start(now, ttl, accessTTL))
  {}

  lemma {:induction false} RunKeeps(a: Auth, ops: seq<Op>)
    requires AuthInv(a) && FreshRun(a, ops)
    ensures AuthInv(RunAll(a, ops))
    decreases |ops|
  {
    hide AuthInv, Step, Fresh;
    if ops != [] {
      StepKeeps(a, ops[0]);
      RunKeeps(Step(a, ops[0]).0, ops[1..]);
    }
  }
}
