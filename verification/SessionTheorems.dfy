/** Run properties of the refresh-token sessions. */
module SessionTheorems {
  import opened Common
  import opened SessionStore
  import opened AuthSessions

  // ----- How one step changes which tokens are live -----

  /** Every token live after the request either was live before, unchanged, or is the one the
      request issued: into a family it opened, or into the family of the live token it rotated. */
  ghost predicate LiveFrom(a: Auth, b: Auth, op: Op, j: Id)
    requires LiveToken(b.t.store, j)
  {
    || (LiveToken(a.t.store, j) && b.t.store.tokens[j] == a.t.store.tokens[j])
    || (op.OpenFamily? && j == op.jti && b.t.store.tokens[j].family == op.family)
    || (op.RefreshToken? && j == op.newJti && op.jti != j && Rotates(a, op)
        && b.t.store.tokens[j].family == a.t.store.tokens[op.jti].family)
  }

  /** The request presents a token that is live when it is looked up. */
  ghost predicate Rotates(a: Auth, op: Op)
    requires op.RefreshToken?
  {
    && Parse(a, op.jti).Some? && Parse(a, op.jti).value.kind == Refresh && !op.lookUpFails
    && LookUp(Wait(a.t.store, op.lookUpDelay), op.jti).Some?
  }

  lemma AttemptDeletes(a: Auth, c: Call, o: Outcome, j: Id)
    requires !c.CStore?
    requires LiveToken(Attempt(a, c, o).t.store, j)
    ensures LiveToken(a.t.store, j) && Attempt(a, c, o).t.store.tokens[j] == a.t.store.tokens[j]
  {}

  lemma IssueAdds(a: Auth, accessJti: Id, jti: Id, user: Id, family: Id, d: nat, o: Outcome, j: Id)
    requires LiveToken(Issue(a, accessJti, jti, user, family, d, o).t.store, j)
    ensures || (j == jti && Issue(a, accessJti, jti, user, family, d, o).t.store.tokens[j].family == family)
            || (LiveToken(a.t.store, j)
                && Issue(a, accessJti, jti, user, family, d, o).t.store.tokens[j] == a.t.store.tokens[j])
  {}

  lemma StepLive(a: Auth, op: Op, j: Id)
    requires AuthInv(a) && Fresh(a, op)
    requires LiveToken(Step(a, op).0.t.store, j)
    ensures LiveFrom(a, Step(a, op).0, op, j)
  {
    hide AuthInv, Attempt, Effect, SignAccess, SignRefresh;
    match op
    case OpenFamily(user, family, jti, accessJti, d, o) =>
      IssueAdds(a, accessJti, jti, user, family, d, o, j);
    case RefreshToken(_, _, _, _, _, _, _, _, _, _, _) =>
      RefreshLive(a, op, j);
    case Logout(jti, d, o) =>
      PauseFacts(a, d);
      if Parse(a, jti).Some? {
        AttemptDeletes(Pause(a, d), CDelete(jti), o, j);
      }
    case LogoutAll(user, o) =>
      AttemptDeletes(a, CDeleteAll(user), o, j);
    case Tick(d) =>
      PauseFacts(a, d);
  }

  lemma RefreshLive(a: Auth, op: Op, j: Id)
    requires AuthInv(a) && Fresh(a, op) && op.RefreshToken?
    requires LiveToken(Step(a, op).0.t.store, j)
    ensures LiveFrom(a, Step(a, op).0, op, j)
  {
    hide AuthInv, Attempt, Effect, SignAccess, SignRefresh, Pause;
    var b := Pause(a, op.lookUpDelay);
    PauseFacts(a, op.lookUpDelay);
    if Parse(a, op.jti).Some? && Parse(a, op.jti).value.kind == Refresh && !op.lookUpFails {
      var claims := a.issued[op.jti];
      match LookUp(b.t.store, op.jti)
      case None =>
        AttemptDeletes(b, CDeleteFamily(claims.family, claims.user), op.revoked, j);
      case Some(token) =>
        var c := Pause(b, op.signDelay);
        PauseFacts(b, op.signDelay);
        var e := Issue(c, op.accessJti, op.newJti, token.user, token.family, op.storeDelay, op.stored);
        PauseFacts(e, op.deleteDelay);
        if op.stored.Done? {
          AttemptDeletes(Pause(e, op.deleteDelay), CDelete(op.jti), op.deleted, j);
        }
        IssueAdds(c, op.accessJti, op.newJti, token.user, token.family, op.storeDelay, op.stored, j);
    }
  }

  // ----- A revoked family stays dead -----

  ghost predicate FamilyDead(a: Auth, family: Id) {
    forall j :: LiveToken(a.t.store, j) ==> a.t.store.tokens[j].family != family
  }

  lemma DeadStaysDead(a: Auth, op: Op, family: Id)
    requires AuthInv(a) && Fresh(a, op)
    requires family in a.t.owner && FamilyDead(a, family)
    ensures FamilyDead(Step(a, op).0, family) && family in Step(a, op).0.t.owner
    ensures op.RefreshToken? && op.jti in a.issued && a.issued[op.jti].family == family ==> !Step(a, op).1.Tokens?
  {
    hide AuthInv, Step;
    var b := Step(a, op).0;
    OwnersStay(a, op);
    forall j | LiveToken(b.t.store, j)
      ensures b.t.store.tokens[j].family != family
    {
      StepLive(a, op, j);
    }
    if op.RefreshToken? && op.jti in a.issued && a.issued[op.jti].family == family {
      DeadIsRefused(a, op, family);
    }
  }

  lemma DeadIsRefused(a: Auth, op: Op, family: Id)
    requires AuthInv(a) && FamilyDead(a, family)
    requires op.RefreshToken? && op.jti in a.issued && a.issued[op.jti].family == family
    ensures !Step(a, op).1.Tokens?
  {
    if LiveToken(a.t.store, op.jti) {
      LiveIsIssued(a, op.jti);
    }
  }

  lemma OwnersStay(a: Auth, op: Op)
    ensures a.t.owner.Keys <= Step(a, op).0.t.owner.Keys
    ensures a.issued.Keys <= Step(a, op).0.issued.Keys
  {
    hide Attempt, Effect, Pause, Parse, SignAccess, SignRefresh;
    match op
    case OpenFamily(user, family, jti, accessJti, d, o) =>
      IssueGrows(a, accessJti, jti, user, family, d, o);
    case RefreshToken(_, _, _, _, _, _, _, _, _, _, _) => RefreshOwnersStay(a, op);
    case Logout(jti, d, o) =>
      PauseFacts(a, d);
      AttemptGrows(Pause(a, d), CDelete(jti), o);
    case LogoutAll(user, o) => AttemptGrows(a, CDeleteAll(user), o);
    case Tick(d) => PauseFacts(a, d);
  }

  lemma AttemptGrows(a: Auth, c: Call, o: Outcome)
    ensures a.t.owner.Keys <= Attempt(a, c, o).t.owner.Keys
    ensures Attempt(a, c, o).issued == a.issued && Attempt(a, c, o).last == a.last
  {}

  lemma IssueGrows(a: Auth, accessJti: Id, jti: Id, user: Id, family: Id, d: nat, o: Outcome)
    ensures a.t.owner.Keys <= Issue(a, accessJti, jti, user, family, d, o).t.owner.Keys
    ensures a.issued.Keys <= Issue(a, accessJti, jti, user, family, d, o).issued.Keys
    ensures Issue(a, accessJti, jti, user, family, d, o).last == a.last[family := jti]
  {
    hide Attempt, Effect, Pause;
    var signed := SignRefresh(SignAccess(a, accessJti, user), jti, user, family);
    PauseFacts(signed, d);
    AttemptGrows(Pause(signed, d), CStore(jti, user, family), o);
  }

  lemma RefreshOwnersStay(a: Auth, op: Op)
    requires op.RefreshToken?
    ensures a.t.owner.Keys <= RefreshStep(a, op).0.t.owner.Keys
    ensures a.issued.Keys <= RefreshStep(a, op).0.issued.Keys
  {
    hide Attempt, Effect, Pause, SignAccess, SignRefresh;
    var b := Pause(a, op.lookUpDelay);
    PauseFacts(a, op.lookUpDelay);
    if Parse(a, op.jti).Some? && Parse(a, op.jti).value.kind == Refresh && !op.lookUpFails {
      var claims := a.issued[op.jti];
      match LookUp(b.t.store, op.jti)
      case None => AttemptGrows(b, CDeleteFamily(claims.family, claims.user), op.revoked);
      case Some(token) =>
        var c := Pause(b, op.signDelay);
        PauseFacts(b, op.signDelay);
        IssueGrows(c, op.accessJti, op.newJti, token.user, token.family, op.storeDelay, op.stored);
        var e := Issue(c, op.accessJti, op.newJti, token.user, token.family, op.storeDelay, op.stored);
        PauseFacts(e, op.deleteDelay);
        AttemptGrows(Pause(e, op.deleteDelay), CDelete(op.jti), op.deleted);
    }
  }

  /** The request is a replay whose family deletion succeeded. */
  ghost predicate Revokes(a: Auth, op: Op, family: Id) {
    && op.RefreshToken? && op.revoked.Done?
    && op.jti in a.issued && a.issued[op.jti].family == family
    && Step(a, op).1 == ErrTokenRevoked
  }

  lemma RevocationKills(a: Auth, op: Op, family: Id)
    requires AuthInv(a) && Fresh(a, op) && Revokes(a, op, family)
    ensures FamilyDead(Step(a, op).0, family) && family in Step(a, op).0.t.owner
  {
    hide AuthInv, Inv;
    var b := Pause(a, op.lookUpDelay);
    PauseKeeps(a, op.lookUpDelay);
    PauseFacts(a, op.lookUpDelay);
    var claims := a.issued[op.jti];
    assert AuthInv(b);
    OwnerOfClaims(b, op.jti);
    assert Inv(b.t) by { InvOfAuth(b); }
    DeleteFamilyCompleteAndLocal(b.t, claims.family, claims.user);
  }

  lemma InvOfAuth(a: Auth)
    requires AuthInv(a)
    ensures Inv(a.t)
  {}

  lemma {:induction false} DeadOverRun(a: Auth, ops: seq<Op>, family: Id)
    requires AuthInv(a) && FreshRun(a, ops)
    requires family in a.t.owner && FamilyDead(a, family)
    ensures FamilyDead(RunAll(a, ops), family) && family in RunAll(a, ops).t.owner
    decreases |ops|
  {
    hide AuthInv, Step, Fresh, FamilyDead;
    if ops != [] {
      StepKeeps(a, ops[0]);
      DeadStaysDead(a, ops[0], family);
      DeadOverRun(Step(a, ops[0]).0, ops[1..], family);
    }
  }

  /** Once a replay made RefreshToken delete the family, whatever is requested afterwards, and
      whatever storage calls fail, no token of the family is live again and no refresh with any
      token of the family succeeds. */
  lemma RevokedFamilyStaysDead(now: Time, ttl: nat, accessTTL: nat, before: seq<Op>, replay: Op, after: seq<Op>,
                               family: Id, last: Op)
    requires FreshRun(Start(now, ttl, accessTTL), before)
    requires Fresh(RunAll(Start(now, ttl, accessTTL), before), replay)
    requires Revokes(RunAll(Start(now, ttl, accessTTL), before), replay, family)
    requires FreshRun(Step(RunAll(Start(now, ttl, accessTTL), before), replay).0, after)
    ensures var end := RunAll(Step(RunAll(Start(now, ttl, accessTTL), before), replay).0, after);
            && FamilyDead(end, family)
            && ((Fresh(end, last) && last.RefreshToken?
                 && last.jti in end.issued && end.issued[last.jti].family == family)
                ==> !Step(end, last).1.Tokens?)
  {
    hide AuthInv, Step, Fresh, FamilyDead, Revokes;
    var s := Start(now, ttl, accessTTL);
    StartHolds(now, ttl, accessTTL);
    RunKeeps(s, before);
    var a := RunAll(s, before);
    StepKeeps(a, replay);
    RevocationKills(a, replay, family);
    var b := Step(a, replay).0;
    RunKeeps(b, after);
    DeadOverRun(b, after, family);
    if Fresh(RunAll(b, after), last) {
      DeadStaysDead(RunAll(b, after), last, family);
    }
  }

  // ----- Logging out everywhere lasts -----

  /** A token was signed as a refresh token of this user. */
  ghost predicate IssuedTo(a: Auth, j: Id, user: Id) {
    j in a.issued && a.issued[j].kind == Refresh && a.issued[j].user == user
  }

  lemma LogoutAllKills(a: Auth, op: Op, j: Id)
    requires AuthInv(a) && op.LogoutAll? && !op.deleted.FailedBefore? && IssuedTo(a, j, op.user)
    ensures FamilyDead(Step(a, op).0, a.issued[j].family) && a.issued[j].family in Step(a, op).0.t.owner
    ensures Step(a, op).0.issued == a.issued
  {
    OwnerOfClaims(a, j);
    var b := Step(a, op).0;
    assert b.t.store == DeleteAll(a.t.store, op.user);
    assert Inv(a.t) by { InvOfAuth(a); }
    DeleteAllCompleteAndLocal(a.t, op.user);
    forall k | LiveToken(b.t.store, k)
      ensures b.t.store.tokens[k].family != a.issued[j].family
    {
      LiveIsIssued(a, k);
    }
  }

  lemma {:induction false} ClaimsOverRun(a: Auth, ops: seq<Op>, j: Id)
    requires j in a.issued && FreshRun(a, ops)
    ensures j in RunAll(a, ops).issued && RunAll(a, ops).issued[j] == a.issued[j]
    decreases |ops|
  {
    hide Step, Fresh;
    if ops != [] {
      ClaimsStay(a, ops[0], j);
      ClaimsOverRun(Step(a, ops[0]).0, ops[1..], j);
    }
  }

  /** Once LogoutAll took effect, whatever is requested afterwards and whatever storage calls fail,
      no refresh token issued to the user before is live again, nor any other token of its family,
      and no refresh with one succeeds. */
  lemma LoggedOutStaysOut(now: Time, ttl: nat, accessTTL: nat, before: seq<Op>, logout: Op, after: seq<Op>,
                          j: Id, last: Op)
    requires FreshRun(Start(now, ttl, accessTTL), before)
    requires logout.LogoutAll? && !logout.deleted.FailedBefore?
    requires IssuedTo(RunAll(Start(now, ttl, accessTTL), before), j, logout.user)
    requires FreshRun(Step(RunAll(Start(now, ttl, accessTTL), before), logout).0, after)
    ensures var family := RunAll(Start(now, ttl, accessTTL), before).issued[j].family;
            var end := RunAll(Step(RunAll(Start(now, ttl, accessTTL), before), logout).0, after);
            && FamilyDead(end, family) && !LiveToken(end.t.store, j)
            && (last.RefreshToken? && last.jti == j && Fresh(end, last) ==> !Step(end, last).1.Tokens?)
  {
    hide AuthInv, Step, FreshRun, RunAll, FamilyDead, Fresh;
    var s := Start(now, ttl, accessTTL);
    StartHolds(now, ttl, accessTTL);
    RunKeeps(s, before);
    var a := RunAll(s, before);
    assert Fresh(a, logout) by { NothingDrawn(a, logout); }
    StepKeeps(a, logout);
    LogoutAllKills(a, logout, j);
    var b := Step(a, logout).0;
    DeadOverRun(b, after, a.issued[j].family);
    RunKeeps(b, after);
    ClaimsOverRun(b, after, j);
    DeadToken(RunAll(b, after), j, a.issued[j].family);
    if Fresh(RunAll(b, after), last) {
      DeadStaysDead(RunAll(b, after), last, a.issued[j].family);
    }
  }

  lemma NothingDrawn(a: Auth, op: Op)
    requires op.LogoutAll?
    ensures Fresh(a, op)
  {}

  lemma DeadToken(a: Auth, j: Id, family: Id)
    requires AuthInv(a) && FamilyDead(a, family) && j in a.issued && a.issued[j].family == family
    ensures !LiveToken(a.t.store, j)
  {
    if LiveToken(a.t.store, j) {
      LiveIsIssued(a, j);
    }
  }

  // ----- Rotation -----

  /** Every live token is the last one issued in its family. */
  ghost predicate OnlyLastLive(a: Auth) {
    forall j :: LiveToken(a.t.store, j) ==>
      a.t.store.tokens[j].family in a.last && a.last[a.t.store.tokens[j].family] == j
  }

  ghost predicate StorageWorks(op: Op) {
    match op
    case OpenFamily(_, _, _, _, _, stored) => stored.Done?
    case RefreshToken(_, _, _, _, _, _, _, lookUpFails, stored, deleted, revoked) =>
      !lookUpFails && stored.Done? && deleted.Done? && revoked.Done?
    case Logout(_, _, deleted) => deleted.Done?
    case LogoutAll(_, deleted) => deleted.Done?
    case Tick(_) => true
  }

  /** What a request does to the record of the last token issued per family. */
  lemma LastAfter(a: Auth, op: Op)
    ensures Step(a, op).0.last ==
            if op.OpenFamily? then a.last[op.family := op.jti]
            else if op.RefreshToken? && Rotates(a, op) then a.last[a.t.store.tokens[op.jti].family := op.newJti]
            else a.last
  {
    hide Attempt, Effect, Pause, Parse, SignAccess, SignRefresh;
    match op
    case OpenFamily(user, family, jti, accessJti, d, o) =>
      IssueGrows(a, accessJti, jti, user, family, d, o);
    case RefreshToken(_, _, _, _, _, _, _, _, _, _, _) => RefreshLast(a, op);
    case Logout(jti, d, o) =>
      PauseFacts(a, d);
      AttemptGrows(Pause(a, d), CDelete(jti), o);
    case LogoutAll(user, o) => AttemptGrows(a, CDeleteAll(user), o);
    case Tick(d) => PauseFacts(a, d);
  }

  lemma RefreshLast(a: Auth, op: Op)
    requires op.RefreshToken?
    ensures RefreshStep(a, op).0.last ==
            if Rotates(a, op) then a.last[a.t.store.tokens[op.jti].family := op.newJti] else a.last
  {
    hide Attempt, Effect, Pause, SignAccess, SignRefresh;
    var b := Pause(a, op.lookUpDelay);
    PauseFacts(a, op.lookUpDelay);
    if Parse(a, op.jti).Some? && Parse(a, op.jti).value.kind == Refresh && !op.lookUpFails {
      var claims := a.issued[op.jti];
      match LookUp(b.t.store, op.jti)
      case None => AttemptGrows(b, CDeleteFamily(claims.family, claims.user), op.revoked);
      case Some(token) =>
        var c := Pause(b, op.signDelay);
        PauseFacts(b, op.signDelay);
        IssueGrows(c, op.accessJti, op.newJti, token.user, token.family, op.storeDelay, op.stored);
        var e := Issue(c, op.accessJti, op.newJti, token.user, token.family, op.storeDelay, op.stored);
        PauseFacts(e, op.deleteDelay);
        AttemptGrows(Pause(e, op.deleteDelay), CDelete(op.jti), op.deleted);
    }
  }

  lemma RotatedAway(a: Auth, op: Op)
    requires AuthInv(a) && Fresh(a, op) && StorageWorks(op)
    requires op.RefreshToken? && Rotates(a, op)
    ensures !LiveToken(Step(a, op).0.t.store, op.jti)
  {
    LiveIsIssued(a, op.jti);
  }

  lemma RotationStep(a: Auth, op: Op)
    requires AuthInv(a) && Fresh(a, op) && StorageWorks(op)
    requires OnlyLastLive(a)
    ensures OnlyLastLive(Step(a, op).0)
  {
    hide Step, AuthInv, Attempt, Effect;
    var b := Step(a, op).0;
    LastAfter(a, op);
    forall j | LiveToken(b.t.store, j)
      ensures b.t.store.tokens[j].family in b.last && b.last[b.t.store.tokens[j].family] == j
    {
      StepLive(a, op, j);
      if LiveToken(a.t.store, j) {
        LiveIsIssued(a, j);
      }
      if op.RefreshToken? && Rotates(a, op) {
        RotatedAway(a, op);
      }
    }
  }

  ghost predicate WorkingRun(ops: seq<Op>) {
    forall i :: 0 <= i < |ops| ==> StorageWorks(ops[i])
  }

  lemma {:induction false} RotationOverRun(a: Auth, ops: seq<Op>)
    requires AuthInv(a) && FreshRun(a, ops) && WorkingRun(ops) && OnlyLastLive(a)
    ensures OnlyLastLive(RunAll(a, ops))
    decreases |ops|
  {
    hide AuthInv, Step, Fresh, OnlyLastLive, StorageWorks;
    if ops != [] {
      StepKeeps(a, ops[0]);
      RotationStep(a, ops[0]);
      RotationOverRun(Step(a, ops[0]).0, ops[1..]);
    }
  }

  /** In every run whose storage calls succeed: each family has at most one live token, the last
      one issued; and presenting any other unexpired refresh token of the family is refused as a
      replay and leaves the family without a live token. */
  lemma Rotation(now: Time, ttl: nat, accessTTL: nat, ops: seq<Op>, replay: Op)
    requires FreshRun(Start(now, ttl, accessTTL), ops) && WorkingRun(ops)
    ensures OnlyLastLive(RunAll(Start(now, ttl, accessTTL), ops))
    ensures var a := RunAll(Start(now, ttl, accessTTL), ops);
            (replay.RefreshToken? && Fresh(a, replay) && StorageWorks(replay)
             && Parse(a, replay.jti).Some? && a.issued[replay.jti].kind == Refresh
             && (a.issued[replay.jti].family in a.last ==> a.last[a.issued[replay.jti].family] != replay.jti))
            ==> Step(a, replay).1 == ErrTokenRevoked && FamilyDead(Step(a, replay).0, a.issued[replay.jti].family)
  {
    hide Step, Fresh, AuthInv, FamilyDead, OnlyLastLive, StorageWorks;
    var s := Start(now, ttl, accessTTL);
    StartHolds(now, ttl, accessTTL);
    RunKeeps(s, ops);
    assert OnlyLastLive(s) by { NothingLive(now, ttl, accessTTL); }
    RotationOverRun(s, ops);
    var a := RunAll(s, ops);
    if replay.RefreshToken? && Fresh(a, replay) && StorageWorks(replay)
       && Parse(a, replay.jti).Some? && a.issued[replay.jti].kind == Refresh
       && (a.issued[replay.jti].family in a.last ==> a.last[a.issued[replay.jti].family] != replay.jti)
    {
      EarlierTokenIsReplay(a, replay);
    }
  }

  lemma NothingLive(now: Time, ttl: nat, accessTTL: nat)
    ensures OnlyLastLive(Start(now, ttl, accessTTL))
  {}

  lemma EarlierTokenIsReplay(a: Auth, replay: Op)
    requires AuthInv(a) && OnlyLastLive(a) && Fresh(a, replay) && StorageWorks(replay)
    requires replay.RefreshToken? && Parse(a, replay.jti).Some? && a.issued[replay.jti].kind == Refresh
    requires a.issued[replay.jti].family in a.last ==> a.last[a.issued[replay.jti].family] != replay.jti
    ensures Step(a, replay).1 == ErrTokenRevoked && FamilyDead(Step(a, replay).0, a.issued[replay.jti].family)
  {
    hide AuthInv, FamilyDead;
    if LiveToken(a.t.store, replay.jti) {
      LiveIsIssued(a, replay.jti);
    }
    RevocationKills(a, replay, a.issued[replay.jti].family);
  }

  // ----- No false alarm -----

  /** The request rotates the token away, revokes its family, or logs it out; a revocation or
      logout that fails without effect does not. */
  ghost predicate Touches(a: Auth, op: Op, j: Id)
    requires j in a.issued
  {
    match op
    case RefreshToken(k, _, _, _, _, _, _, _, _, _, revoked) =>
      || (k == j && Step(a, op).1.Tokens?)
      || (k in a.issued && a.issued[k].family == a.issued[j].family && Step(a, op).1 == ErrTokenRevoked
          && !revoked.FailedBefore?)
    case Logout(k, _, deleted) => k == j && !deleted.FailedBefore?
    case LogoutAll(user, deleted) => user == a.issued[j].user && !deleted.FailedBefore?
    case _ => false
  }

  /** Until its expiry claim the token is in Redis. */
  ghost predicate PresentUntilExpiry(a: Auth, j: Id) {
    && j in a.issued && a.issued[j].kind == Refresh
    && (a.t.store.now < a.issued[j].exp ==> LiveToken(a.t.store, j))
  }

  /** A deleting call leaves a live token of another kind alone. */
  ghost predicate Spares(t: Tracked, c: Call, j: Id)
    requires j in t.store.tokens
  {
    match c
    case CDelete(k) => k != j
    case CDeleteFamily(family, user) => family != t.store.tokens[j].family
    case CDeleteAll(user) => user != t.store.tokens[j].user
    case CStore(k, _, _) => k != j
    case CWait(_) => false
  }

  lemma SparedStays(a: Auth, c: Call, o: Outcome, j: Id)
    requires AuthInv(a) && LiveToken(a.t.store, j) && (o.FailedBefore? || Spares(a.t, c, j))
    ensures LiveToken(Attempt(a, c, o).t.store, j) && Attempt(a, c, o).t.store.tokens[j] == a.t.store.tokens[j]
  {
    match c
    case CDeleteFamily(family, user) => DeleteFamilyCompleteAndLocal(a.t, family, user);
    case CDeleteAll(user) => DeleteAllCompleteAndLocal(a.t, user);
    case _ =>
  }

  lemma PauseSpares(a: Auth, d: nat, j: Id)
    requires LiveToken(a.t.store, j) && a.t.store.now + d < a.t.store.tokens[j].expiry
    ensures LiveToken(Pause(a, d).t.store, j) && Pause(a, d).t.store.tokens[j] == a.t.store.tokens[j]
  {}

  lemma SingleSpares(a: Auth, c: Call, o: Outcome, j: Id)
    requires LiveToken(a.t.store, j) && (c.CDelete? || c.CStore?)
    requires o.FailedBefore? || Spares(a.t, c, j)
    ensures LiveToken(Attempt(a, c, o).t.store, j) && Attempt(a, c, o).t.store.tokens[j] == a.t.store.tokens[j]
    ensures Attempt(a, c, o).t.store.now == a.t.store.now
  {}

  lemma IssueSpares(a: Auth, accessJti: Id, jti: Id, user: Id, family: Id, d: nat, o: Outcome, j: Id)
    requires LiveToken(a.t.store, j) && j != jti && a.t.store.now + d < a.t.store.tokens[j].expiry
    ensures var b := Issue(a, accessJti, jti, user, family, d, o);
            LiveToken(b.t.store, j) && b.t.store.tokens[j] == a.t.store.tokens[j] && b.t.store.now == a.t.store.now + d
  {
    hide Effect, Attempt, Pause, Spares;
    var signed := SignRefresh(SignAccess(a, accessJti, user), jti, user, family);
    PauseSpares(signed, d, j);
    PauseFacts(signed, d);
    SpareOther(Pause(signed, d), CStore(jti, user, family), j);
    SingleSpares(Pause(signed, d), CStore(jti, user, family), o, j);
  }

  lemma SpareOther(a: Auth, c: Call, j: Id)
    requires j in a.t.store.tokens
    requires (c.CStore? && c.jti != j) || (c.CDelete? && c.jti != j)
    ensures Spares(a.t, c, j)
  {}

  /** The time at the end of a request. */
  ghost function Elapsed(a: Auth, op: Op): nat
  {
    Step(a, op).0.t.store.now
  }

  lemma StepTime(a: Auth, op: Op)
    ensures a.t.store.now <= Elapsed(a, op)
    ensures op.OpenFamily? ==> Elapsed(a, op) == a.t.store.now + op.storeDelay
    ensures op.Logout? && Parse(a, op.jti).Some? ==> Elapsed(a, op) == a.t.store.now + op.deleteDelay
    ensures op.Tick? ==> Elapsed(a, op) == a.t.store.now + op.d
    ensures op.RefreshToken? && Parse(a, op.jti).Some? && Parse(a, op.jti).value.kind == Refresh ==>
              Elapsed(a, op) >= a.t.store.now + op.lookUpDelay
    ensures op.RefreshToken? && Rotates(a, op) ==>
              Elapsed(a, op) == a.t.store.now + op.lookUpDelay + op.signDelay + op.storeDelay
                                + if op.stored.Done? then op.deleteDelay else 0
  {
    hide Attempt, Effect, SignAccess, SignRefresh, Pause;
    match op
    case OpenFamily(user, family, jti, accessJti, d, o) =>
      IssueTime(a, accessJti, jti, user, family, d, o);
    case RefreshToken(_, _, _, _, _, _, _, _, _, _, _) =>
      RefreshTime(a, op);
    case Logout(jti, d, o) =>
      PauseFacts(a, d);
      AttemptTime(Pause(a, d), CDelete(jti), o);
    case LogoutAll(user, o) =>
      AttemptTime(a, CDeleteAll(user), o);
    case Tick(d) =>
      PauseFacts(a, d);
  }

  lemma AttemptTime(a: Auth, c: Call, o: Outcome)
    requires !c.CWait?
    ensures Attempt(a, c, o).t.store.now == a.t.store.now
  {}

  lemma IssueTime(a: Auth, accessJti: Id, jti: Id, user: Id, family: Id, d: nat, o: Outcome)
    ensures Issue(a, accessJti, jti, user, family, d, o).t.store.now == a.t.store.now + d
  {
    hide Attempt, Effect, Pause;
    var signed := SignRefresh(SignAccess(a, accessJti, user), jti, user, family);
    PauseFacts(signed, d);
    AttemptTime(Pause(signed, d), CStore(jti, user, family), o);
  }

  lemma RefreshTime(a: Auth, op: Op)
    requires op.RefreshToken?
    ensures a.t.store.now <= Elapsed(a, op)
    ensures Parse(a, op.jti).Some? && Parse(a, op.jti).value.kind == Refresh ==>
              Elapsed(a, op) >= a.t.store.now + op.lookUpDelay
    ensures Rotates(a, op) ==>
              Elapsed(a, op) == a.t.store.now + op.lookUpDelay + op.signDelay + op.storeDelay
                                + if op.stored.Done? then op.deleteDelay else 0
  {
    hide Attempt, Effect, SignAccess, SignRefresh, Pause;
    var b := Pause(a, op.lookUpDelay);
    PauseFacts(a, op.lookUpDelay);
    if Parse(a, op.jti).Some? && Parse(a, op.jti).value.kind == Refresh && !op.lookUpFails {
      var claims := a.issued[op.jti];
      match LookUp(b.t.store, op.jti)
      case None =>
        AttemptTime(b, CDeleteFamily(claims.family, claims.user), op.revoked);
      case Some(token) =>
        var c := Pause(b, op.signDelay);
        PauseFacts(b, op.signDelay);
        IssueTime(c, op.accessJti, op.newJti, token.user, token.family, op.storeDelay, op.stored);
        var e := Issue(c, op.accessJti, op.newJti, token.user, token.family, op.storeDelay, op.stored);
        PauseFacts(e, op.deleteDelay);
        AttemptTime(Pause(e, op.deleteDelay), CDelete(op.jti), op.deleted);
    }
  }

  /** An untouched token that lives through the whole request is unchanged by it. */
  lemma UntouchedStays(a: Auth, op: Op, j: Id)
    requires AuthInv(a) && Fresh(a, op) && LiveToken(a.t.store, j)
    requires j in a.issued && !Touches(a, op, j)
    requires Elapsed(a, op) < a.t.store.tokens[j].expiry
    ensures LiveToken(Step(a, op).0.t.store, j) && Step(a, op).0.t.store.tokens[j] == a.t.store.tokens[j]
  {
    hide AuthInv, Attempt, Effect, SignAccess, SignRefresh, Pause;
    StepTime(a, op);
    LiveIsIssued(a, j);
    match op
    case OpenFamily(user, family, jti, accessJti, d, o) =>
      IssueSpares(a, accessJti, jti, user, family, d, o, j);
    case RefreshToken(_, _, _, _, _, _, _, _, _, _, _) =>
      RefreshSpares(a, op, j);
    case Logout(jti, d, o) =>
      if Parse(a, jti).Some? {
        PauseSpares(a, d, j);
        SingleSpares(Pause(a, d), CDelete(jti), o, j);
      }
    case LogoutAll(user, o) =>
      SparedStays(a, CDeleteAll(user), o, j);
    case Tick(d) =>
      PauseSpares(a, d, j);
  }

  lemma RefreshSpares(a: Auth, op: Op, j: Id)
    requires AuthInv(a) && Fresh(a, op) && LiveToken(a.t.store, j) && op.RefreshToken?
    requires j in a.issued && !Touches(a, op, j)
    requires Elapsed(a, op) < a.t.store.tokens[j].expiry
    ensures LiveToken(Step(a, op).0.t.store, j) && Step(a, op).0.t.store.tokens[j] == a.t.store.tokens[j]
  {
    hide AuthInv, Attempt, Effect, SignAccess, SignRefresh, Pause;
    StepTime(a, op);
    LiveIsIssued(a, j);
    var b := Pause(a, op.lookUpDelay);
    PauseFacts(a, op.lookUpDelay);
    PauseKeeps(a, op.lookUpDelay);
    if Parse(a, op.jti).Some? && Parse(a, op.jti).value.kind == Refresh {
      PauseSpares(a, op.lookUpDelay, j);
      if !op.lookUpFails {
        var claims := a.issued[op.jti];
        match LookUp(b.t.store, op.jti)
        case None =>
          SparedStays(b, CDeleteFamily(claims.family, claims.user), op.revoked, j);
        case Some(token) =>
          var c := Pause(b, op.signDelay);
          PauseFacts(b, op.signDelay);
          PauseSpares(b, op.signDelay, j);
          IssueSpares(c, op.accessJti, op.newJti, token.user, token.family, op.storeDelay, op.stored, j);
          var e := Issue(c, op.accessJti, op.newJti, token.user, token.family, op.storeDelay, op.stored);
          if op.stored.Done? {
            PauseSpares(e, op.deleteDelay, j);
            SingleSpares(Pause(e, op.deleteDelay), CDelete(op.jti), op.deleted, j);
          }
      }
    }
  }

  ghost predicate UntouchedRun(a: Auth, ops: seq<Op>, j: Id)
    requires j in a.issued
    decreases |ops|
  {
    ops == [] ||
    (IssuedStays(a, ops[0], j);
     !Touches(a, ops[0], j) && UntouchedRun(Step(a, ops[0]).0, ops[1..], j))
  }

  lemma IssuedStays(a: Auth, op: Op, j: Id)
    requires j in a.issued
    ensures j in Step(a, op).0.issued
  {
    hide Step;
    OwnersStay(a, op);
  }

  lemma PresentStep(a: Auth, op: Op, j: Id)
    requires AuthInv(a) && Fresh(a, op) && PresentUntilExpiry(a, j) && !Touches(a, op, j)
    ensures PresentUntilExpiry(Step(a, op).0, j) && Step(a, op).0.issued[j] == a.issued[j]
  {
    hide Step, Touches, AuthInv;
    IssuedStays(a, op, j);
    ClaimsStay(a, op, j);
    StepTime(a, op);
    if Elapsed(a, op) < a.issued[j].exp {
      LiveIsIssued(a, j);
      UntouchedStays(a, op, j);
    }
  }

  lemma ClaimsStay(a: Auth, op: Op, j: Id)
    requires j in a.issued && Fresh(a, op)
    ensures j in Step(a, op).0.issued && Step(a, op).0.issued[j] == a.issued[j]
  {
    hide Effect, LookUp;
  }

  lemma {:induction false} PresentOverRun(a: Auth, ops: seq<Op>, j: Id)
    requires AuthInv(a) && FreshRun(a, ops) && PresentUntilExpiry(a, j) && UntouchedRun(a, ops, j)
    ensures PresentUntilExpiry(RunAll(a, ops), j)
    decreases |ops|
  {
    hide AuthInv, Step, Fresh, Touches, PresentUntilExpiry;
    if ops != [] {
      StepKeeps(a, ops[0]);
      PresentStep(a, ops[0], j);
      assert j in a.issued by { PresentMeans(a, j); }
      PresentOverRun(Step(a, ops[0]).0, ops[1..], j);
    }
  }

  lemma PresentMeans(a: Auth, j: Id)
    requires PresentUntilExpiry(a, j)
    ensures j in a.issued && a.issued[j].kind == Refresh
  {}

  /** The refresh token a request hands out, if any. */
  ghost predicate HandsOut(a: Auth, op: Op, j: Id) {
    Step(a, op).1.Tokens? && Step(a, op).1.refreshJti == j
  }

  lemma IssueStores(a: Auth, accessJti: Id, jti: Id, user: Id, family: Id, d: nat)
    requires jti != accessJti
    ensures var b := Issue(a, accessJti, jti, user, family, d, Done);
            jti in b.t.store.tokens && jti in b.issued && b.issued[jti].kind == Refresh
  {}

  lemma OtherKept(a: Auth, d: nat, k: Id, o: Outcome, j: Id)
    requires j in a.t.store.tokens && j != k
    ensures j in Attempt(Pause(a, d), CDelete(k), o).t.store.tokens
    ensures Attempt(Pause(a, d), CDelete(k), o).issued == a.issued
  {}

  lemma HandedOutIsPresent(a: Auth, op: Op, j: Id)
    requires AuthInv(a) && Fresh(a, op) && HandsOut(a, op, j)
    ensures PresentUntilExpiry(Step(a, op).0, j)
  {
    hide AuthInv, Attempt, Effect, SignAccess, SignRefresh, Pause;
    StepKeeps(a, op);
    if op.OpenFamily? {
      IssueStores(a, op.accessJti, op.jti, op.user, op.family, op.storeDelay);
    } else {
      PauseFacts(a, op.lookUpDelay);
      var b := Pause(a, op.lookUpDelay);
      var c := Pause(b, op.signDelay);
      var token := LookUp(b.t.store, op.jti).value;
      IssueStores(c, op.accessJti, op.newJti, token.user, token.family, op.storeDelay);
      var e := Issue(c, op.accessJti, op.newJti, token.user, token.family, op.storeDelay, Done);
      OtherKept(e, op.deleteDelay, op.jti, op.deleted, op.newJti);
    }
    StoredIsPresent(Step(a, op).0, j);
  }

  lemma StoredIsPresent(a: Auth, j: Id)
    requires AuthInv(a) && j in a.t.store.tokens && j in a.issued && a.issued[j].kind == Refresh
    ensures PresentUntilExpiry(a, j)
  {}

  /** False alarms, exactly: a token the service handed out that was never rotated, logged out or
      revoked since is taken for a replay exactly when it parses and its entry in Redis expires in
      the pause before the look-up. It never is when the look-up comes before its expiry claim; and
      whenever it parses it is still in Redis. */
  lemma NoFalseAlarm(now: Time, ttl: nat, accessTTL: nat, before: seq<Op>, issue: Op, after: seq<Op>, use: Op, j: Id)
    requires FreshRun(Start(now, ttl, accessTTL), before)
    requires Fresh(RunAll(Start(now, ttl, accessTTL), before), issue)
    requires HandsOut(RunAll(Start(now, ttl, accessTTL), before), issue, j)
    requires FreshRun(Step(RunAll(Start(now, ttl, accessTTL), before), issue).0, after)
    requires j in Step(RunAll(Start(now, ttl, accessTTL), before), issue).0.issued
    requires UntouchedRun(Step(RunAll(Start(now, ttl, accessTTL), before), issue).0, after, j)
    requires use.RefreshToken? && use.jti == j
    ensures var end := RunAll(Step(RunAll(Start(now, ttl, accessTTL), before), issue).0, after);
            && j in end.issued
            && (Parse(end, j).Some? ==> LookUp(end.t.store, j).Some?)
            && (Step(end, use).1 == ErrTokenRevoked <==>
                  && Parse(end, j).Some? && !use.lookUpFails
                  && j in end.t.store.tokens && end.t.store.now + use.lookUpDelay >= end.t.store.tokens[j].expiry)
            && (end.t.store.now + use.lookUpDelay < end.issued[j].exp ==> Step(end, use).1 != ErrTokenRevoked)
  {
    hide AuthInv, Step, Fresh, PresentUntilExpiry, Touches;
    var s := Start(now, ttl, accessTTL);
    StartHolds(now, ttl, accessTTL);
    RunKeeps(s, before);
    var a := RunAll(s, before);
    StepKeeps(a, issue);
    HandedOutIsPresent(a, issue, j);
    var b := Step(a, issue).0;
    PresentOverRun(b, after, j);
    RunKeeps(b, after);
    UseOfPresent(RunAll(b, after), use, j);
  }

  lemma UseOfPresent(a: Auth, use: Op, j: Id)
    requires AuthInv(a) && PresentUntilExpiry(a, j)
    requires use.RefreshToken? && use.jti == j
    ensures j in a.issued && (Parse(a, j).Some? ==> LookUp(a.t.store, j).Some?)
    ensures Step(a, use).1 == ErrTokenRevoked <==>
            && Parse(a, j).Some? && !use.lookUpFails
            && j in a.t.store.tokens && a.t.store.now + use.lookUpDelay >= a.t.store.tokens[j].expiry
    ensures a.t.store.now + use.lookUpDelay < a.issued[j].exp ==> Step(a, use).1 != ErrTokenRevoked
  {
    hide AuthInv, Pause, Attempt;
    PauseFacts(a, use.lookUpDelay);
    if Parse(a, j).Some? {
      LiveIsIssued(a, j);
    }
  }

  // ----- The false alarm -----

  const WEEK := 604_800_000
  const QUARTER := 900_000
  const SAMPLE_LOGIN: Op := OpenFamily("user", "family", "refresh", "access", 0, Done)
  const SAMPLE_USE: Op := RefreshToken("refresh", "refresh2", "access2", 1, 0, 0, 0, false, Done, Done, Done)

  /** A run of one login whose calls all succeed: the token is used once, in the last millisecond
      before its claim, and looked up one millisecond later; it is taken for a replay. */
  lemma GenuineTokenTakenForReplay()
    ensures var ops := [SAMPLE_LOGIN, Tick(WEEK - 1)];
            var end := RunAll(Start(0, WEEK, QUARTER), ops);
            && FreshRun(Start(0, WEEK, QUARTER), ops) && HandsOut(Start(0, WEEK, QUARTER), SAMPLE_LOGIN, "refresh")
            && Fresh(end, SAMPLE_USE) && StorageWorks(SAMPLE_LOGIN) && StorageWorks(SAMPLE_USE)
            && Parse(end, "refresh").Some? && Step(end, SAMPLE_USE).1 == ErrTokenRevoked
  {
    hide Step, Fresh, HandsOut, Parse;
    var s := Start(0, WEEK, QUARTER);
    var ops := [SAMPLE_LOGIN, Tick(WEEK - 1)];
    var a := Step(s, ops[0]).0;
    var b := Step(a, ops[1]).0;
    assert ops[1..] == [ops[1]] && ops[1..][1..] == [];
    SampleLogin(s, a);
    assert RunAll(a, ops[1..]) == b && FreshRun(a, ops[1..]);
    SampleEnd(s, a, b);
    SampleReuse(b);
  }

  lemma SampleLogin(s: Auth, a: Auth)
    requires s == Start(0, WEEK, QUARTER) && a == Step(s, SAMPLE_LOGIN).0
    ensures Fresh(s, SAMPLE_LOGIN) && HandsOut(s, SAMPLE_LOGIN, "refresh") && Fresh(a, Tick(WEEK - 1))
  {}

  lemma SampleReuse(b: Auth)
    requires b.t.store.now == WEEK - 1 && b.issued.Keys == {"access", "refresh"}
    requires b.issued["refresh"] == Claims("user", "family", WEEK, Refresh)
    requires "refresh" in b.t.store.tokens && b.t.store.tokens["refresh"].expiry == WEEK
    ensures Fresh(b, SAMPLE_USE) && Parse(b, "refresh").Some? && Step(b, SAMPLE_USE).1 == ErrTokenRevoked
  {}

  lemma SampleEnd(s: Auth, a: Auth, b: Auth)
    requires s == Start(0, WEEK, QUARTER) && a == Step(s, SAMPLE_LOGIN).0 && b == Step(a, Tick(WEEK - 1)).0
    ensures b.t.store.now == WEEK - 1 && b.issued.Keys == {"access", "refresh"}
    ensures b.issued["refresh"] == Claims("user", "family", WEEK, Refresh)
    ensures "refresh" in b.t.store.tokens && b.t.store.tokens["refresh"].expiry == WEEK
  {}
}
