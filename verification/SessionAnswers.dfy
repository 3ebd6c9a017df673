/** When RefreshTokens and Logout give which answer, what the tokens handed out say, and how long
    they work. */
module SessionAnswers {
  import opened Common
  import opened SessionStore
  import opened AuthSessions
  import opened SessionTheorems

  // ----- What is handed out -----

  /** The user a request for tokens is made for: the one that logs in, or the one named by the
      token presented. */
  ghost function AskingUser(a: Auth, op: Op): Id {
    match op
    case OpenFamily(user, _, _, _, _, _) => user
    case RefreshToken(jti, _, _, _, _, _, _, _, _, _, _) => if jti in a.issued then a.issued[jti].user else ""
    case _ => ""
  }

  /** The family its refresh token belongs to. */
  ghost function AskingFamily(a: Auth, op: Op): Id {
    match op
    case OpenFamily(_, family, _, _, _, _) => family
    case RefreshToken(jti, _, _, _, _, _, _, _, _, _, _) => if jti in a.issued then a.issued[jti].family else ""
    case _ => ""
  }

  /** The identifiers drawn for the tokens. */
  ghost predicate Draws(op: Op, accessJti: Id, jti: Id) {
    || (op.OpenFamily? && op.accessJti == accessJti && op.jti == jti)
    || (op.RefreshToken? && op.accessJti == accessJti && op.newJti == jti)
  }

  /** The time at which a request signs its tokens. */
  ghost function SignedAt(a: Auth, op: Op): Time {
    match op
    case RefreshToken(_, _, _, lookUpDelay, signDelay, _, _, _, _, _, _) => a.t.store.now + lookUpDelay + signDelay
    case _ => a.t.store.now
  }

  /** The time at which it stores the refresh token. */
  ghost function StoredAt(a: Auth, op: Op): Time {
    match op
    case RefreshToken(_, _, _, _, _, storeDelay, _, _, _, _, _) => SignedAt(a, op) + storeDelay
    case OpenFamily(_, _, _, _, storeDelay, _) => SignedAt(a, op) + storeDelay
    case _ => SignedAt(a, op)
  }

  /** The token says this, and its claim ends `ttl` after `signed`, to the second below. */
  ghost predicate Says(a: Auth, jti: Id, user: Id, family: Id, kind: Kind, signed: Time, ttl: nat) {
    && jti in a.issued
    && a.issued[jti].user == user && a.issued[jti].family == family && a.issued[jti].kind == kind
    && a.issued[jti].exp % 1000 == 0 && a.issued[jti].exp <= signed + ttl < a.issued[jti].exp + 1000
  }

  /** The refresh token has this entry in Redis. */
  ghost predicate Stored(a: Auth, jti: Id, user: Id, family: Id, stored: Time, ttl: nat) {
    jti in a.t.store.tokens && a.t.store.tokens[jti] == Token(user, family, stored + ttl)
  }

  lemma IssuePair(a: Auth, accessJti: Id, jti: Id, user: Id, family: Id, d: nat)
    requires accessJti != jti
    ensures var b := Issue(a, accessJti, jti, user, family, d, Done);
            && Says(b, accessJti, user, "", Access, a.t.store.now, a.accessTTL)
            && Says(b, jti, user, family, Refresh, a.t.store.now, a.t.ttl)
            && Stored(b, jti, user, family, a.t.store.now + d, a.t.ttl)
  {}

  lemma DeleteKeepsPair(a: Auth, d: nat, k: Id, o: Outcome, jti: Id)
    requires jti in a.t.store.tokens && k != jti
    ensures var b := Attempt(Pause(a, d), CDelete(k), o);
            b.issued == a.issued && jti in b.t.store.tokens && b.t.store.tokens[jti] == a.t.store.tokens[jti]
  {}

  lemma SettingsStay(a: Auth, op: Op)
    ensures Step(a, op).0.accessTTL == a.accessTTL && Step(a, op).0.t.ttl == a.t.ttl
  {
    hide LookUp, StoreToken, DeleteToken, DeleteFamily, DeleteAll;
  }

  /** What every request that answers with tokens hands out: an access token of the user that asks,
      and a refresh token of that user and of the family opened or continued, both with claims that
      last from the time of signing, and the refresh token stored from the time of storing. */
  lemma TokensHandedOut(a: Auth, op: Op)
    requires AuthInv(a) && Fresh(a, op) && Step(a, op).1.Tokens?
    ensures var (b, reply) := Step(a, op);
            && Draws(op, reply.accessJti, reply.refreshJti)
            && Says(b, reply.accessJti, AskingUser(a, op), "", Access, SignedAt(a, op), a.accessTTL)
            && Says(b, reply.refreshJti, AskingUser(a, op), AskingFamily(a, op), Refresh, SignedAt(a, op), a.t.ttl)
            && Stored(b, reply.refreshJti, AskingUser(a, op), AskingFamily(a, op), StoredAt(a, op), a.t.ttl)
  {
    hide AuthInv, Attempt, Effect, SignAccess, SignRefresh, Pause;
    if op.OpenFamily? {
      IssuePair(a, op.accessJti, op.jti, op.user, op.family, op.storeDelay);
    } else {
      var b := Pause(a, op.lookUpDelay);
      PauseKeeps(a, op.lookUpDelay);
      PauseFacts(a, op.lookUpDelay);
      PauseFacts(b, op.signDelay);
      SettingsOfPause(a, op.lookUpDelay);
      SettingsOfPause(b, op.signDelay);
      LiveIsIssued(b, op.jti);
      var c := Pause(b, op.signDelay);
      var claims := a.issued[op.jti];
      IssuePair(c, op.accessJti, op.newJti, claims.user, claims.family, op.storeDelay);
      var e := Issue(c, op.accessJti, op.newJti, claims.user, claims.family, op.storeDelay, Done);
      DeleteKeepsPair(e, op.deleteDelay, op.jti, op.deleted, op.newJti);
    }
  }

  lemma SettingsOfPause(a: Auth, d: nat)
    ensures Pause(a, d).accessTTL == a.accessTTL
  {}

  lemma {:induction false} SettingsOverRun(a: Auth, ops: seq<Op>)
    ensures RunAll(a, ops).accessTTL == a.accessTTL && RunAll(a, ops).t.ttl == a.t.ttl
    decreases |ops|
  {
    hide Step;
    if ops != [] {
      SettingsStay(a, ops[0]);
      SettingsOverRun(Step(a, ops[0]).0, ops[1..]);
    }
  }

  /** The state in which a request is made, after a run from the start. */
  lemma AfterRun(now: Time, ttl: nat, accessTTL: nat, ops: seq<Op>)
    requires FreshRun(Start(now, ttl, accessTTL), ops)
    ensures var a := RunAll(Start(now, ttl, accessTTL), ops);
            AuthInv(a) && a.t.ttl == ttl && a.accessTTL == accessTTL
  {
    hide AuthInv;
    StartHolds(now, ttl, accessTTL);
    RunKeeps(Start(now, ttl, accessTTL), ops);
    SettingsOverRun(Start(now, ttl, accessTTL), ops);
  }

  // ----- How long the tokens parse -----

  /** The token parses, to these claims, until a second before `ttl` has passed since `signed`, and
      no longer than until `ttl` has passed. */
  ghost predicate ParsesUntil(a: Auth, jti: Id, user: Id, family: Id, kind: Kind, signed: Time, ttl: nat) {
    && (a.t.store.now + 1000 <= signed + ttl ==> Parse(a, jti).Some?)
    && (a.t.store.now >= signed + ttl ==> Parse(a, jti).None?)
    && (Parse(a, jti).Some? ==>
          var c := Parse(a, jti).value;
          c.user == user && c.family == family && c.kind == kind)
  }

  lemma SaysParses(a: Auth, b: Auth, jti: Id, user: Id, family: Id, kind: Kind, signed: Time, ttl: nat)
    requires Says(a, jti, user, family, kind, signed, ttl)
    requires jti in b.issued && b.issued[jti] == a.issued[jti]
    ensures ParsesUntil(b, jti, user, family, kind, signed, ttl)
  {}

  /** In every run, whatever follows, the tokens handed out parse to what the user asked for until
      their lifetime from signing ends, to the second. */
  lemma HandedOutParses(now: Time, ttl: nat, accessTTL: nat, before: seq<Op>, issue: Op, after: seq<Op>)
    requires FreshRun(Start(now, ttl, accessTTL), before)
    requires Fresh(RunAll(Start(now, ttl, accessTTL), before), issue)
    requires Step(RunAll(Start(now, ttl, accessTTL), before), issue).1.Tokens?
    requires FreshRun(Step(RunAll(Start(now, ttl, accessTTL), before), issue).0, after)
    ensures var a := RunAll(Start(now, ttl, accessTTL), before);
            var reply := Step(a, issue).1;
            var end := RunAll(Step(a, issue).0, after);
            && Draws(issue, reply.accessJti, reply.refreshJti)
            && ParsesUntil(end, reply.accessJti, AskingUser(a, issue), "", Access, SignedAt(a, issue), accessTTL)
            && ParsesUntil(end, reply.refreshJti, AskingUser(a, issue), AskingFamily(a, issue), Refresh,
                           SignedAt(a, issue), ttl)
  {
    hide AuthInv, Step, Fresh, FreshRun, RunAll, Draws, AskingUser, AskingFamily, SignedAt, StoredAt, Stored,
         Says, ParsesUntil;
    AfterRun(now, ttl, accessTTL, before);
    var a := RunAll(Start(now, ttl, accessTTL), before);
    TokensHandedOut(a, issue);
    var (b, reply) := Step(a, issue);
    StillSays(b, after, reply.accessJti, AskingUser(a, issue), "", Access, SignedAt(a, issue), accessTTL);
    StillSays(b, after, reply.refreshJti, AskingUser(a, issue), AskingFamily(a, issue), Refresh,
              SignedAt(a, issue), ttl);
  }

  lemma StillSays(a: Auth, ops: seq<Op>, jti: Id, user: Id, family: Id, kind: Kind, signed: Time, ttl: nat)
    requires Says(a, jti, user, family, kind, signed, ttl) && FreshRun(a, ops)
    ensures ParsesUntil(RunAll(a, ops), jti, user, family, kind, signed, ttl)
  {
    hide FreshRun, RunAll, ParsesUntil;
    ClaimsOverRun(a, ops, jti);
    SaysParses(a, RunAll(a, ops), jti, user, family, kind, signed, ttl);
  }

  // ----- The answers of RefreshTokens -----

  /** The token presented is a refresh token of the service whose claim is in the future. */
  ghost predicate Presents(a: Auth, jti: Id) {
    jti in a.issued && a.issued[jti].kind == Refresh && a.t.store.now < a.issued[jti].exp
  }

  /** The token is in Redis when it is looked up. */
  ghost predicate InRedis(a: Auth, jti: Id, delay: nat) {
    jti in a.t.store.tokens && a.t.store.now + delay < a.t.store.tokens[jti].expiry
  }

  /** Which answer RefreshTokens gives, in every case. */
  lemma RefreshAnswers(a: Auth, op: Op)
    requires op.RefreshToken?
    ensures var reply := Step(a, op).1;
            && (reply == ErrInvalidToken <==> !Presents(a, op.jti))
            && (reply == ErrTokenRevoked <==>
                  Presents(a, op.jti) && !op.lookUpFails && !InRedis(a, op.jti, op.lookUpDelay))
            && (reply == ErrStorage <==>
                  Presents(a, op.jti)
                  && (op.lookUpFails || (InRedis(a, op.jti, op.lookUpDelay) && !op.stored.Done?)))
            && (reply == Tokens(op.accessJti, op.newJti) <==>
                  Presents(a, op.jti) && !op.lookUpFails && InRedis(a, op.jti, op.lookUpDelay) && op.stored.Done?)
  {
    hide Attempt, SignAccess, SignRefresh;
  }

  /** The token keeps its entry in Redis until that expires. */
  ghost predicate KeptUntil(a: Auth, j: Id, token: Token) {
    && j in a.issued && a.issued[j].kind == Refresh
    && (LiveToken(a.t.store, j) ==> a.t.store.tokens[j] == token)
    && (a.t.store.now < token.expiry ==> LiveToken(a.t.store, j))
  }

  lemma KeptStep(a: Auth, op: Op, j: Id, token: Token)
    requires AuthInv(a) && Fresh(a, op) && KeptUntil(a, j, token) && !Touches(a, op, j)
    ensures KeptUntil(Step(a, op).0, j, token) && Step(a, op).0.issued[j] == a.issued[j]
  {
    hide Step, Touches, AuthInv;
    ClaimsStay(a, op, j);
    StepTime(a, op);
    if LiveToken(Step(a, op).0.t.store, j) {
      StepLive(a, op, j);
    }
    if Elapsed(a, op) < token.expiry {
      UntouchedStays(a, op, j);
    }
  }

  lemma {:induction false} KeptOverRun(a: Auth, ops: seq<Op>, j: Id, token: Token)
    requires AuthInv(a) && FreshRun(a, ops) && KeptUntil(a, j, token)
    requires j in a.issued && UntouchedRun(a, ops, j)
    ensures KeptUntil(RunAll(a, ops), j, token)
    decreases |ops|
  {
    hide AuthInv, Step, Fresh, Touches, KeptUntil;
    if ops != [] {
      StepKeeps(a, ops[0]);
      IssuedStays(a, ops[0], j);
      KeptStep(a, ops[0], j, token);
      KeptOverRun(Step(a, ops[0]).0, ops[1..], j, token);
    }
  }

  /** What becomes of a token handed out, over every run that does not rotate it away, log it out or
      revoke its family: which answer the next RefreshTokens with it gives, in terms of when it was
      signed and stored. Until a second before its lifetime from signing ends it is exchanged,
      unless a storage call fails or the look-up comes after its lifetime from storing. */
  lemma HandedOutWorks(now: Time, ttl: nat, accessTTL: nat, before: seq<Op>, issue: Op, after: seq<Op>, use: Op)
    requires FreshRun(Start(now, ttl, accessTTL), before)
    requires Fresh(RunAll(Start(now, ttl, accessTTL), before), issue)
    requires Step(RunAll(Start(now, ttl, accessTTL), before), issue).1.Tokens?
    requires FreshRun(Step(RunAll(Start(now, ttl, accessTTL), before), issue).0, after)
    requires use.RefreshToken? && HandsOut(RunAll(Start(now, ttl, accessTTL), before), issue, use.jti)
    requires use.jti in Step(RunAll(Start(now, ttl, accessTTL), before), issue).0.issued
    requires UntouchedRun(Step(RunAll(Start(now, ttl, accessTTL), before), issue).0, after, use.jti)
    requires Fresh(RunAll(Step(RunAll(Start(now, ttl, accessTTL), before), issue).0, after), use)
    ensures var a := RunAll(Start(now, ttl, accessTTL), before);
            var end := RunAll(Step(a, issue).0, after);
            var (last, reply) := Step(end, use);
            var stays := end.t.store.now + use.lookUpDelay < StoredAt(a, issue) + ttl;
            && use.jti in end.issued && use.newJti !in end.issued
            && (reply == ErrInvalidToken <==> end.t.store.now >= end.issued[use.jti].exp)
            && (!reply.ErrInvalidToken? ==>
                  && (reply == ErrTokenRevoked <==> !use.lookUpFails && !stays)
                  && (reply == Tokens(use.accessJti, use.newJti) <==> !use.lookUpFails && stays && use.stored.Done?)
                  && (reply == ErrStorage <==> use.lookUpFails || (stays && !use.stored.Done?)))
            && (end.t.store.now + 1000 <= SignedAt(a, issue) + ttl ==> reply != ErrInvalidToken)
            && (end.t.store.now >= SignedAt(a, issue) + ttl ==> reply == ErrInvalidToken)
            && (reply.Tokens? && use.deleteDelay < ttl ==>
                  LiveToken(last.t.store, use.newJti)
                  && last.t.store.tokens[use.newJti].user == AskingUser(a, issue)
                  && last.t.store.tokens[use.newJti].family == AskingFamily(a, issue))
  {
    hide AuthInv, Step, Fresh, FreshRun, RunAll, UntouchedRun, Draws, AskingUser, AskingFamily, SignedAt, StoredAt,
         Says, Stored, KeptUntil, ParsesUntil, HandsOut;
    AfterRun(now, ttl, accessTTL, before);
    var a := RunAll(Start(now, ttl, accessTTL), before);
    TokensHandedOut(a, issue);
    SettingsStay(a, issue);
    StepKeeps(a, issue);
    var b := Step(a, issue).0;
    assert use.jti == Step(a, issue).1.refreshJti by { hide *; HandsOutIs(a, issue, use.jti); }
    var token := Token(AskingUser(a, issue), AskingFamily(a, issue), StoredAt(a, issue) + ttl);
    HandedOutKept(b, use.jti, AskingUser(a, issue), AskingFamily(a, issue), SignedAt(a, issue), StoredAt(a, issue),
                  ttl);
    KeptOverRun(b, after, use.jti, token);
    RunKeeps(b, after);
    StillSays(b, after, use.jti, AskingUser(a, issue), AskingFamily(a, issue), Refresh, SignedAt(a, issue), ttl);
    SettingsOverRun(b, after);
    UseOfKept(RunAll(b, after), use, token, SignedAt(a, issue), ttl);
  }

  lemma HandsOutIs(a: Auth, op: Op, j: Id)
    requires HandsOut(a, op, j)
    ensures Step(a, op).1.Tokens? && Step(a, op).1.refreshJti == j
  {
    hide Step;
  }

  lemma HandedOutKept(b: Auth, j: Id, user: Id, family: Id, signed: Time, stored: Time, ttl: nat)
    requires Says(b, j, user, family, Refresh, signed, ttl) && Stored(b, j, user, family, stored, ttl)
    ensures KeptUntil(b, j, Token(user, family, stored + ttl))
  {}

  lemma UseOfKept(end: Auth, use: Op, token: Token, signed: Time, ttl: nat)
    requires AuthInv(end) && use.RefreshToken? && Fresh(end, use) && KeptUntil(end, use.jti, token) && ttl == end.t.ttl
    requires ParsesUntil(end, use.jti, token.user, token.family, Refresh, signed, ttl)
    ensures var (last, reply) := Step(end, use);
            var stays := end.t.store.now + use.lookUpDelay < token.expiry;
            && use.jti in end.issued && use.newJti !in end.issued
            && (reply == ErrInvalidToken <==> end.t.store.now >= end.issued[use.jti].exp)
            && (!reply.ErrInvalidToken? ==>
                  && (reply == ErrTokenRevoked <==> !use.lookUpFails && !stays)
                  && (reply == Tokens(use.accessJti, use.newJti) <==> !use.lookUpFails && stays && use.stored.Done?)
                  && (reply == ErrStorage <==> use.lookUpFails || (stays && !use.stored.Done?)))
            && (end.t.store.now + 1000 <= signed + ttl ==> reply != ErrInvalidToken)
            && (end.t.store.now >= signed + ttl ==> reply == ErrInvalidToken)
            && (reply.Tokens? && use.deleteDelay < ttl ==>
                  LiveToken(last.t.store, use.newJti)
                  && last.t.store.tokens[use.newJti].user == token.user
                  && last.t.store.tokens[use.newJti].family == token.family)
  {
    hide AuthInv, Step, SignedAt, StoredAt;
    RefreshAnswers(end, use);
    assert use.newJti !in end.issued;
    if Step(end, use).1.Tokens? {
      TokensHandedOut(end, use);
      assert Step(end, use).1 == Tokens(use.accessJti, use.newJti);
      RotationTime(end, use);
    }
  }

  /** A request that rotates ends `deleteDelay` after it stored. */
  lemma RotationTime(a: Auth, op: Op)
    requires op.RefreshToken? && Step(a, op).1.Tokens?
    ensures Step(a, op).0.t.store.now == StoredAt(a, op) + op.deleteDelay
  {
    StepTime(a, op);
  }

  // ----- The answers of Login -----

  /** Which answer Login gives for a known user. Whatever the answer, nobody else's token is touched
      that lives through the request; after tokens, the refresh token is live. */
  lemma LoginAnswers(a: Auth, op: Op)
    requires AuthInv(a) && Fresh(a, op) && op.OpenFamily?
    ensures var (b, reply) := Step(a, op);
            && (reply == Tokens(op.accessJti, op.jti) <==> op.stored.Done?)
            && (reply == ErrStorage <==> !op.stored.Done?)
            && b.t.store.now == a.t.store.now + op.storeDelay
            && (reply.Tokens? && a.t.ttl > 0 ==>
                  LiveToken(b.t.store, op.jti)
                  && b.t.store.tokens[op.jti].user == op.user && b.t.store.tokens[op.jti].family == op.family)
            && (op.stored.FailedBefore? ==> !LiveToken(b.t.store, op.jti))
            && (forall j :: LiveToken(a.t.store, j) && b.t.store.now < a.t.store.tokens[j].expiry ==>
                  LiveToken(b.t.store, j) && b.t.store.tokens[j] == a.t.store.tokens[j])
  {
    hide AuthInv, Step, Draws;
    LoginReply(a, op);
    StepTime(a, op);
    if Step(a, op).1.Tokens? {
      TokensHandedOut(a, op);
      assert SignedAt(a, op) == a.t.store.now;
    }
    forall j | LiveToken(a.t.store, j) && Elapsed(a, op) < a.t.store.tokens[j].expiry
      ensures LiveToken(Step(a, op).0.t.store, j) && Step(a, op).0.t.store.tokens[j] == a.t.store.tokens[j]
    {
      LiveIsIssued(a, j);
      UntouchedStays(a, op, j);
    }
  }

  lemma LoginReply(a: Auth, op: Op)
    requires AuthInv(a) && Fresh(a, op) && op.OpenFamily?
    ensures var (b, reply) := Step(a, op);
            && (reply == Tokens(op.accessJti, op.jti) <==> op.stored.Done?)
            && (reply == ErrStorage <==> !op.stored.Done?)
            && (op.stored.FailedBefore? ==> !LiveToken(b.t.store, op.jti))
  {
    TokensHaveHome(a);
  }

  // ----- Logging out lasts -----

  /** Which answer LogoutAll gives, and what is live after it. */
  lemma LogoutAllAnswers(a: Auth, op: Op)
    requires AuthInv(a) && op.LogoutAll?
    ensures var (b, reply) := Step(a, op);
            && (reply == Success <==> op.deleted.Done?)
            && (reply == ErrStorage <==> !op.deleted.Done?)
            && (forall j :: LiveToken(b.t.store, j) <==>
                  LiveToken(a.t.store, j) && (op.deleted.FailedBefore? || a.t.store.tokens[j].user != op.user))
            && (forall j :: LiveToken(b.t.store, j) ==> b.t.store.tokens[j] == a.t.store.tokens[j])
            && b.issued == a.issued && b.t.store.now == a.t.store.now
  {
    hide Inv, DeleteAll;
    InvOfAuth(a);
    DeleteAllCompleteAndLocal(a.t, op.user);
    DeleteAllTime(a.t.store, op.user);
  }

  lemma DeleteAllTime(s: Store, user: Id)
    ensures DeleteAll(s, user).now == s.now
  {}

  /** Which answer Logout gives, in every case. */
  lemma LogoutAnswers(a: Auth, op: Op)
    requires op.Logout?
    ensures var reply := Step(a, op).1;
            var parses := op.jti in a.issued && a.t.store.now < a.issued[op.jti].exp;
            && (reply == ErrInvalidToken <==> !parses)
            && (reply == Success <==> parses && op.deleted.Done?)
            && (reply == ErrStorage <==> parses && !op.deleted.Done?)
  {}

  lemma LogoutKills(a: Auth, op: Op)
    requires op.Logout? && Step(a, op).1 == Success
    ensures op.jti in a.issued && !LiveToken(Step(a, op).0.t.store, op.jti)
    ensures Step(a, op).0.issued == a.issued
  {}

  lemma GoneStep(a: Auth, op: Op, j: Id)
    requires AuthInv(a) && Fresh(a, op) && j in a.issued && !LiveToken(a.t.store, j)
    ensures !LiveToken(Step(a, op).0.t.store, j)
  {
    hide AuthInv, Step;
    if LiveToken(Step(a, op).0.t.store, j) {
      StepLive(a, op, j);
    }
  }

  lemma {:induction false} GoneOverRun(a: Auth, ops: seq<Op>, j: Id)
    requires AuthInv(a) && FreshRun(a, ops) && j in a.issued && !LiveToken(a.t.store, j)
    ensures !LiveToken(RunAll(a, ops).t.store, j)
    decreases |ops|
  {
    hide AuthInv, Step, Fresh, LiveToken;
    if ops != [] {
      StepKeeps(a, ops[0]);
      GoneStep(a, ops[0], j);
      IssuedStays(a, ops[0], j);
      GoneOverRun(Step(a, ops[0]).0, ops[1..], j);
    }
  }

  /** After a Logout answered with success the token presented is never live again, whatever is
      requested afterwards and whatever storage calls fail: no RefreshTokens with it gives tokens,
      and while it parses every look-up that works takes it for a replay. */
  lemma LoggedOutTokenStaysOut(now: Time, ttl: nat, accessTTL: nat, before: seq<Op>, logout: Op, after: seq<Op>,
                               use: Op)
    requires FreshRun(Start(now, ttl, accessTTL), before)
    requires logout.Logout? && Step(RunAll(Start(now, ttl, accessTTL), before), logout).1 == Success
    requires FreshRun(Step(RunAll(Start(now, ttl, accessTTL), before), logout).0, after)
    ensures var a := RunAll(Start(now, ttl, accessTTL), before);
            var end := RunAll(Step(a, logout).0, after);
            && logout.jti in a.issued && logout.jti in end.issued && end.issued[logout.jti] == a.issued[logout.jti]
            && !LiveToken(end.t.store, logout.jti)
            && (use.RefreshToken? && use.jti == logout.jti ==>
                  && !Step(end, use).1.Tokens?
                  && (Step(end, use).1 == ErrTokenRevoked <==>
                        && end.t.store.now < a.issued[logout.jti].exp && a.issued[logout.jti].kind == Refresh
                        && !use.lookUpFails))
  {
    hide AuthInv, Step, FreshRun, RunAll, Fresh;
    AfterRun(now, ttl, accessTTL, before);
    var a := RunAll(Start(now, ttl, accessTTL), before);
    assert Fresh(a, logout) by { LogoutDrawsNothing(a, logout); }
    StepKeeps(a, logout);
    LogoutKills(a, logout);
    var b := Step(a, logout).0;
    GoneOverRun(b, after, logout.jti);
    ClaimsOverRun(b, after, logout.jti);
    if use.RefreshToken? {
      RefreshAnswers(RunAll(b, after), use);
    }
  }

  lemma LogoutDrawsNothing(a: Auth, op: Op)
    requires op.Logout?
    ensures Fresh(a, op)
  {}
}
