/** The session storage and the auth service as objects that are updated in place, command by
    command; every method computes the corresponding step of the specification. */
module AuthService {
  import opened Common
  import opened SessionStore
  import opened AuthSessions

  // ----- Redis commands on a family of set-valued keys -----

  function SAdd(m: map<Id, KeySet>, k: Id, x: Id, now: Time): map<Id, KeySet> {
    if LiveKey(m, k, now) then m[k := m[k].(members := m[k].members + {x})] else m[k := KeySet({x}, None)]
  }

  function Expire(m: map<Id, KeySet>, k: Id, ttl: nat, now: Time): map<Id, KeySet> {
    if LiveKey(m, k, now) then m[k := m[k].(expiry := Some(now + ttl))] else m
  }

  lemma SAddThenExpire(m: map<Id, KeySet>, k: Id, x: Id, ttl: nat, now: Time)
    ensures Expire(SAdd(m, k, x, now), k, ttl, now) == m[k := KeySet(Members(m, k, now) + {x}, Some(now + ttl))]
  {
    assert {} + {x} == {x};
  }

  lemma TokensOfOneMore(s: Store, families: set<Id>, f: Id)
    ensures TokensOf(s, families + {f}) == TokensOf(s, families) + Members(s.families, f, s.now)
  {}

  lemma TokensOfNone(s: Store)
    ensures TokensOf(s, {}) == {}
  {}

  lemma MinusTwice<T>(m: map<Id, T>, a: set<Id>, b: set<Id>)
    ensures m - a - b == m - (a + b)
  {}

  class RedisStorage {
    var now: Time
    var tokens: map<Id, Token>
    var families: map<Id, KeySet>
    var users: map<Id, KeySet>

    constructor (start: Time)
      ensures State() == Store(start, map[], map[], map[])
    {
      now := start;
      tokens, families, users := map[], map[], map[];
    }

    function State(): Store
      reads this
    {
      Store(now, tokens, families, users)
    }

    /** Time passes between two commands. */
    method Pass(d: nat)
      modifies this
      ensures State() == Wait(old(State()), d)
    {
      now := now + d;
    }

    method StoreRefreshToken(jti: Id, userID: Id, tokenFamily: Id, ttl: nat)
      modifies this
      ensures State() == StoreToken(old(State()), jti, userID, tokenFamily, ttl)
    {
      SAddThenExpire(families, tokenFamily, jti, ttl, now);
      SAddThenExpire(users, userID, tokenFamily, ttl, now);
      tokens := tokens[jti := Token(userID, tokenFamily, now + ttl)];
      families := SAdd(families, tokenFamily, jti, now);
      families := Expire(families, tokenFamily, ttl, now);
      users := SAdd(users, userID, tokenFamily, now);
      users := Expire(users, userID, ttl, now);
    }

    method GetRefreshToken(jti: Id) returns (data: Option<Token>)
      ensures data == LookUp(State(), jti)
    {
      if jti in tokens && now < tokens[jti].expiry {
        return Some(tokens[jti]);
      }
      return None;
    }

    method DeleteRefreshToken(jti: Id)
      modifies this
      ensures State() == DeleteToken(old(State()), jti)
    {
      var data := GetRefreshToken(jti);
      if data.None? {
        return;
      }
      var family, user := data.value.family, data.value.user;
      tokens := tokens - {jti};
      families := RemoveMember(families, family, jti, now);
      var count := |Members(families, family, now)|;
      if count == 0 {
        families := families - {family};
        users := RemoveMember(users, user, family, now);
      }
    }

    /** DEL of one token key after the other. */
    method DeleteTokens(jtis: set<Id>)
      modifies this
      ensures tokens == old(tokens) - jtis
      ensures now == old(now) && families == old(families) && users == old(users)
    {
      var left := jtis;
      while left != {}
        invariant left <= jtis
        invariant tokens == old(tokens) - (jtis - left)
        invariant now == old(now) && families == old(families) && users == old(users)
        decreases |left|
      {
        var jti :| jti in left;
        tokens := tokens - {jti};
        left := left - {jti};
      }
    }

    method DeleteTokenFamily(family: Id, userID: Id)
      modifies this
      ensures State() == DeleteFamily(old(State()), family, userID)
    {
      var jtis := Members(families, family, now);
      if jtis != {} {
        DeleteTokens(jtis);
      }
      families := families - {family};
      if userID != "" {
        users := RemoveMember(users, userID, family, now);
      }
    }

    /** The Lua script: all families of the user, all tokens of each family. */
    method DeleteAllUserTokens(userID: Id)
      modifies this
      ensures State() == DeleteAll(old(State()), userID)
    {
      hide TokensOf;
      ghost var s := State();
      TokensOfNone(s);
      var mine := Members(users, userID, now);
      var left := mine;
      assert mine - left == {};
      while left != {}
        invariant left <= mine && now == s.now && users == s.users
        invariant tokens == s.tokens - TokensOf(s, mine - left)
        invariant families == s.families - (mine - left)
        decreases |left|
      {
        var family :| family in left;
        ghost var done := mine - left;
        TokensOfOneMore(s, done, family);
        assert Members(families, family, now) == Members(s.families, family, s.now);
        MinusTwice(s.tokens, TokensOf(s, done), Members(s.families, family, s.now));
        MinusTwice(s.families, done, {family});
        DeleteFamilyKeys(family);
        left := left - {family};
        assert mine - left == done + {family};
      }
      assert mine - left == mine;
      users := users - {userID};
    }

    /** The inner loop of the script and the DEL of the family set. */
    method DeleteFamilyKeys(family: Id)
      modifies this
      ensures tokens == old(tokens) - old(Members(families, family, now))
      ensures families == old(families) - {family}
      ensures now == old(now) && users == old(users)
    {
      var jtis := Members(families, family, now);
      DeleteTokens(jtis);
      families := families - {family};
    }
  }

  datatype TokenError = TokenInvalid | TokenExpired

  class Service {
    const sessions: RedisStorage
    const refreshTokenTTL: nat
    const accessTokenTTL: nat
    /** The tokens signed with the service's key, by identifier. */
    var issued: map<Id, Claims>
    // Bookkeeping of what was issued, for the specification only.
    ghost var home: map<Id, Id>
    ghost var owner: map<Id, Id>
    ghost var last: map<Id, Id>

    constructor (sessions: RedisStorage, refreshTokenTTL: nat, accessTokenTTL: nat)
      requires sessions.tokens == map[] && sessions.families == map[] && sessions.users == map[]
      ensures State() == Start(sessions.now, refreshTokenTTL, accessTokenTTL)
      ensures this.sessions == sessions && AuthInv(State())
    {
      this.sessions := sessions;
      this.refreshTokenTTL := refreshTokenTTL;
      this.accessTokenTTL := accessTokenTTL;
      issued := map[];
      home, owner, last := map[], map[], map[];
      new;
      StartHolds(sessions.now, refreshTokenTTL, accessTokenTTL);
    }

    ghost function State(): Auth
      reads this, sessions
    {
      Auth(Tracked(sessions.State(), refreshTokenTTL, home, owner), accessTokenTTL, issued, last)
    }

    /** A token that was not signed here is invalid; one that was is expired from its expiry claim on. */
    method ParseToken(jti: Id) returns (r: Result<Claims, TokenError>)
      ensures Parse(State(), jti) == match r case Ok(claims) => Some(claims) case Err(_) => None
      ensures r == Err(TokenInvalid) <==> jti !in issued
      ensures r == Err(TokenExpired) <==> jti in issued && sessions.now >= issued[jti].exp
    {
      if jti !in issued {
        return Err(TokenInvalid);
      }
      if sessions.now >= issued[jti].exp {
        return Err(TokenExpired);
      }
      return Ok(issued[jti]);
    }

    method GenerateAccessToken(jti: Id, userID: Id)
      modifies this
      ensures State() == SignAccess(old(State()), jti, userID)
    {
      issued := issued[jti := Claims(userID, "", ExpiryClaim(sessions.now, accessTokenTTL), Access)];
    }

    method GenerateRefreshToken(jti: Id, userID: Id, tokenFamily: Id)
      modifies this
      ensures State() == SignRefresh(old(State()), jti, userID, tokenFamily)
    {
      issued := issued[jti := Claims(userID, tokenFamily, ExpiryClaim(sessions.now, refreshTokenTTL), Refresh)];
      last := last[tokenFamily := jti];
      owner := owner[tokenFamily := userID];
    }

    /** StoreRefreshToken with the fate of the call decided by the environment. */
    method TryStore(jti: Id, userID: Id, tokenFamily: Id, o: Outcome) returns (ok: bool)
      modifies this, sessions
      ensures State() == Attempt(old(State()), CStore(jti, userID, tokenFamily), o)
      ensures ok == o.Done?
    {
      if o != FailedBefore {
        sessions.StoreRefreshToken(jti, userID, tokenFamily, refreshTokenTTL);
        home := home[jti := tokenFamily];
        owner := owner[tokenFamily := userID];
      }
      ok := o == Done;
    }

    method TryDelete(jti: Id, o: Outcome) returns (ok: bool)
      modifies sessions
      ensures State() == Attempt(old(State()), CDelete(jti), o)
      ensures ok == o.Done?
    {
      if o != FailedBefore {
        sessions.DeleteRefreshToken(jti);
      }
      ok := o == Done;
    }

    method Pass(d: nat)
      modifies sessions
      ensures State() == Pause(old(State()), d)
    {
      sessions.Pass(d);
    }

    /** Login, given the outcome of the look-up of the user and the password check. */
    method Login(credentials: Option<Id>, op: Op) returns (reply: Option<Reply>)
      requires op.OpenFamily? && (credentials.Some? ==> credentials.value == op.user)
      modifies this, sessions
      ensures credentials.None? ==> reply.None? && State() == old(State())
      ensures credentials.Some? ==> reply == Some(Step(old(State()), op).1) && State() == Step(old(State()), op).0
    {
      if credentials.None? {
        return None;
      }
      GenerateAccessToken(op.accessJti, op.user);
      GenerateRefreshToken(op.jti, op.user, op.family);
      Pass(op.storeDelay);
      var ok := TryStore(op.jti, op.user, op.family, op.stored);
      if !ok {
        return Some(ErrStorage);
      }
      return Some(Tokens(op.accessJti, op.jti));
    }

    /** Rotation with replay detection. */
    method RefreshTokens(op: Op) returns (reply: Reply)
      requires op.RefreshToken?
      modifies this, sessions
      ensures State() == Step(old(State()), op).0 && reply == Step(old(State()), op).1
    {
      var claims := ParseToken(op.jti);
      if claims.Err? {
        return ErrInvalidToken;
      }
      if claims.value.kind != Refresh {
        return ErrInvalidToken;
      }
      Pass(op.lookUpDelay);
      if op.lookUpFails {
        return ErrStorage;
      }
      var tokenData := sessions.GetRefreshToken(op.jti);
      if tokenData.None? {
        if op.revoked != FailedBefore {
          sessions.DeleteTokenFamily(claims.value.family, claims.value.user);
        }
        return ErrTokenRevoked;
      }
      Pass(op.signDelay);
      reply := Rotate(op, tokenData.value);
    }

    method Rotate(op: Op, token: Token) returns (reply: Reply)
      requires op.RefreshToken?
      modifies this, sessions
      ensures State() == RotateStep(old(State()), op, token).0 && reply == RotateStep(old(State()), op, token).1
    {
      GenerateAccessToken(op.accessJti, token.user);
      GenerateRefreshToken(op.newJti, token.user, token.family);
      Pass(op.storeDelay);
      var ok := TryStore(op.newJti, token.user, token.family, op.stored);
      if !ok {
        return ErrStorage;
      }
      Pass(op.deleteDelay);
      var _ := TryDelete(op.jti, op.deleted);
      return Tokens(op.accessJti, op.newJti);
    }

    method LogoutOne(op: Op) returns (reply: Reply)
      requires op.Logout?
      modifies sessions
      ensures State() == Step(old(State()), op).0 && reply == Step(old(State()), op).1
    {
      var claims := ParseToken(op.jti);
      if claims.Err? {
        return ErrInvalidToken;
      }
      Pass(op.deleteDelay);
      var ok := TryDelete(op.jti, op.deleted);
      return if ok then Success else ErrStorage;
    }

    method LogoutEverywhere(op: Op) returns (reply: Reply)
      requires op.LogoutAll?
      modifies sessions
      ensures State() == Step(old(State()), op).0 && reply == Step(old(State()), op).1
    {
      if op.deleted != FailedBefore {
        sessions.DeleteAllUserTokens(op.user);
      }
      return if op.deleted.Done? then Success else ErrStorage;
    }
  }
}
