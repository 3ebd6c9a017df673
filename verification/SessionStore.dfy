/** Refresh tokens in Redis: three families of keys with expiry times, and what every
    storage call keeps true of them. */
module SessionStore {
  import opened Common

  datatype Token = Token(user: Id, family: Id, expiry: Time)

  /** A Redis set; a set without an expiry time lives for ever. */
  datatype KeySet = KeySet(members: set<Id>, expiry: Option<Time>)

  /** The session part of Redis. Keys past their expiry time are absent, whether or not they
      have been evicted from the maps. */
  datatype Store = Store(
    now: Time,
    tokens: map<Id, Token>,
    families: map<Id, KeySet>,
    users: map<Id, KeySet>)

  predicate LiveKey(m: map<Id, KeySet>, k: Id, now: Time) {
    k in m && (m[k].expiry.None? || now < m[k].expiry.value)
  }

  function Members(m: map<Id, KeySet>, k: Id, now: Time): set<Id> {
    if LiveKey(m, k, now) then m[k].members else {}
  }

  predicate LiveToken(s: Store, jti: Id) {
    jti in s.tokens && s.now < s.tokens[jti].expiry
  }

  // ----- What each storage call does -----

  function StoreToken(s: Store, jti: Id, user: Id, family: Id, ttl: nat): Store {
    var at := s.now + ttl;
    s.(tokens := s.tokens[jti := Token(user, family, at)],
       families := s.families[family := KeySet(Members(s.families, family, s.now) + {jti}, Some(at))],
       users := s.users[user := KeySet(Members(s.users, user, s.now) + {family}, Some(at))])
  }

  function LookUp(s: Store, jti: Id): Option<Token> {
    if LiveToken(s, jti) then Some(s.tokens[jti]) else None
  }

  /** SREM: a set that loses its last member is deleted. */
  function RemoveMember(m: map<Id, KeySet>, k: Id, x: Id, now: Time): map<Id, KeySet> {
    if !LiveKey(m, k, now) then m
    else if m[k].members - {x} == {} then m - {k}
    else m[k := m[k].(members := m[k].members - {x})]
  }

  function DeleteToken(s: Store, jti: Id): Store {
    if !LiveToken(s, jti) then s
    else
      var t := s.tokens[jti];
      var emptied := Members(s.families, t.family, s.now) - {jti} == {};
      s.(tokens := s.tokens - {jti},
         families := if emptied then s.families - {t.family} else RemoveMember(s.families, t.family, jti, s.now),
         users := if emptied then RemoveMember(s.users, t.user, t.family, s.now) else s.users)
  }

  function DeleteFamily(s: Store, family: Id, user: Id): Store {
    s.(tokens := s.tokens - Members(s.families, family, s.now),
       families := s.families - {family},
       users := if user == "" then s.users else RemoveMember(s.users, user, family, s.now))
  }

  /** The tokens in the sets of the given families. */
  function TokensOf(s: Store, families: set<Id>): set<Id> {
    set f, j | f in families && j in Members(s.families, f, s.now) :: j
  }

  function DeleteAll(s: Store, user: Id): Store {
    var families := Members(s.users, user, s.now);
    s.(tokens := s.tokens - TokensOf(s, families), families := s.families - families, users := s.users - {user})
  }

  function Wait(s: Store, d: nat): Store { s.(now := s.now + d) }

  // ----- The index invariant -----

  /** The store together with the lifetime the service gives refresh tokens and with what was
      issued so far: the family of every token identifier and the user of every family. */
  datatype Tracked = Tracked(store: Store, ttl: nat, home: map<Id, Id>, owner: map<Id, Id>)

  /** A live token is a member of its live family set, the family is a member of its user's
      live set, and no index expires before what it points to. */
  ghost predicate Indexed(s: Store, jti: Id)
    requires jti in s.tokens
  {
    var t := s.tokens[jti];
    && jti in Members(s.families, t.family, s.now)
    && t.family in Members(s.users, t.user, s.now)
    && s.families[t.family].expiry.Some? && s.users[t.user].expiry.Some?
    && t.expiry <= s.families[t.family].expiry.value <= s.users[t.user].expiry.value
  }

  ghost predicate TokensKnown(t: Tracked) {
    forall jti :: jti in t.store.tokens ==>
      var tok := t.store.tokens[jti];
      && jti in t.home && t.home[jti] == tok.family
      && tok.family in t.owner && t.owner[tok.family] == tok.user
      && tok.expiry <= t.store.now + t.ttl
  }

  ghost predicate FamiliesKnown(t: Tracked) {
    forall f :: f in t.store.families ==>
      && f in t.owner
      && t.store.families[f].expiry.Some? && t.store.families[f].expiry.value <= t.store.now + t.ttl
      && forall j :: j in t.store.families[f].members ==> j in t.home && t.home[j] == f
  }

  ghost predicate UsersKnown(t: Tracked) {
    forall u :: u in t.store.users ==>
      && t.store.users[u].expiry.Some? && t.store.users[u].expiry.value <= t.store.now + t.ttl
      && forall f :: f in t.store.users[u].members ==> f in t.owner && t.owner[f] == u
  }

  ghost predicate AllIndexed(s: Store) {
    forall jti :: jti in s.tokens && LiveToken(s, jti) ==> Indexed(s, jti)
  }

  ghost predicate Inv(t: Tracked) {
    TokensKnown(t) && FamiliesKnown(t) && UsersKnown(t) && AllIndexed(t.store)
  }

  // ----- Storage calls -----

  datatype Call =
    | CStore(jti: Id, user: Id, family: Id)
    | CDelete(jti: Id)
    | CDeleteFamily(family: Id, user: Id)
    | CDeleteAll(user: Id)
    | CWait(d: nat)

  /** The identifier of a stored token is new, and a family comes with the user it was opened for.
      All calls of the services are so, also of requests that overlap (OverlappingSessions). */
  ghost predicate Allowed(t: Tracked, c: Call) {
    match c
    case CStore(jti, user, family) => jti !in t.home && (family in t.owner ==> t.owner[family] == user)
    case CDeleteFamily(family, user) => family in t.owner && t.owner[family] == user
    case _ => true
  }

  ghost function Effect(t: Tracked, c: Call): Tracked {
    match c
    case CStore(jti, user, family) =>
      Tracked(StoreToken(t.store, jti, user, family, t.ttl), t.ttl, t.home[jti := family], t.owner[family := user])
    case CDelete(jti) => t.(store := DeleteToken(t.store, jti))
    case CDeleteFamily(family, user) => t.(store := DeleteFamily(t.store, family, user))
    case CDeleteAll(user) => t.(store := DeleteAll(t.store, user))
    case CWait(d) => t.(store := Wait(t.store, d))
  }

  ghost function Empty(now: Time, ttl: nat): Tracked {
    Tracked(Store(now, map[], map[], map[]), ttl, map[], map[])
  }

  // ----- Every call keeps the parts of the invariant -----

  lemma TokensStayKnown(t: Tracked, c: Call)
    requires TokensKnown(t) && Allowed(t, c)
    ensures TokensKnown(Effect(t, c))
  {
    if c.CStore? {}
  }

  lemma FamiliesStayKnown(t: Tracked, c: Call)
    requires FamiliesKnown(t) && TokensKnown(t) && Allowed(t, c)
    ensures FamiliesKnown(Effect(t, c))
  {
    match c
    case CStore(jti, user, family) =>
    case CDelete(jti) =>
    case _ =>
  }

  lemma UsersStayKnown(t: Tracked, c: Call)
    requires UsersKnown(t) && Allowed(t, c)
    ensures UsersKnown(Effect(t, c))
  {
    match c
    case CStore(jti, user, family) =>
    case CDelete(jti) =>
      if jti in t.store.tokens {
        RemovalKeepsUsersKnown(t, t.store.tokens[jti].user, t.store.tokens[jti].family);
      }
    case CDeleteFamily(family, user) => RemovalKeepsUsersKnown(t, user, family);
    case _ =>
  }

  lemma RemovalKeepsUsersKnown(t: Tracked, u: Id, f: Id)
    requires UsersKnown(t)
    ensures UsersKnown(t.(store := t.store.(users := RemoveMember(t.store.users, u, f, t.store.now))))
  {}

  ghost predicate Bounded(s: Store, ttl: nat) {
    && (forall j :: j in s.tokens ==> s.tokens[j].expiry <= s.now + ttl)
    && (forall f :: f in s.families && s.families[f].expiry.Some? ==> s.families[f].expiry.value <= s.now + ttl)
    && (forall u :: u in s.users && s.users[u].expiry.Some? ==> s.users[u].expiry.value <= s.now + ttl)
  }

  lemma KnownIsBounded(t: Tracked)
    requires TokensKnown(t) && FamiliesKnown(t) && UsersKnown(t)
    ensures Bounded(t.store, t.ttl)
  {}

  lemma OwnerIsUser(t: Tracked, user: Id, family: Id)
    requires TokensKnown(t)
    requires family in t.owner ==> t.owner[family] == user
    ensures forall j :: j in t.store.tokens && t.store.tokens[j].family == family ==> t.store.tokens[j].user == user
  {}

  lemma StoreKeepsIndex(s: Store, jti: Id, user: Id, family: Id, ttl: nat)
    requires AllIndexed(s) && Bounded(s, ttl)
    requires forall j :: j in s.tokens && s.tokens[j].family == family ==> s.tokens[j].user == user
    ensures AllIndexed(StoreToken(s, jti, user, family, ttl))
  {
    var s' := StoreToken(s, jti, user, family, ttl);
    forall j | j in s'.tokens && LiveToken(s', j)
      ensures Indexed(s', j)
    {
      if j != jti {
        assert Indexed(s, j);
        assert s.tokens[j].family == family ==> s.tokens[j].user == user;
      }
    }
  }

  lemma DeleteTokenKeepsIndex(s: Store, jti: Id)
    requires AllIndexed(s)
    ensures AllIndexed(DeleteToken(s, jti))
  {
    if LiveToken(s, jti) {
      var s' := DeleteToken(s, jti);
      forall j | j in s'.tokens && LiveToken(s', j)
        ensures Indexed(s', j)
      {
        assert Indexed(s, j) && Indexed(s, jti);
      }
    }
  }

  lemma DeleteFamilyKeepsIndex(s: Store, family: Id, user: Id)
    requires AllIndexed(s)
    ensures AllIndexed(DeleteFamily(s, family, user))
  {
    var s' := DeleteFamily(s, family, user);
    forall j | j in s'.tokens && LiveToken(s', j)
      ensures Indexed(s', j)
    {
      assert Indexed(s, j);
    }
  }

  lemma DeleteAllKeepsIndex(t: Tracked, user: Id)
    requires Inv(t)
    ensures AllIndexed(DeleteAll(t.store, user))
  {
    var s := t.store;
    var s' := DeleteAll(s, user);
    forall j | j in s'.tokens && LiveToken(s', j)
      ensures Indexed(s', j)
    {
      assert Indexed(s, j);
      DeleteAllSpares(t, user, j);
    }
  }

  /** A token that survives DeleteAll belongs to another user, in a family of that user. */
  lemma DeleteAllSpares(t: Tracked, user: Id, j: Id)
    requires TokensKnown(t) && UsersKnown(t)
    requires j in t.store.tokens && Indexed(t.store, j) && j in DeleteAll(t.store, user).tokens
    ensures t.store.tokens[j].user != user
    ensures t.store.tokens[j].family !in Members(t.store.users, user, t.store.now)
  {}

  lemma WaitKeepsIndex(s: Store, d: nat)
    requires AllIndexed(s)
    ensures AllIndexed(Wait(s, d))
  {}

  /** Opening a family adds its user to what is known. */
  lemma OpeningKeeps(t: Tracked, family: Id, user: Id)
    requires Inv(t)
    requires family in t.owner ==> t.owner[family] == user
    ensures Inv(t.(owner := t.owner[family := user]))
  {
    hide Indexed;
    var t' := t.(owner := t.owner[family := user]);
    assert t'.store == t.store && t'.home == t.home;
    assert forall f :: f in t.owner ==> f in t'.owner && t'.owner[f] == t.owner[f];
    assert TokensKnown(t') by { hide FamiliesKnown, UsersKnown, AllIndexed; }
    assert FamiliesKnown(t') by { hide TokensKnown, UsersKnown, AllIndexed; }
    assert UsersKnown(t') by { hide TokensKnown, FamiliesKnown, AllIndexed; }
  }

  /** Every call that is allowed keeps the index invariant. */
  lemma CallKeeps(t: Tracked, c: Call)
    requires Inv(t) && Allowed(t, c)
    ensures Inv(Effect(t, c))
  {
    hide TokensKnown, FamiliesKnown, UsersKnown, AllIndexed, StoreToken, DeleteToken, DeleteFamily, DeleteAll;
    TokensStayKnown(t, c);
    FamiliesStayKnown(t, c);
    UsersStayKnown(t, c);
    match c
    case CStore(jti, user, family) =>
      KnownIsBounded(t);
      OwnerIsUser(t, user, family);
      StoreKeepsIndex(t.store, jti, user, family, t.ttl);
    case CDelete(jti) => DeleteTokenKeepsIndex(t.store, jti);
    case CDeleteFamily(family, user) => DeleteFamilyKeepsIndex(t.store, family, user);
    case CDeleteAll(user) => DeleteAllKeepsIndex(t, user);
    case CWait(d) => WaitKeepsIndex(t.store, d);
  }

  // ----- What the deleting calls achieve -----

  /** Logging a user out everywhere leaves no live token of that user, and every live token
      of any other user as it was. */
  lemma DeleteAllCompleteAndLocal(t: Tracked, user: Id)
    requires Inv(t)
    ensures forall j :: LiveToken(DeleteAll(t.store, user), j) <==>
              LiveToken(t.store, j) && t.store.tokens[j].user != user
    ensures forall j :: LiveToken(DeleteAll(t.store, user), j) ==>
              DeleteAll(t.store, user).tokens[j] == t.store.tokens[j]
  {}

  /** Deleting a family leaves no live token of the family, and every other live token as it was. */
  lemma DeleteFamilyCompleteAndLocal(t: Tracked, family: Id, user: Id)
    requires Inv(t)
    ensures forall j :: LiveToken(DeleteFamily(t.store, family, user), j) <==>
              LiveToken(t.store, j) && t.store.tokens[j].family != family
    ensures forall j :: LiveToken(DeleteFamily(t.store, family, user), j) ==>
              DeleteFamily(t.store, family, user).tokens[j] == t.store.tokens[j]
  {}
}
