/** Requests that overlap: each is a thread that takes one step at a time, and between its steps any
    other request may take its own. Nothing but the newness of identifiers is assumed. */
module OverlappingSessions {
  import opened Common
  import opened SessionStore
  import opened AuthSessions

  /** Where a request stands, with what it knows by then. */
  datatype Thread =
    /** A refresh token has been parsed and is about to be looked up. */
    | LookingUp(jti: Id)
    /** The look-up found this token; the new ones are about to be signed. */
    | Issuing(presented: Id, token: Token)
    /** A signed token is about to be stored; `replaced` is the one rotated away. */
    | Storing(jti: Id, user: Id, family: Id, replaced: Option<Id>)
    | Deleting(jti: Id)
    | DeletingFamily(family: Id, user: Id)
    | DeletingAll(user: Id)

  datatype System = System(a: Auth, threads: map<nat, Thread>)

  datatype Event =
    /** Login and Register from the point where the user is known. */
    | BeginLogin(id: nat, user: Id, family: Id, jti: Id, accessJti: Id)
    | BeginRefresh(id: nat, jti: Id)
    | BeginLogout(id: nat, jti: Id)
    | BeginLogoutAll(id: nat, user: Id)
    /** The next step of a request; the identifiers are those it draws, if it draws any. */
    | Continue(id: nat, o: Outcome, jti: Id, accessJti: Id)
    | Passes(d: nat)

  /** Requests and identifiers drawn are new. */
  ghost predicate New(s: System, e: Event) {
    match e
    case BeginLogin(id, _, family, jti, accessJti) =>
      id !in s.threads && family !in s.a.t.owner && NewTokens(s.a, jti, accessJti)
    case BeginRefresh(id, _) => id !in s.threads
    case BeginLogout(id, _) => id !in s.threads
    case BeginLogoutAll(id, _) => id !in s.threads
    case Continue(id, _, jti, accessJti) =>
      id in s.threads && (s.threads[id].Issuing? ==> NewTokens(s.a, jti, accessJti))
    case Passes(_) => true
  }

  ghost predicate NewTokens(a: Auth, jti: Id, accessJti: Id) {
    jti !in a.issued && accessJti !in a.issued && jti != accessJti
  }

  ghost function Sign(a: Auth, accessJti: Id, jti: Id, user: Id, family: Id): Auth {
    SignRefresh(SignAccess(a, accessJti, user), jti, user, family)
  }

  /** One step of a thread: the new state, and what is left of the thread. */
  ghost function Advance(a: Auth, th: Thread, o: Outcome, jti: Id, accessJti: Id): (Auth, Option<Thread>) {
    match th
    case LookingUp(k) =>
      if !o.Done? || k !in a.issued then (a, None)
      else (a, match LookUp(a.t.store, k)
               case None => Some(DeletingFamily(a.issued[k].family, a.issued[k].user))
               case Some(token) => Some(Issuing(k, token)))
    case Issuing(presented, token) =>
      (Sign(a, accessJti, jti, token.user, token.family), Some(Storing(jti, token.user, token.family, Some(presented))))
    case Storing(k, user, family, replaced) =>
      (Attempt(a, CStore(k, user, family), o),
       if o.Done? && replaced.Some? then Some(Deleting(replaced.value)) else None)
    case Deleting(k) => (Attempt(a, CDelete(k), o), None)
    case DeletingFamily(family, user) => (Attempt(a, CDeleteFamily(family, user), o), None)
    case DeletingAll(user) => (Attempt(a, CDeleteAll(user), o), None)
  }

  ghost function Next(s: System, e: Event): System {
    match e
    case BeginLogin(id, user, family, jti, accessJti) =>
      System(Sign(s.a, accessJti, jti, user, family), s.threads[id := Storing(jti, user, family, None)])
    case BeginRefresh(id, jti) =>
      if Parse(s.a, jti).Some? && Parse(s.a, jti).value.kind == Refresh
      then s.(threads := s.threads[id := LookingUp(jti)])
      else s
    case BeginLogout(id, jti) =>
      if Parse(s.a, jti).Some? then s.(threads := s.threads[id := Deleting(jti)]) else s
    case BeginLogoutAll(id, user) => s.(threads := s.threads[id := DeletingAll(user)])
    case Continue(id, o, jti, accessJti) =>
      if id !in s.threads then s
      else
        var (b, left) := Advance(s.a, s.threads[id], o, jti, accessJti);
        System(b, if left.Some? then s.threads[id := left.value] else s.threads - {id})
    case Passes(d) => s.(a := Pause(s.a, d))
  }

  ghost predicate NewRun(s: System, events: seq<Event>)
    decreases |events|
  {
    events == [] || (New(s, events[0]) && NewRun(Next(s, events[0]), events[1..]))
  }

  ghost function RunEvents(s: System, events: seq<Event>): System
    decreases |events|
  {
    if events == [] then s else RunEvents(Next(s, events[0]), events[1..])
  }

  // ----- Invariant -----

  /** What a request knows stays true while it waits. */
  ghost predicate ThreadOk(a: Auth, th: Thread) {
    match th
    case LookingUp(jti) => jti in a.issued && a.issued[jti].kind == Refresh
    case Issuing(_, token) => token.family in a.t.owner && a.t.owner[token.family] == token.user
    case Storing(jti, user, family, _) =>
      && jti in a.issued && jti !in a.t.home
      && a.issued[jti].kind == Refresh && a.issued[jti].user == user && a.issued[jti].family == family
      && a.issued[jti].exp <= a.t.store.now + a.t.ttl
    case DeletingFamily(family, user) => family in a.t.owner && a.t.owner[family] == user
    case _ => true
  }

  ghost predicate Separate(threads: map<nat, Thread>) {
    forall i, j :: i in threads && j in threads && i != j && threads[i].Storing? && threads[j].Storing? ==>
      threads[i].jti != threads[j].jti
  }

  ghost predicate ThreadsOk(a: Auth, threads: map<nat, Thread>) {
    forall i :: i in threads ==> ThreadOk(a, threads[i])
  }

  ghost predicate SystemInv(s: System) {
    AuthInv(s.a) && ThreadsOk(s.a, s.threads) && Separate(s.threads)
  }

  /** From a to b only the token `stored` got a home; what was issued and owned stays so. */
  ghost predicate Extends(a: Auth, b: Auth, stored: Option<Id>) {
    && b.t.store.now >= a.t.store.now && b.t.ttl == a.t.ttl
    && (forall j :: j in a.issued ==> j in b.issued && b.issued[j] == a.issued[j])
    && (forall f :: f in a.t.owner ==> f in b.t.owner && b.t.owner[f] == a.t.owner[f])
    && (forall j :: j in b.t.home ==> j in a.t.home || Some(j) == stored)
  }

  lemma OthersStayOk(a: Auth, b: Auth, stored: Option<Id>, threads: map<nat, Thread>)
    requires ThreadsOk(a, threads) && Extends(a, b, stored)
    requires forall i :: i in threads && threads[i].Storing? ==> Some(threads[i].jti) != stored
    ensures ThreadsOk(b, threads)
  {}

  /** Signing with new identifiers. */
  lemma SignKeeps(a: Auth, accessJti: Id, jti: Id, user: Id, family: Id)
    requires AuthInv(a) && NewTokens(a, jti, accessJti)
    requires family in a.t.owner ==> a.t.owner[family] == user
    ensures var b := Sign(a, accessJti, jti, user, family);
            AuthInv(b) && Extends(a, b, None) && ThreadOk(b, Storing(jti, user, family, None))
  {
    hide AuthInv;
    SignAccessKeeps(a, accessJti, user);
    SignRefreshKeeps(SignAccess(a, accessJti, user), jti, user, family);
    HomeIsIssued(a, jti);
  }

  lemma StoreExtends(a: Auth, jti: Id, user: Id, family: Id, o: Outcome)
    requires AuthInv(a) && ThreadOk(a, Storing(jti, user, family, None))
    ensures var b := Attempt(a, CStore(jti, user, family), o);
            AuthInv(b) && Extends(a, b, Some(jti))
  {
    hide AuthInv, ClaimsAgree, Inv;
    OwnerOfClaims(a, jti);
    StoreSignedKeeps(a, jti, user, family, o);
  }

  lemma DeleteExtends(a: Auth, c: Call, o: Outcome)
    requires AuthInv(a) && !c.CStore? && !c.CWait? && Allowed(a.t, c)
    ensures AuthInv(Attempt(a, c, o)) && Extends(a, Attempt(a, c, o), None)
  {
    hide AuthInv;
    AttemptKeeps(a, c, o);
  }

  /** One step of a thread keeps the invariant of the data, touches nobody else's knowledge, and
      leaves the thread knowing only true things. */
  lemma AdvanceKeeps(a: Auth, th: Thread, o: Outcome, jti: Id, accessJti: Id)
    requires AuthInv(a) && ThreadOk(a, th)
    requires th.Issuing? ==> NewTokens(a, jti, accessJti)
    ensures var (b, left) := Advance(a, th, o, jti, accessJti);
            && AuthInv(b) && Extends(a, b, if th.Storing? then Some(th.jti) else None)
            && (left.Some? ==> ThreadOk(b, left.value))
            && (left.Some? && left.value.Storing? ==> left.value.jti !in a.issued)
  {
    hide AuthInv, Attempt, Sign;
    match th
    case LookingUp(k) =>
      if LiveToken(a.t.store, k) {
        LiveIsIssued(a, k);
      } else {
        OwnerOfClaims(a, k);
      }
    case Issuing(_, token) => SignKeeps(a, accessJti, jti, token.user, token.family);
    case Storing(k, user, family, _) => StoreExtends(a, k, user, family, o);
    case Deleting(k) => DeleteExtends(a, CDelete(k), o);
    case DeletingFamily(family, user) => DeleteExtends(a, CDeleteFamily(family, user), o);
    case DeletingAll(user) => DeleteExtends(a, CDeleteAll(user), o);
  }

  lemma ContinueKeeps(s: System, e: Event)
    requires SystemInv(s) && New(s, e) && e.Continue?
    ensures SystemInv(Next(s, e))
  {
    hide AuthInv, Advance, Extends;
    var th := s.threads[e.id];
    var (b, left) := Advance(s.a, th, e.o, e.jti, e.accessJti);
    var others := s.threads - {e.id};
    AdvanceKeeps(s.a, th, e.o, e.jti, e.accessJti);
    OthersStayOk(s.a, b, if th.Storing? then Some(th.jti) else None, others);
    assert Next(s, e).threads == if left.Some? then others[e.id := left.value] else others;
  }

  lemma BeginKeeps(s: System, e: Event)
    requires SystemInv(s) && New(s, e) && !e.Continue? && !e.Passes?
    ensures SystemInv(Next(s, e))
  {
    hide AuthInv, Sign, Extends;
    match e
    case BeginLogin(id, user, family, jti, accessJti) =>
      SignKeeps(s.a, accessJti, jti, user, family);
      OthersStayOk(s.a, Sign(s.a, accessJti, jti, user, family), None, s.threads);
    case _ =>
  }

  lemma NextKeeps(s: System, e: Event)
    requires SystemInv(s) && New(s, e)
    ensures SystemInv(Next(s, e))
  {
    hide AuthInv;
    match e
    case Continue(_, _, _, _) => ContinueKeeps(s, e);
    case Passes(d) =>
      PauseKeeps(s.a, d);
      OthersStayOk(s.a, Pause(s.a, d), None, s.threads);
    case _ => BeginKeeps(s, e);
  }

  lemma {:induction false} EventsKeep(s: System, events: seq<Event>)
    requires SystemInv(s) && NewRun(s, events)
    ensures SystemInv(RunEvents(s, events))
    decreases |events|
  {
    hide SystemInv, Next, New;
    if events != [] {
      NextKeeps(s, events[0]);
      EventsKeep(Next(s, events[0]), events[1..]);
    }
  }

  /** Index invariant: in every interleaving of the storage calls that overlapping Login, Register,
      RefreshToken, Logout and LogoutAll requests make, with every call failing or not and the clock
      advancing at will, each live token is in its live family set and its family in its one user's
      live set, with no index expiring before what it points to. */
  lemma InterleavedIndex(now: Time, ttl: nat, accessTTL: nat, events: seq<Event>)
    requires NewRun(System(Start(now, ttl, accessTTL), map[]), events)
    ensures var t := RunEvents(System(Start(now, ttl, accessTTL), map[]), events).a.t;
            Inv(t) && forall j :: LiveToken(t.store, j) ==> Indexed(t.store, j) && OneOwner(t, j)
  {
    hide NewRun, RunEvents, Inv, AuthInv, Indexed;
    var s := System(Start(now, ttl, accessTTL), map[]);
    StartHolds(now, ttl, accessTTL);
    EventsKeep(s, events);
    var a := RunEvents(s, events).a;
    IndexOfInv(a);
  }

  /** No user set but that of the token's user names its family. */
  ghost predicate OneOwner(t: Tracked, j: Id)
    requires j in t.store.tokens
  {
    forall u :: t.store.tokens[j].family in Members(t.store.users, u, t.store.now) ==> u == t.store.tokens[j].user
  }

  lemma IndexOfInv(a: Auth)
    requires AuthInv(a)
    ensures Inv(a.t)
    ensures forall j :: LiveToken(a.t.store, j) ==> Indexed(a.t.store, j) && OneOwner(a.t, j)
  {
    hide ClaimsAgree, FamiliesKnown;
  }
}
