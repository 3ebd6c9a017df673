/** The sets in Redis that lead from users to families to tokens hold nothing more than they need to,
    in every interleaving of requests. */
module SessionIndex {
  import opened Common
  import opened SessionStore
  import opened AuthSessions
  import opened OverlappingSessions

  /** Every member of a live family set is a stored token of the family. */
  ghost predicate TokensBehind(s: Store) {
    forall f, j :: j in Members(s.families, f, s.now) ==> j in s.tokens && s.tokens[j].family == f
  }

  /** Every member of a live user set is a family that has a set. */
  ghost predicate FamiliesBehind(s: Store) {
    forall u, f :: u != "" && f in Members(s.users, u, s.now) ==> f in s.families
  }

  /** No live set is empty. */
  ghost predicate NoneEmpty(s: Store) {
    && (forall f :: LiveKey(s.families, f, s.now) ==> s.families[f].members != {})
    && (forall u :: LiveKey(s.users, u, s.now) ==> s.users[u].members != {})
  }

  ghost predicate NoLeftOvers(s: Store) {
    TokensBehind(s) && FamiliesBehind(s) && NoneEmpty(s)
  }

  lemma TokensStayBehind(t: Tracked, c: Call)
    requires TokensKnown(t) && FamiliesKnown(t) && Allowed(t, c) && TokensBehind(t.store)
    ensures TokensBehind(Effect(t, c).store)
  {
    var s, s' := t.store, Effect(t, c).store;
    forall f, j | j in Members(s'.families, f, s'.now)
      ensures j in s'.tokens && s'.tokens[j].family == f
    {
      assert j in Members(s.families, f, s.now) || (c.CStore? && j == c.jti && f == c.family);
    }
  }

  lemma FamiliesStayBehind(t: Tracked, c: Call)
    requires TokensKnown(t) && UsersKnown(t) && Allowed(t, c) && FamiliesBehind(t.store)
    ensures FamiliesBehind(Effect(t, c).store)
  {
    var s, s' := t.store, Effect(t, c).store;
    forall u, f | u != "" && f in Members(s'.users, u, s'.now)
      ensures f in s'.families
    {
      assert f in Members(s.users, u, s.now) || (c.CStore? && u == c.user && f == c.family);
    }
  }

  lemma StayFilled(t: Tracked, c: Call)
    requires NoneEmpty(t.store)
    ensures NoneEmpty(Effect(t, c).store)
  {}

  lemma CallLeavesNothingOver(t: Tracked, c: Call)
    requires Inv(t) && Allowed(t, c) && NoLeftOvers(t.store)
    ensures NoLeftOvers(Effect(t, c).store)
  {
    hide Effect, Allowed, TokensKnown, FamiliesKnown, UsersKnown, AllIndexed, TokensBehind, FamiliesBehind, NoneEmpty;
    TokensStayBehind(t, c);
    FamiliesStayBehind(t, c);
    StayFilled(t, c);
  }

  lemma AttemptLeavesNothingOver(a: Auth, c: Call, o: Outcome)
    requires Inv(a.t) && Allowed(a.t, c) && NoLeftOvers(a.t.store)
    ensures NoLeftOvers(Attempt(a, c, o).t.store)
  {
    hide Inv, Effect, NoLeftOvers, Allowed;
    CallLeavesNothingOver(a.t, c);
  }

  lemma AdvanceLeavesNothingOver(a: Auth, th: Thread, o: Outcome, jti: Id, accessJti: Id)
    requires Inv(a.t) && ThreadOk(a, th) && ClaimsAgree(a) && NoLeftOvers(a.t.store)
    ensures NoLeftOvers(Advance(a, th, o, jti, accessJti).0.t.store)
  {
    hide Inv, NoLeftOvers, Attempt, LookUp;
    match th
    case Storing(k, user, family, _) =>
      AttemptLeavesNothingOver(a, CStore(k, user, family), o);
    case Deleting(k) => AttemptLeavesNothingOver(a, CDelete(k), o);
    case DeletingFamily(family, user) => AttemptLeavesNothingOver(a, CDeleteFamily(family, user), o);
    case DeletingAll(user) => AttemptLeavesNothingOver(a, CDeleteAll(user), o);
    case _ =>
  }

  lemma NextLeavesNothingOver(s: System, e: Event)
    requires SystemInv(s) && NoLeftOvers(s.a.t.store)
    ensures NoLeftOvers(Next(s, e).a.t.store)
  {
    hide Inv, ClaimsAgree, NoLeftOvers, Advance, ThreadOk, Separate, Effect;
    match e
    case Continue(id, o, jti, accessJti) =>
      if id in s.threads {
        AdvanceLeavesNothingOver(s.a, s.threads[id], o, jti, accessJti);
      }
    case Passes(d) => CallLeavesNothingOver(s.a.t, CWait(d));
    case _ =>
  }

  lemma {:induction false} EventsLeaveNothingOver(s: System, events: seq<Event>)
    requires SystemInv(s) && NewRun(s, events) && NoLeftOvers(s.a.t.store)
    ensures NoLeftOvers(RunEvents(s, events).a.t.store)
    decreases |events|
  {
    hide SystemInv, Next, New, NoLeftOvers;
    if events != [] {
      NextKeeps(s, events[0]);
      NextLeavesNothingOver(s, events[0]);
      EventsLeaveNothingOver(Next(s, events[0]), events[1..]);
    }
  }

  /** In every interleaving, whatever fails, the deleting calls clean the sets up: a live family set
      holds only stored tokens of the family, a live user set only families that have a set, and no
      live set is empty. */
  lemma NothingLeftOver(now: Time, ttl: nat, accessTTL: nat, events: seq<Event>)
    requires NewRun(System(Start(now, ttl, accessTTL), map[]), events)
    ensures NoLeftOvers(RunEvents(System(Start(now, ttl, accessTTL), map[]), events).a.t.store)
  {
    hide AuthInv, NewRun, RunEvents;
    StartHolds(now, ttl, accessTTL);
    EventsLeaveNothingOver(System(Start(now, ttl, accessTTL), map[]), events);
  }
}
