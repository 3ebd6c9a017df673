/** Revocation of a family while other requests are under way. */
module OverlappingRevocation {
  import opened Common
  import opened SessionStore
  import opened AuthSessions
  import opened SessionTheorems
  import opened OverlappingSessions

  /** The request has yet to store a token into the family. */
  predicate WillStore(th: Thread, family: Id) {
    (th.Issuing? && th.token.family == family) || (th.Storing? && th.family == family)
  }

  /** No waiting request will store a token into the family. */
  ghost predicate Quiet(s: System, family: Id) {
    forall id :: id in s.threads ==> !WillStore(s.threads[id], family)
  }

  lemma AdvanceStaysDead(a: Auth, th: Thread, o: Outcome, jti: Id, accessJti: Id, family: Id)
    requires AuthInv(a) && FamilyDead(a, family) && !WillStore(th, family)
    ensures var (b, left) := Advance(a, th, o, jti, accessJti);
            FamilyDead(b, family) && (left.Some? ==> !WillStore(left.value, family))
  {
    hide AuthInv, StoreToken, DeleteToken, DeleteFamily, DeleteAll;
    var (b, left) := Advance(a, th, o, jti, accessJti);
    forall j | LiveToken(b.t.store, j)
      ensures b.t.store.tokens[j].family != family
    {
      match th
      case Storing(k, user, f, _) => StoreAdds(a, k, user, f, o, j);
      case Deleting(k) => AttemptDeletes(a, CDelete(k), o, j);
      case DeletingFamily(f, user) => AttemptDeletes(a, CDeleteFamily(f, user), o, j);
      case DeletingAll(user) => AttemptDeletes(a, CDeleteAll(user), o, j);
      case _ =>
    }
  }

  lemma StoreAdds(a: Auth, k: Id, user: Id, family: Id, o: Outcome, j: Id)
    requires LiveToken(Attempt(a, CStore(k, user, family), o).t.store, j)
    ensures var s := Attempt(a, CStore(k, user, family), o).t.store;
            (j == k && s.tokens[j].family == family) || (LiveToken(a.t.store, j) && s.tokens[j] == a.t.store.tokens[j])
  {}

  lemma NextStaysDead(s: System, e: Event, family: Id)
    requires SystemInv(s) && New(s, e) && family in s.a.t.owner
    requires FamilyDead(s.a, family) && Quiet(s, family)
    ensures FamilyDead(Next(s, e).a, family) && Quiet(Next(s, e), family) && family in Next(s, e).a.t.owner
  {
    hide AuthInv, Advance;
    match e
    case Continue(id, o, jti, accessJti) =>
      AdvanceStaysDead(s.a, s.threads[id], o, jti, accessJti, family);
      AdvanceKeeps(s.a, s.threads[id], o, jti, accessJti);
    case Passes(d) => PauseFacts(s.a, d);
    case _ =>
  }

  lemma {:induction false} EventsStayDead(s: System, events: seq<Event>, family: Id)
    requires SystemInv(s) && NewRun(s, events) && family in s.a.t.owner
    requires FamilyDead(s.a, family) && Quiet(s, family)
    ensures FamilyDead(RunEvents(s, events).a, family)
    decreases |events|
  {
    hide SystemInv, Next, New, FamilyDead, Quiet;
    if events != [] {
      NextKeeps(s, events[0]);
      NextStaysDead(s, events[0], family);
      EventsStayDead(Next(s, events[0]), events[1..], family);
    }
  }

  // ----- Why nobody may be waiting -----

  lemma StoredIsLive(a: Auth, k: Id, user: Id, family: Id)
    requires a.t.ttl > 0
    ensures !FamilyDead(Attempt(a, CStore(k, user, family), Done), family)
  {
    assert LiveToken(Attempt(a, CStore(k, user, family), Done).t.store, k);
  }

  /** A waiting request that will store into the family can do so next. */
  lemma WaitingRevives(s: System, id: nat, family: Id, jti: Id, accessJti: Id)
    requires SystemInv(s) && s.a.t.ttl > 0
    requires id in s.threads && WillStore(s.threads[id], family) && NewTokens(s.a, jti, accessJti)
    ensures exists events :: NewRun(s, events) && !FamilyDead(RunEvents(s, events).a, family)
  {
    hide SystemInv, FamilyDead, Attempt, Sign;
    var e := Continue(id, Done, jti, accessJti);
    var t := Next(s, e);
    assert New(s, e);
    if s.threads[id].Storing? {
      StoredIsLive(s.a, s.threads[id].jti, s.threads[id].user, family);
      OneEvent(s, e);
    } else {
      var token := s.threads[id].token;
      assert t.threads[id] == Storing(jti, token.user, family, Some(s.threads[id].presented));
      SignTtl(s.a, accessJti, jti, token.user, family);
      StoredIsLive(t.a, jti, token.user, family);
      TwoEvents(s, e, e);
    }
  }

  lemma SignTtl(a: Auth, accessJti: Id, jti: Id, user: Id, family: Id)
    ensures Sign(a, accessJti, jti, user, family).t.ttl == a.t.ttl
  {}

  lemma NothingHappens(s: System, none: seq<Event>)
    requires none == []
    ensures NewRun(s, none) && RunEvents(s, none) == s
  {}

  lemma OneEvent(s: System, e: Event)
    ensures RunEvents(s, [e]) == Next(s, e) && (NewRun(s, [e]) <==> New(s, e))
  {
    hide Next, New;
    assert [e][1..] == [];
  }

  lemma TwoEvents(s: System, e: Event, f: Event)
    ensures RunEvents(s, [e, f]) == Next(Next(s, e), f)
    ensures NewRun(s, [e, f]) <==> New(s, e) && New(Next(s, e), f)
  {
    hide Next, New;
    OneEvent(Next(s, e), f);
    assert [e, f][1..] == [f];
  }

  lemma {:induction false} LongerThanAll(ids: set<Id>) returns (n: nat)
    ensures forall x :: x in ids ==> |x| < n
    decreases |ids|
  {
    if ids == {} {
      n := 0;
    } else {
      var x :| x in ids;
      n := LongerThanAll(ids - {x});
      n := if n <= |x| then |x| + 1 else n;
    }
  }

  /** Revocation under overlap, exactly: a family stays without a live token in every continuation,
      whatever requests follow and however they interleave, if and only if it has none now and no
      waiting request will store one. */
  lemma DeadForEver(s: System, family: Id)
    requires SystemInv(s) && family in s.a.t.owner && s.a.t.ttl > 0
    ensures (forall events :: NewRun(s, events) ==> FamilyDead(RunEvents(s, events).a, family)) <==>
            FamilyDead(s.a, family) && Quiet(s, family)
  {
    hide SystemInv, FamilyDead, NewRun, RunEvents;
    if FamilyDead(s.a, family) && Quiet(s, family) {
      forall events | NewRun(s, events)
        ensures FamilyDead(RunEvents(s, events).a, family)
      {
        EventsStayDead(s, events, family);
      }
    } else if !Quiet(s, family) {
      var id :| id in s.threads && WillStore(s.threads[id], family);
      var n := LongerThanAll(s.a.issued.Keys);
      var jti, accessJti: Id := seq(n, _ => 'x'), seq(n + 1, _ => 'x');
      WaitingRevives(s, id, family, jti, accessJti);
    } else {
      NothingHappens(s, []);
    }
  }

  /** The family deletion of a replay leaves no live token, also between the steps of other requests. */
  lemma RevocationUnderOverlap(s: System, e: Event)
    requires SystemInv(s) && New(s, e) && e.Continue? && e.o.Done? && s.threads[e.id].DeletingFamily?
    ensures FamilyDead(Next(s, e).a, s.threads[e.id].family)
  {
    var th := s.threads[e.id];
    InvOfAuth(s.a);
    hide AuthInv, Inv, DeleteFamily;
    DeleteFamilyCompleteAndLocal(s.a.t, th.family, th.user);
  }

  // ----- A revoked family that comes back -----

  /** Two refreshes with the same token overlap. The first gets as far as the look-up; the second
      runs to its end and rotates the token away; a third with the token is a replay and deletes the
      family; then the first goes on. No call fails. */
  const REVIVING: seq<Event> := [
    BeginLogin(0, "user", "family", "refresh", "access"), Continue(0, Done, "", ""),
    BeginRefresh(1, "refresh"), Continue(1, Done, "", ""),
    BeginRefresh(2, "refresh"), Continue(2, Done, "", ""),
    Continue(2, Done, "refresh2", "access2"), Continue(2, Done, "", ""), Continue(2, Done, "", ""),
    BeginRefresh(3, "refresh"), Continue(3, Done, "", ""), Continue(3, Done, "", ""),
    Continue(1, Done, "refresh3", "access3"), Continue(1, Done, "", "")]

  ghost const EMPTY: System := System(Start(0, WEEK, QUARTER), map[])
  const FIRST: Token := Token("user", "family", WEEK)

  /** After the first n events. */
  ghost function After(n: nat): System
    requires n <= |REVIVING|
  {
    if n == 0 then EMPTY else Next(After(n - 1), REVIVING[n - 1])
  }

  lemma AfterStep(n: nat)
    requires n < |REVIVING|
    ensures After(n + 1) == Next(After(n), REVIVING[n])
  {}

  /** What the run is about: the time, the tokens signed and stored, and the waiting requests. */
  ghost predicate Looks(s: System, signed: set<Id>, stored: set<Id>, threads: map<nat, Thread>) {
    && s.a.t.store.now == 0 && s.a.t.ttl == WEEK && s.a.issued.Keys == signed && s.threads == threads
    && "refresh" in signed && s.a.issued["refresh"] == Claims("user", "family", WEEK, Refresh)
    && s.a.t.store.tokens.Keys == stored
    && (forall j :: j in stored ==> s.a.t.store.tokens[j] == FIRST)
  }

  lemma LoginLooks()
    ensures New(EMPTY, REVIVING[0]) && New(After(1), REVIVING[1])
    ensures Looks(After(2), {"access", "refresh"}, {"refresh"}, map[])
  {
    hide After, Looks;
    AfterNothing();
    AfterStep(0);
    AfterStep(1);
    SignedLogin();
    StoredLogin(After(1));
  }

  lemma SignedLogin()
    ensures var s := Next(EMPTY, REVIVING[0]);
            && New(EMPTY, REVIVING[0])
            && Looks(s, {"access", "refresh"}, {}, map[0 := Storing("refresh", "user", "family", None)])
  {}

  lemma StoredLogin(s: System)
    requires Looks(s, {"access", "refresh"}, {}, map[0 := Storing("refresh", "user", "family", None)])
    ensures New(s, REVIVING[1]) && Looks(Next(s, REVIVING[1]), {"access", "refresh"}, {"refresh"}, map[])
  {}

  // What the steps of a refresh with the token do to it.

  lemma LooksUp(s: System, id: nat, signed: set<Id>, stored: set<Id>, threads: map<nat, Thread>)
    requires Looks(s, signed, stored, threads) && id !in threads
    ensures var e := BeginRefresh(id, "refresh");
            var t := Next(s, e);
            var f := Continue(id, Done, "", "");
            var then_ := if "refresh" in stored then Issuing("refresh", FIRST) else DeletingFamily("family", "user");
            New(s, e) && New(t, f) && Looks(Next(t, f), signed, stored, threads[id := then_])
  {}

  lemma Signs(s: System, id: nat, jti: Id, accessJti: Id, signed: set<Id>, stored: set<Id>, threads: map<nat, Thread>)
    requires Looks(s, signed, stored, threads) && id in threads && threads[id] == Issuing("refresh", FIRST)
    requires jti !in signed && accessJti !in signed && jti != accessJti
    ensures var e := Continue(id, Done, jti, accessJti);
            New(s, e) && Looks(Next(s, e), signed + {jti, accessJti}, stored,
                               threads[id := Storing(jti, "user", "family", Some("refresh"))])
  {}

  lemma Stores(s: System, id: nat, jti: Id, signed: set<Id>, stored: set<Id>, threads: map<nat, Thread>)
    requires Looks(s, signed, stored, threads)
    requires id in threads && threads[id] == Storing(jti, "user", "family", Some("refresh"))
    ensures var e := Continue(id, Done, "", "");
            New(s, e) && Looks(Next(s, e), signed, stored + {jti}, threads[id := Deleting("refresh")])
  {}

  lemma Deletes(s: System, id: nat, signed: set<Id>, stored: set<Id>, threads: map<nat, Thread>)
    requires Looks(s, signed, stored, threads) && "refresh" in stored
    requires id in threads && threads[id] == Deleting("refresh")
    ensures var e := Continue(id, Done, "", "");
            New(s, e) && Looks(Next(s, e), signed, stored - {"refresh"}, threads - {id})
  {}

  lemma DeletesFamily(s: System, id: nat, signed: set<Id>, stored: set<Id>, threads: map<nat, Thread>)
    requires SystemInv(s) && Looks(s, signed, stored, threads)
    requires id in threads && threads[id] == DeletingFamily("family", "user")
    ensures var e := Continue(id, Done, "", "");
            New(s, e) && Looks(Next(s, e), signed, {}, threads - {id}) && FamilyDead(Next(s, e).a, "family")
  {
    hide SystemInv;
    var e := Continue(id, Done, "", "");
    RevocationUnderOverlap(s, e);
    var t := Next(s, e).a.t.store;
    assert forall j :: j in t.tokens ==> LiveToken(t, j);
    assert t.tokens.Keys == {};
  }

  lemma LiveFamily(s: System, signed: set<Id>, stored: set<Id>, threads: map<nat, Thread>)
    requires Looks(s, signed, stored, threads) && stored != {}
    ensures !FamilyDead(s.a, "family")
  {
    var j :| j in stored;
    assert LiveToken(s.a.t.store, j);
  }

  /** The first six events: a login and two look-ups that find its token. */
  lemma SixEvents()
    ensures forall k :: 0 <= k < 6 ==> New(After(k), REVIVING[k])
    ensures Looks(After(6), {"access", "refresh"}, {"refresh"},
                  map[1 := Issuing("refresh", FIRST), 2 := Issuing("refresh", FIRST)])
  {
    hide Looks, New, Next, FIRST;
    LoginLooks();
    AfterNothing();
    hide After;
    AfterStep(0); AfterStep(1); AfterStep(2); AfterStep(3); AfterStep(4); AfterStep(5);
    var none: map<nat, Thread> := map[];
    LooksUp(After(2), 1, {"access", "refresh"}, {"refresh"}, none);
    LooksUp(After(4), 2, {"access", "refresh"}, {"refresh"}, none[1 := Issuing("refresh", FIRST)]);
    assert none[1 := Issuing("refresh", FIRST)][2 := Issuing("refresh", FIRST)] ==
           map[1 := Issuing("refresh", FIRST), 2 := Issuing("refresh", FIRST)];
  }

  lemma AfterNothing()
    ensures After(0) == EMPTY
  {}

  /** The next five: one refresh rotates the token, and the third misses it. */
  lemma ElevenEvents()
    ensures forall k :: 0 <= k < 11 ==> New(After(k), REVIVING[k])
    ensures Looks(After(11), {"access", "refresh", "access2", "refresh2"}, {"refresh2"},
                  map[1 := Issuing("refresh", FIRST), 3 := DeletingFamily("family", "user")])
  {
    hide Looks, New, Next, FIRST, After;
    SixEvents();
    AfterStep(6); AfterStep(7); AfterStep(8); AfterStep(9); AfterStep(10);
    var waiting := Issuing("refresh", FIRST);
    var two := map[1 := waiting, 2 := waiting];
    Signs(After(6), 2, "refresh2", "access2", {"access", "refresh"}, {"refresh"}, two);
    var signed := {"access", "refresh"} + {"refresh2", "access2"};
    var storing := two[2 := Storing("refresh2", "user", "family", Some("refresh"))];
    Stores(After(7), 2, "refresh2", signed, {"refresh"}, storing);
    var deleting := storing[2 := Deleting("refresh")];
    Deletes(After(8), 2, signed, {"refresh"} + {"refresh2"}, deleting);
    assert {"refresh"} + {"refresh2"} - {"refresh"} == {"refresh2"};
    LooksUp(After(9), 3, signed, {"refresh2"}, deleting - {2});
    assert signed == {"access", "refresh", "access2", "refresh2"};
    assert (deleting - {2})[3 := DeletingFamily("family", "user")] ==
           map[1 := waiting, 3 := DeletingFamily("family", "user")];
  }

  lemma EmptyHolds()
    ensures SystemInv(EMPTY)
  {
    hide AuthInv;
    StartHolds(0, WEEK, QUARTER);
  }

  lemma {:induction false} InvAfter(n: nat)
    requires n <= |REVIVING|
    requires forall k :: 0 <= k < n ==> New(After(k), REVIVING[k])
    ensures SystemInv(After(n))
  {
    hide After, SystemInv, New, Next;
    if n == 0 {
      AfterNothing();
      EmptyHolds();
    } else {
      InvAfter(n - 1);
      AfterStep(n - 1);
      NextKeeps(After(n - 1), REVIVING[n - 1]);
    }
  }

  lemma {:induction false} RestOfRun(n: nat)
    requires n <= |REVIVING|
    requires forall k :: n <= k < |REVIVING| ==> New(After(k), REVIVING[k])
    ensures NewRun(After(n), REVIVING[n..]) && RunEvents(After(n), REVIVING[n..]) == After(|REVIVING|)
    decreases |REVIVING| - n
  {
    hide After, New, Next;
    if n < |REVIVING| {
      AfterStep(n);
      RestOfRun(n + 1);
      assert REVIVING[n..][1..] == REVIVING[n + 1..];
    }
  }

  lemma FamilyDeleted()
    ensures forall k :: 0 <= k < 12 ==> New(After(k), REVIVING[k])
    ensures !FamilyDead(After(11).a, "family") && FamilyDead(After(12).a, "family")
    ensures Looks(After(12), {"access", "refresh", "access2", "refresh2"}, {}, map[1 := Issuing("refresh", FIRST)])
  {
    hide Looks, New, Next, SystemInv, FamilyDead, FIRST, After;
    ElevenEvents();
    InvAfter(11);
    var signed := {"access", "refresh", "access2", "refresh2"};
    var waiting := Issuing("refresh", FIRST);
    var both := map[1 := waiting, 3 := DeletingFamily("family", "user")];
    LiveFamily(After(11), signed, {"refresh2"}, both);
    AfterStep(11);
    DeletesFamily(After(11), 3, signed, {"refresh2"}, both);
    assert both - {3} == map[1 := waiting];
  }

  lemma FamilyRevived()
    ensures forall k :: 0 <= k < 14 ==> New(After(k), REVIVING[k])
    ensures !FamilyDead(After(14).a, "family")
  {
    hide Looks, New, Next, FamilyDead, FIRST, After;
    FamilyDeleted();
    var signed := {"access", "refresh", "access2", "refresh2"};
    var waiting: map<nat, Thread> := map[1 := Issuing("refresh", FIRST)];
    AfterStep(12); AfterStep(13);
    Signs(After(12), 1, "refresh3", "access3", signed, {}, waiting);
    var storing := waiting[1 := Storing("refresh3", "user", "family", Some("refresh"))];
    Stores(After(13), 1, "refresh3", signed + {"refresh3", "access3"}, {}, storing);
    LiveFamily(After(14), signed + {"refresh3", "access3"}, {} + {"refresh3"}, storing[1 := Deleting("refresh")]);
  }

  lemma WaitingRequests(s: System, signed: set<Id>, stored: set<Id>, threads: map<nat, Thread>)
    requires Looks(s, signed, stored, threads)
    ensures s.threads == threads
  {}

  /** In this run, without any failure, the family has a live token until a replay is answered by
      deleting it, and none then; but the refresh that was under way goes on and makes one live again. */
  lemma RevokedFamilyComesBack()
    ensures NewRun(EMPTY, REVIVING) && RunEvents(EMPTY, REVIVING) == After(14)
    ensures !FamilyDead(After(11).a, "family")
    ensures 3 in After(11).threads && After(11).threads[3] == DeletingFamily("family", "user")
    ensures REVIVING[11] == Continue(3, Done, "", "") && FamilyDead(After(12).a, "family")
    ensures !FamilyDead(After(14).a, "family")
  {
    hide Looks, New, Next, FamilyDead, NewRun, RunEvents, FIRST, After;
    AfterNothing();
    FamilyDeleted();
    FamilyRevived();
    ElevenEvents();
    WaitingRequests(After(11), {"access", "refresh", "access2", "refresh2"}, {"refresh2"},
          map[1 := Issuing("refresh", FIRST), 3 := DeletingFamily("family", "user")]);
    assert REVIVING[0..] == REVIVING;
    RestOfRun(0);
  }
}
