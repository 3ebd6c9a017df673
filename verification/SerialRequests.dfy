/** A request that runs alone: the interleaved steps of OverlappingSessions, taken without anything
    between them but the pauses, have the effect of the request as a whole. */
module SerialRequests {
  import opened Common
  import opened SessionStore
  import opened AuthSessions
  import opened OverlappingSessions

  /** The token is parsed as a refresh token. */
  ghost predicate Begins(a: Auth, jti: Id) {
    Parse(a, jti).Some? && Parse(a, jti).value.kind == Refresh
  }

  /** A step of thread `id` that draws no identifier. */
  ghost function Go(id: nat, o: Outcome): Event { Continue(id, o, "", "") }

  /** The events of one request as thread `id`; `failure` is how a failing look-up ends. */
  ghost function EventsOf(a: Auth, op: Op, id: nat, failure: Outcome): seq<Event> {
    match op
    case OpenFamily(user, family, jti, accessJti, d, o) =>
      [BeginLogin(id, user, family, jti, accessJti), Passes(d), Go(id, o)]
    case RefreshToken(jti, _, _, _, _, _, _, _, _, _, _) =>
      if Begins(a, jti) then [BeginRefresh(id, jti)] + FromLookUp(a, op, id, failure) else [BeginRefresh(id, jti)]
    case Logout(jti, d, o) =>
      if Parse(a, jti).Some? then [BeginLogout(id, jti), Passes(d), Go(id, o)] else [BeginLogout(id, jti)]
    case LogoutAll(user, o) => [BeginLogoutAll(id, user), Go(id, o)]
    case Tick(d) => [Passes(d)]
  }

  ghost function FromLookUp(a: Auth, op: Op, id: nat, failure: Outcome): seq<Event>
    requires op.RefreshToken?
  {
    [Passes(op.lookUpDelay)] + ([Go(id, if op.lookUpFails then failure else Done)] + FromAnswer(a, op, id))
  }

  ghost function FromAnswer(a: Auth, op: Op, id: nat): seq<Event>
    requires op.RefreshToken?
  {
    if op.lookUpFails then []
    else if LookUp(Pause(a, op.lookUpDelay).t.store, op.jti).None? then [Go(id, op.revoked)]
    else
      [Passes(op.signDelay)]
      + ([Continue(id, Done, op.newJti, op.accessJti)] + ([Passes(op.storeDelay)] + FromStore(op, id)))
  }

  ghost function FromStore(op: Op, id: nat): seq<Event>
    requires op.RefreshToken?
  {
    [Go(id, op.stored)] + if op.stored.Done? then [Passes(op.deleteDelay), Go(id, op.deleted)] else []
  }

  lemma NextOf(s: System, e: Event, rest: seq<Event>)
    ensures RunEvents(s, []) == s
    ensures RunEvents(s, [e] + rest) == RunEvents(Next(s, e), rest)
    ensures NewRun(s, [])
    ensures NewRun(s, [e] + rest) <==> New(s, e) && NewRun(Next(s, e), rest)
  {
    hide Next, New;
    assert ([e] + rest)[1..] == rest;
  }

  /** One step of the only thread that runs, the rest of the threads waiting. */
  lemma ThreadSteps(a: Auth, waiting: map<nat, Thread>, id: nat, th: Thread, o: Outcome, jti: Id, accessJti: Id)
    requires id !in waiting && (th.Issuing? ==> NewTokens(a, jti, accessJti))
    ensures var s := System(a, waiting[id := th]);
            var e := Continue(id, o, jti, accessJti);
            var (b, left) := Advance(a, th, o, jti, accessJti);
            New(s, e) && Next(s, e) == System(b, if left.Some? then waiting[id := left.value] else waiting)
  {
    hide Advance, NewTokens;
    var s := System(a, waiting[id := th]);
    assert s.threads - {id} == waiting;
    var left := Advance(a, th, o, jti, accessJti).1;
    assert left.Some? ==> s.threads[id := left.value] == waiting[id := left.value];
  }

  lemma TimePasses(s: System, d: nat)
    ensures New(s, Passes(d)) && Next(s, Passes(d)) == System(Pause(s.a, d), s.threads)
  {}

  /** The events from a state give the run, and draw only new identifiers. */
  ghost predicate Gives(s: System, events: seq<Event>, end: System) {
    NewRun(s, events) && RunEvents(s, events) == end
  }

  lemma GivesFirst(s: System, e: Event, rest: seq<Event>, end: System)
    requires New(s, e) && Gives(Next(s, e), rest, end)
    ensures Gives(s, [e] + rest, end)
  {
    hide New, Next;
    NextOf(s, e, rest);
  }

  lemma GivesNothing(s: System)
    ensures Gives(s, [], s)
  {}

  lemma GivesPause(s: System, d: nat, rest: seq<Event>, end: System)
    requires Gives(System(Pause(s.a, d), s.threads), rest, end)
    ensures Gives(s, [Passes(d)] + rest, end)
  {
    hide Gives, Pause, New, Next;
    TimePasses(s, d);
    GivesFirst(s, Passes(d), rest, end);
  }

  lemma GivesStep(a: Auth, waiting: map<nat, Thread>, id: nat, th: Thread, o: Outcome, jti: Id, accessJti: Id,
                  rest: seq<Event>, end: System)
    requires id !in waiting && (th.Issuing? ==> NewTokens(a, jti, accessJti))
    requires var (b, left) := Advance(a, th, o, jti, accessJti);
             Gives(System(b, if left.Some? then waiting[id := left.value] else waiting), rest, end)
    ensures Gives(System(a, waiting[id := th]), [Continue(id, o, jti, accessJti)] + rest, end)
  {
    hide Gives, Advance, New, Next, NewTokens;
    ThreadSteps(a, waiting, id, th, o, jti, accessJti);
    GivesFirst(System(a, waiting[id := th]), Continue(id, o, jti, accessJti), rest, end);
  }

  /** The last step of a thread. */
  lemma GivesLast(a: Auth, waiting: map<nat, Thread>, id: nat, th: Thread, o: Outcome)
    requires id !in waiting && !th.Issuing? && Advance(a, th, o, "", "").1.None?
    ensures Gives(System(a, waiting[id := th]), [Go(id, o)], System(Advance(a, th, o, "", "").0, waiting))
  {
    hide Gives, Advance;
    var end := System(Advance(a, th, o, "", "").0, waiting);
    GivesNothing(end);
    GivesStep(a, waiting, id, th, o, "", "", [], end);
    assert [Go(id, o)] + [] == [Go(id, o)];
  }

  /** A pause and then the last step. */
  lemma GivesPauseLast(a: Auth, waiting: map<nat, Thread>, id: nat, th: Thread, d: nat, o: Outcome)
    requires id !in waiting && !th.Issuing? && Advance(Pause(a, d), th, o, "", "").1.None?
    ensures Gives(System(a, waiting[id := th]), [Passes(d), Go(id, o)],
                  System(Advance(Pause(a, d), th, o, "", "").0, waiting))
  {
    hide Gives, Advance, Pause;
    GivesLast(Pause(a, d), waiting, id, th, o);
    GivesPause(System(a, waiting[id := th]), d, [Go(id, o)], System(Advance(Pause(a, d), th, o, "", "").0, waiting));
    assert [Passes(d)] + [Go(id, o)] == [Passes(d), Go(id, o)];
  }

  // ----- Rotation -----

  /** From a signed token on: store it, and delete the one it replaces. */
  lemma StoreAlone(a: Auth, waiting: map<nat, Thread>, op: Op, token: Token, id: nat)
    requires op.RefreshToken? && id !in waiting
    ensures var stored := Attempt(a, CStore(op.newJti, token.user, token.family), op.stored);
            Gives(System(a, waiting[id := Storing(op.newJti, token.user, token.family, Some(op.jti))]),
                  FromStore(op, id),
                  System(if !op.stored.Done? then stored
                         else Attempt(Pause(stored, op.deleteDelay), CDelete(op.jti), op.deleted), waiting))
  {
    hide Gives, Attempt, Pause;
    var th := Storing(op.newJti, token.user, token.family, Some(op.jti));
    var stored := Attempt(a, CStore(op.newJti, token.user, token.family), op.stored);
    if op.stored.Done? {
      GivesPauseLast(stored, waiting, id, Deleting(op.jti), op.deleteDelay, op.deleted);
      GivesStep(a, waiting, id, th, op.stored, "", "", [Passes(op.deleteDelay), Go(id, op.deleted)],
                System(Attempt(Pause(stored, op.deleteDelay), CDelete(op.jti), op.deleted), waiting));
    } else {
      GivesNothing(System(stored, waiting));
      GivesStep(a, waiting, id, th, op.stored, "", "", [], System(stored, waiting));
    }
  }

  lemma RotateAlone(a: Auth, waiting: map<nat, Thread>, op: Op, token: Token, id: nat)
    requires op.RefreshToken? && id !in waiting && NewTokens(a, op.newJti, op.accessJti)
    ensures Gives(System(a, waiting[id := Issuing(op.jti, token)]),
                  [Continue(id, Done, op.newJti, op.accessJti)] + ([Passes(op.storeDelay)] + FromStore(op, id)),
                  System(RotateStep(a, op, token).0, waiting))
  {
    hide Gives, Attempt, Pause, FromStore, SignAccess, SignRefresh, NewTokens;
    var signed := Sign(a, op.accessJti, op.newJti, token.user, token.family);
    var th := Storing(op.newJti, token.user, token.family, Some(op.jti));
    StoreAlone(Pause(signed, op.storeDelay), waiting, op, token, id);
    GivesPause(System(signed, waiting[id := th]), op.storeDelay, FromStore(op, id),
               System(RotateStep(a, op, token).0, waiting));
    GivesStep(a, waiting, id, Issuing(op.jti, token), Done, op.newJti, op.accessJti,
              [Passes(op.storeDelay)] + FromStore(op, id), System(RotateStep(a, op, token).0, waiting));
  }

  // ----- Every request -----

  lemma LookUpAlone(a: Auth, waiting: map<nat, Thread>, op: Op, id: nat, failure: Outcome)
    requires !failure.Done?
    requires op.RefreshToken? && id !in waiting && Fresh(a, op) && Begins(a, op.jti)
    ensures Gives(System(a, waiting[id := LookingUp(op.jti)]), FromLookUp(a, op, id, failure),
                  System(Step(a, op).0, waiting))
  {
    hide Gives, Attempt, Pause, FromStore, LookUp, RotateStep;
    var b := Pause(a, op.lookUpDelay);
    PauseFacts(a, op.lookUpDelay);
    var o := if op.lookUpFails then failure else Done;
    var end := System(Step(a, op).0, waiting);
    var rest: seq<Event> := [];
    if op.lookUpFails {
      GivesNothing(end);
    } else if LookUp(b.t.store, op.jti).None? {
      rest := [Go(id, op.revoked)];
      GivesLast(b, waiting, id, DeletingFamily(a.issued[op.jti].family, a.issued[op.jti].user), op.revoked);
    } else {
      var token := LookUp(b.t.store, op.jti).value;
      var c := Pause(b, op.signDelay);
      PauseFacts(b, op.signDelay);
      rest := [Continue(id, Done, op.newJti, op.accessJti)] + ([Passes(op.storeDelay)] + FromStore(op, id));
      RotateAlone(c, waiting, op, token, id);
      GivesPause(System(b, waiting[id := Issuing(op.jti, token)]), op.signDelay, rest, end);
      rest := [Passes(op.signDelay)] + rest;
    }
    GivesStep(b, waiting, id, LookingUp(op.jti), o, "", "", rest, end);
    GivesPause(System(a, waiting[id := LookingUp(op.jti)]), op.lookUpDelay, [Go(id, o)] + rest, end);
    assert [Passes(op.lookUpDelay)] + ([Go(id, o)] + rest) == FromLookUp(a, op, id, failure);
  }

  /** Every request is one of the interleavings: from any state of the system, its events as a new
      thread, with nothing between them but its pauses, draw only new identifiers, leave the other
      threads as they wait, and end in the state that the request as a whole leaves. */
  lemma AloneIsStep(s: System, op: Op, id: nat, failure: Outcome)
    requires !failure.Done?
    requires id !in s.threads && Fresh(s.a, op)
    ensures NewRun(s, EventsOf(s.a, op, id, failure))
    ensures RunEvents(s, EventsOf(s.a, op, id, failure)) == System(Step(s.a, op).0, s.threads)
  {
    assert Gives(s, EventsOf(s.a, op, id, failure), System(Step(s.a, op).0, s.threads)) by {
      hide Gives, Attempt, Pause, FromLookUp, SignAccess, SignRefresh, RefreshStep;
      var a, waiting := s.a, s.threads;
      var end := System(Step(a, op).0, waiting);
      match op {
        case OpenFamily(user, family, jti, accessJti, d, o) =>
          var first := BeginLogin(id, user, family, jti, accessJti);
          GivesPauseLast(Sign(a, accessJti, jti, user, family), waiting, id, Storing(jti, user, family, None), d, o);
          GivesFirst(s, first, [Passes(d), Go(id, o)], end);
          assert [first] + [Passes(d), Go(id, o)] == EventsOf(a, op, id, failure);
        case RefreshToken(_, _, _, _, _, _, _, _, _, _, _) => RefreshAlone(s, op, id, failure);
        case Logout(jti, d, o) =>
          var first := BeginLogout(id, jti);
          if Parse(a, jti).Some? {
            GivesPauseLast(a, waiting, id, Deleting(jti), d, o);
            GivesFirst(s, first, [Passes(d), Go(id, o)], end);
            assert [first] + [Passes(d), Go(id, o)] == EventsOf(a, op, id, failure);
          } else {
            GivesNothing(s);
            GivesFirst(s, first, [], end);
            assert [first] + [] == EventsOf(a, op, id, failure);
          }
        case LogoutAll(user, o) =>
          GivesLast(a, waiting, id, DeletingAll(user), o);
          GivesFirst(s, BeginLogoutAll(id, user), [Go(id, o)], end);
          assert [BeginLogoutAll(id, user)] + [Go(id, o)] == EventsOf(a, op, id, failure);
        case Tick(d) =>
          GivesNothing(end);
          GivesPause(s, d, [], end);
          assert [Passes(d)] + [] == EventsOf(a, op, id, failure);
      }
    }
  }

  lemma RefreshAlone(s: System, op: Op, id: nat, failure: Outcome)
    requires !failure.Done?
    requires id !in s.threads && Fresh(s.a, op) && op.RefreshToken?
    ensures Gives(s, EventsOf(s.a, op, id, failure), System(Step(s.a, op).0, s.threads))
  {
    hide Gives, FromLookUp, Pause, Attempt, RotateStep, ReplayStep;
    var first := BeginRefresh(id, op.jti);
    var end := System(Step(s.a, op).0, s.threads);
    if Begins(s.a, op.jti) {
      LookUpAlone(s.a, s.threads, op, id, failure);
      GivesFirst(s, first, FromLookUp(s.a, op, id, failure), end);
    } else {
      GivesNothing(s);
      GivesFirst(s, first, [], end);
      assert [first] + [] == EventsOf(s.a, op, id, failure);
    }
  }

  // ----- Runs of requests -----

  lemma {:induction false} EventsAfterEvents(s: System, first: seq<Event>, rest: seq<Event>)
    ensures RunEvents(s, first + rest) == RunEvents(RunEvents(s, first), rest)
    ensures NewRun(s, first + rest) <==> NewRun(s, first) && NewRun(RunEvents(s, first), rest)
    decreases |first|
  {
    hide Next, New;
    if first == [] {
      assert [] + rest == rest;
    } else {
      assert (first + rest)[1..] == first[1..] + rest;
      EventsAfterEvents(Next(s, first[0]), first[1..], rest);
    }
  }

  ghost function EventsOfRun(a: Auth, ops: seq<Op>, id: nat, failure: Outcome): seq<Event>
    decreases |ops|
  {
    if ops == [] then [] else EventsOf(a, ops[0], id, failure) + EventsOfRun(Step(a, ops[0]).0, ops[1..], id, failure)
  }

  /** Every run of whole requests, one after the other, is one of the interleavings: what holds in
      every interleaving holds in every run. */
  lemma {:induction false} SerialRunIsInterleaving(s: System, ops: seq<Op>, id: nat, failure: Outcome)
    requires !failure.Done?
    requires id !in s.threads && FreshRun(s.a, ops)
    ensures NewRun(s, EventsOfRun(s.a, ops, id, failure))
    ensures RunEvents(s, EventsOfRun(s.a, ops, id, failure)) == System(RunAll(s.a, ops), s.threads)
    decreases |ops|
  {
    hide Step, Fresh, EventsOf, Next, New;
    if ops != [] {
      AloneIsStep(s, ops[0], id, failure);
      var rest := EventsOfRun(Step(s.a, ops[0]).0, ops[1..], id, failure);
      SerialRunIsInterleaving(System(Step(s.a, ops[0]).0, s.threads), ops[1..], id, failure);
      EventsAfterEvents(s, EventsOf(s.a, ops[0], id, failure), rest);
    }
  }
}
