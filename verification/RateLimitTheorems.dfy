/** The attempt counter counts exactly the attempts of the current window. */
module RateLimitTheorems {
  import opened Common
  import opened Shamir
  import opened TwoFA
  import opened EnrolmentTheorems
  import opened AbuseTheorems
  import opened SampleRun

  /** The attempts let through since the current window started are as many as the counter says,
      up to the limit; and none is later than the window. */
  ghost predicate Exact(u: User) {
    && (forall i :: 0 <= i < |u.book.passes| ==> u.book.passes[i] <= u.now)
    && (u.limit.None? ==> u.book.passes == [])
    && (u.limit.Some? ==>
          && u.limit.value.expiry.Some? && u.limit.value.expiry.value - WINDOW <= u.now
          && ExactWindow(u.book.passes, u.limit.value.count, u.limit.value.expiry.value))
  }

  ghost predicate ExactWindow(passes: seq<Time>, count: nat, expiry: Time) {
    && (forall i :: 0 <= i < |passes| ==> passes[i] < expiry)
    && Count(passes, expiry - WINDOW, expiry) == if count < MAX_ATTEMPTS then count else MAX_ATTEMPTS
  }

  /** Redis works, also when Disable deletes its keys. */
  ghost predicate RedisKeeps(op: Op) {
    RedisWorks(op) && (op.Disable? ==> !op.check.deleteKeys.FailedBefore?)
  }

  lemma RateCheckExact(u: User)
    requires Exact(u)
    ensures Exact(RateCheck(u, LimitOk).0)
    ensures !RateCheck(u, LimitOk).1 <==>
            u.limit.Some? && u.now < u.limit.value.expiry.value
            && Count(u.book.passes, u.limit.value.expiry.value - WINDOW, u.limit.value.expiry.value) == MAX_ATTEMPTS
  {
    hide Count;
    var passes := u.book.passes;
    if u.limit.Some? && u.now < u.limit.value.expiry.value {
      var expiry := u.limit.value.expiry.value;
      CountAppend(passes, u.now, expiry - WINDOW, expiry);
    } else {
      CountAppend(passes, u.now, u.now, u.now + WINDOW);
      forall i | 0 <= i < |passes|
        ensures passes[i] < u.now
      {}
      CountAll(passes, u.now, u.now + WINDOW, u.now);
    }
  }

  lemma BeforeCheckExact(u: User, env: CheckEnv)
    requires Exact(u) && env.limit.LimitOk?
    ensures Exact(BeforeCheck(u, env).0)
  {
    hide ExactWindow, RateCheck;
    RateCheckExact(Wait(u, env.toLimit));
  }

  lemma CheckExact(o: Oracles, u: User, env: CheckEnv, verifying: bool)
    requires |u.nodes| == NODES && CheckFits(u, env) && Exact(u)
    ensures Exact(CheckCode(o, u, env, verifying).0)
  {
    hide CheckCode, ExactWindow;
    CheckFrame(o, u, env, verifying);
    CheckTime(o, u, env, verifying);
  }

  lemma VerifyExact(o: Oracles, u: User, env: CheckEnv)
    requires |u.nodes| == NODES && CheckFits(u, env) && Exact(u) && env.limit.LimitOk?
    ensures Exact(VerifyStep(o, u, env).0)
  {
    hide CheckCode, BeforeCheck, ExactWindow;
    BeforeCheckFrame(u, env);
    BeforeCheckExact(u, env);
    CheckExact(o, BeforeCheck(u, env).0, env, true);
  }

  lemma DisableExact(o: Oracles, u: User, env: CheckEnv)
    requires |u.nodes| == NODES && CheckFits(u, env) && Exact(u) && env.limit.LimitOk?
    requires !env.deleteKeys.FailedBefore?
    ensures Exact(DisableStep(o, u, env).0)
  {
    hide CheckCode, BeforeCheck, DeleteEverywhere, AllDone, ExactWindow;
    BeforeCheckFrame(u, env);
    BeforeCheckExact(u, env);
    CheckExact(o, BeforeCheck(u, env).0, env, false);
  }

  lemma ExactStep(o: Oracles, u: User, op: Op)
    requires |u.nodes| == NODES && Fits(u, op) && RedisKeeps(op) && Exact(u)
    ensures Exact(Step(o, u, op))
  {
    hide VerifyStep, DisableStep, SplitSpec, Distribute, AllStored, ExactWindow;
    match op
    case Setup(env) =>
    case Verify(env) => VerifyExact(o, u, env);
    case Disable(env) => DisableExact(o, u, env);
    case Tick(_) =>
  }

  lemma {:induction false} ExactOverRun(o: Oracles, u: User, ops: seq<Op>)
    requires |u.nodes| == NODES && FitsRun(o, u, ops) && Exact(u)
    requires forall i :: 0 <= i < |ops| ==> RedisKeeps(ops[i])
    ensures Exact(Run(o, u, ops))
    decreases |ops|
  {
    hide Step, Fits, Exact, RedisKeeps;
    if ops != [] {
      StepNodes(o, u, ops[0]);
      ExactStep(o, u, ops[0]);
      ExactOverRun(o, Step(o, u, ops[0]), ops[1..]);
    }
  }

  /** In every run with a working Redis the next attempt is refused exactly when five attempts
      were let through in the current window: never earlier, never later. */
  lemma RefusedExactlyAfterFive(o: Oracles, start: Time, ops: seq<Op>, d: nat)
    requires FitsRun(o, NewUser(start), ops)
    requires forall i :: 0 <= i < |ops| ==> RedisKeeps(ops[i])
    ensures var u := Wait(Run(o, NewUser(start), ops), d);
            !RateCheck(u, LimitOk).1 <==>
              && u.limit.Some? && u.limit.value.expiry.Some? && u.now < u.limit.value.expiry.value
              && var end := u.limit.value.expiry.value; Count(u.book.passes, end - 300_000, end) == 5
  {
    hide Step, Fits, RedisKeeps, Count, RateCheck;
    ExactOverRun(o, NewUser(start), ops);
    RateCheckExact(Wait(Run(o, NewUser(start), ops), d));
  }

  // ----- How long a refusal lasts -----

  /** The counter has no expiry time and has reached the limit. */
  ghost predicate Stuck(u: User) {
    u.limit.Some? && u.limit.value.expiry.None? && u.limit.value.count >= MAX_ATTEMPTS
  }

  /** A first increment whose expiry time was neither set nor made up for by deleting the key. */
  predicate LosesExpiry(fate: LimitFate) {
    fate == IncrFails(true) || fate == ExpireFails(false, false)
  }

  ghost predicate NoExpiry(u: User) { u.limit.Some? && u.limit.value.expiry.None? }

  /** An attempt leaves the counter without an expiry time exactly when it had none before, or
      when it was the first of a window and such an increment. */
  lemma ExpiryIsLost(u: User, fate: LimitFate)
    ensures NoExpiry(RateCheck(u, fate).0) <==> NoExpiry(u) || (LiveCount(u.limit, u.now) == 0 && LosesExpiry(fate))
  {}

  /** An expiry time is at most a window away. */
  ghost predicate Timely(u: User) {
    u.limit.Some? && u.limit.value.expiry.Some? ==> u.limit.value.expiry.value <= u.now + WINDOW
  }

  lemma BeforeCheckTimely(u: User, env: CheckEnv)
    requires Timely(u)
    ensures Timely(BeforeCheck(u, env).0)
    ensures BeforeCheck(u, env).0.now >= u.now
    ensures !NoExpiry(u) && !LosesExpiry(env.limit) ==> !NoExpiry(BeforeCheck(u, env).0)
  {
    ExpiryIsLost(Wait(u, env.toLimit), env.limit);
  }

  lemma TimelyStep(o: Oracles, u: User, op: Op)
    requires |u.nodes| == NODES && Fits(u, op) && Timely(u)
    ensures Timely(Step(o, u, op))
    ensures !NoExpiry(u) && !LosesExpiryIn(op) ==> !NoExpiry(Step(o, u, op))
  {
    hide CheckCode, BeforeCheck, LosesExpiry, SplitSpec, Distribute, AllStored, DeleteEverywhere, AllDone;
    match op
    case Verify(env) =>
      BeforeCheckTimely(u, env);
      BeforeCheckFrame(u, env);
      CheckFrame(o, BeforeCheck(u, env).0, env, true);
      CheckTime(o, BeforeCheck(u, env).0, env, true);
    case Disable(env) =>
      BeforeCheckTimely(u, env);
      BeforeCheckFrame(u, env);
      CheckFrame(o, BeforeCheck(u, env).0, env, false);
      CheckTime(o, BeforeCheck(u, env).0, env, false);
    case _ =>
  }

  ghost predicate LosesExpiryIn(op: Op) { (op.Verify? || op.Disable?) && LosesExpiry(op.check.limit) }

  lemma {:induction false} TimelyOverRun(o: Oracles, u: User, ops: seq<Op>)
    requires |u.nodes| == NODES && FitsRun(o, u, ops) && Timely(u)
    ensures Timely(Run(o, u, ops))
    ensures !NoExpiry(u) && (forall i :: 0 <= i < |ops| ==> !LosesExpiryIn(ops[i])) ==> !NoExpiry(Run(o, u, ops))
    decreases |ops|
  {
    hide Step, Fits, Timely, NoExpiry, LosesExpiryIn;
    if ops != [] {
      StepNodes(o, u, ops[0]);
      TimelyStep(o, u, ops[0]);
      TimelyOverRun(o, Step(o, u, ops[0]), ops[1..]);
    }
  }

  /** In every run, whatever fails: the next attempt is refused however long the user waits exactly
      when the counter is stuck; otherwise it is let through after at most 300 s. And the counter is
      never stuck unless some increment of the run lost its expiry time. */
  lemma RefusalEnds(o: Oracles, start: Time, ops: seq<Op>)
    requires FitsRun(o, NewUser(start), ops)
    ensures var u := Run(o, NewUser(start), ops);
            && (Stuck(u) <==> forall d: nat :: !RateCheck(Wait(u, d), LimitOk).1)
            && (!Stuck(u) ==> forall d: nat :: d >= 300_000 ==> RateCheck(Wait(u, d), LimitOk).1)
            && (Stuck(u) ==> exists i :: 0 <= i < |ops| && LosesExpiryIn(ops[i]))
  {
    hide Step, Fits, LosesExpiryIn;
    TimelyOverRun(o, NewUser(start), ops);
    var u := Run(o, NewUser(start), ops);
    assert !Stuck(u) ==> RateCheck(Wait(u, 300_000), LimitOk).1;
  }

  lemma StuckStep(o: Oracles, u: User, op: Op)
    requires |u.nodes| == NODES && Fits(u, op) && Stuck(u)
    requires (op.Verify? || op.Disable?) ==> !op.check.limit.IncrFails?
    ensures Stuck(Step(o, u, op))
    ensures op.Verify? && !op.check.readFails && u.record.Some? ==> VerifyStep(o, u, op.check).1 == ErrRateLimited
    ensures op.Disable? && !op.check.readFails && u.record == Some(true) ==>
              DisableStep(o, u, op.check).1 == ErrRateLimited
  {
    hide CheckCode, SplitSpec, Distribute, AllStored, Remove;
  }

  /** Once stuck, always stuck: as long as the increments themselves work, every later Verify and
      Disable of the user is refused, so that no Disable ever gets to delete the counter. */
  lemma {:induction false} StuckForEver(o: Oracles, u: User, ops: seq<Op>, last: Op)
    requires |u.nodes| == NODES && FitsRun(o, u, ops) && Stuck(u)
    requires forall i :: 0 <= i < |ops| ==> (ops[i].Verify? || ops[i].Disable? ==> !ops[i].check.limit.IncrFails?)
    requires Fits(Run(o, u, ops), last) && (last.Verify? || last.Disable?) && !last.check.limit.IncrFails?
    ensures Stuck(Run(o, u, ops))
    ensures var v := Run(o, u, ops);
            && (last.Verify? && !last.check.readFails && v.record.Some? ==>
                  VerifyStep(o, v, last.check).1 == ErrRateLimited)
            && (last.Disable? && !last.check.readFails && v.record == Some(true) ==>
                  DisableStep(o, v, last.check).1 == ErrRateLimited)
    decreases |ops|
  {
    hide Step, Fits, Stuck, VerifyStep, DisableStep;
    if ops == [] {
      StuckStep(o, u, last);
    } else {
      StepNodes(o, u, ops[0]);
      StuckStep(o, u, ops[0]);
      StuckForEver(o, Step(o, u, ops[0]), ops[1..], last);
    }
  }

  // A run in which a user gets stuck.

  /** An attempt during which no node answers, so that nothing but the counter changes. */
  function Unanswered(fate: LimitFate): CheckEnv {
    SampleCheck(0, 0).(limit := fate, fails := [true, true, true])
  }

  /** n such attempts whose increments work. */
  function Attempts(n: nat): seq<Op> {
    if n == 0 then [] else [Verify(Unanswered(LimitOk))] + Attempts(n - 1)
  }

  ghost predicate AfterSampleSetup(u: User) {
    |u.nodes| == NODES && u.record == Some(false) && u.codes == NewCodes(SAMPLE_IDS, SAMPLE_IDS)
  }

  lemma SampleNodes(u: User)
    requires AfterSampleSetup(u)
    ensures |u.nodes| == NODES
  {}

  lemma UnansweredStep(u: User, fate: LimitFate)
    requires AfterSampleSetup(u)
    ensures Fits(u, Verify(Unanswered(fate)))
    ensures var v := Step(SAMPLE_ORACLES, u, Verify(Unanswered(fate)));
            AfterSampleSetup(v) && v.limit == RateCheck(u, fate).0.limit
  {
    hide Retrieve, RateCheck, NewCodes, BackupStep;
    SampleScanFits(u);
    RateCheckFrame(u, fate);
    TwoFailuresRefused(u.nodes, [true, true, true], [0, 1, 2]);
  }

  lemma CountedOnce(u: User)
    requires NoExpiry(u)
    ensures var v := RateCheck(u, LimitOk).0; NoExpiry(v) && v.limit.value.count == u.limit.value.count + 1
  {}

  lemma AttemptsStep(n: nat)
    requires n > 0
    ensures Attempts(n)[0] == Verify(Unanswered(LimitOk)) && Attempts(n)[1..] == Attempts(n - 1)
  {}

  lemma {:induction false} CountsUp(u: User, n: nat)
    requires AfterSampleSetup(u) && NoExpiry(u)
    ensures FitsRun(SAMPLE_ORACLES, u, Attempts(n))
    ensures var v := Run(SAMPLE_ORACLES, u, Attempts(n));
            NoExpiry(v) && v.limit.value.count == u.limit.value.count + n
    decreases n
  {
    hide Step, Fits, AfterSampleSetup, RateCheck, Unanswered, SAMPLE_ORACLES;
    SampleNodes(u);
    if n > 0 {
      hide Attempts;
      var op := Verify(Unanswered(LimitOk));
      UnansweredStep(u, LimitOk);
      CountedOnce(u);
      AttemptsStep(n);
      CountsUp(Step(SAMPLE_ORACLES, u, op), n - 1);
    }
  }

  lemma SampleSetupStep()
    ensures Fits(NewUser(0), Setup(SAMPLE_SETUP))
    ensures var v := Step(SAMPLE_ORACLES, NewUser(0), Setup(SAMPLE_SETUP));
            AfterSampleSetup(v) && v.limit.None?
  {
    hide SetupStep, SetupFits, Enrolled, NewCodes;
    SampleSetup(0);
    EnrolledMeans(SetupStep(NewUser(0), SAMPLE_SETUP).0, 0);
  }

  lemma FirstIncrementLost(u: User)
    requires u.limit.None?
    ensures var v := RateCheck(u, IncrFails(true)).0; NoExpiry(v) && v.limit.value.count == 1
  {}

  /** The gap, as a run of a new user: after a Setup without faults the first attempt is counted
      but its increment reports an error, and four more attempts are counted. Then the user is stuck. */
  lemma UserGetsStuck()
    ensures var ops := [Setup(SAMPLE_SETUP), Verify(Unanswered(IncrFails(true)))] + Attempts(4);
            FitsRun(SAMPLE_ORACLES, NewUser(0), ops) && Stuck(Run(SAMPLE_ORACLES, NewUser(0), ops))
  {
    hide Step, Fits, Enrolled, NewCodes, Attempts, AfterSampleSetup, RateCheck, Unanswered;
    hide SAMPLE_ORACLES, SAMPLE_SETUP, SAMPLE_IDS;
    var o, u := SAMPLE_ORACLES, NewUser(0);
    var first, second := Setup(SAMPLE_SETUP), Verify(Unanswered(IncrFails(true)));
    var rest := [second] + Attempts(4);
    var ops := [first, second] + Attempts(4);
    assert ops[0] == first && ops[1..] == rest && rest[0] == second && rest[1..] == Attempts(4);
    SampleSetupStep();
    var v := Step(o, u, first);
    SampleNodes(v);
    UnansweredStep(v, IncrFails(true));
    var w := Step(o, v, second);
    FirstIncrementLost(v);
    SampleNodes(w);
    CountsUp(w, 4);
    assert FitsRun(o, v, rest) && Run(o, v, rest) == Run(o, w, Attempts(4));
  }
}
