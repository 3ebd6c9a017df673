/** Reuse of one-time codes: when two consecutive accepted codes can match the same counter. */
module ReplayTheorems {
  import opened Common
  import opened Totp
  import opened Validation
  import opened Shamir
  import opened Combine
  import opened TwoFA
  import opened EnrolmentTheorems
  import opened AbuseTheorems
  import opened SampleRun

  // ----- A code is not accepted twice in a row -----

  /** The first instant at which a counter is out of the window of validation. */
  function WindowEnd(counter: int): int { 30_000 * (counter + 2) }

  /** The last counter that passed the reuse check is still stored, at least until it can no
      longer match. */
  ghost predicate Remembered(u: User) {
    u.book.lastPassed.Some? ==>
      && u.otp.Some? && u.otp.value.counter == u.book.lastPassed.value
      && u.otp.value.expiry >= WindowEnd(u.book.lastPassed.value)
  }

  lemma MatchIsNear(hmac: Hmac, secret: seq<Byte>, code: string, now: Time, counter: int)
    requires MatchedCounter(hmac, secret, code, now / 1000) == Some(counter)
    ensures 30_000 * (counter - 1) <= now < WindowEnd(counter)
  {}

  lemma CheckRemembers(o: Oracles, u: User, env: CheckEnv, verifying: bool)
    requires |u.nodes| == NODES && CheckFits(u, env) && env.set_.Done?
    requires Remembered(u)
    ensures Remembered(CheckCode(o, u, env, verifying).0)
  {
    hide MatchedCounter, CombineSpec, Retrieve, FirstMatch;
    if !IsBackupCode(env.code) && Retrieve(u.nodes, env.fails, env.order).Some?
       && CombineSpec(Retrieve(u.nodes, env.fails, env.order).value).Ok?
    {
      var secret := CombineSpec(Retrieve(u.nodes, env.fails, env.order).value).value;
      var v := if verifying then Wait(Wait(u, env.toFirst), env.toSecond) else Wait(u, env.toFirst);
      var m := MatchedCounter(o.hmac, secret, env.code, UnixTime(v));
      if m.Some? {
        MatchIsNear(o.hmac, secret, env.code, v.now, m.value);
      }
    }
  }

  lemma RememberedStep(o: Oracles, u: User, op: Op)
    requires |u.nodes| == NODES && Fits(u, op) && RedisWorks(op) && Remembered(u)
    ensures Remembered(Step(o, u, op))
  {
    hide CheckCode, SplitSpec;
    match op
    case Setup(env) =>
    case Verify(env) =>
      CheckRemembers(o, BeforeCheck(u, env).0, env, true);
    case Disable(env) =>
      CheckRemembers(o, BeforeCheck(u, env).0, env, false);
    case Tick(_) =>
  }

  /** Verify never accepts the counter accepted last, however much time lies between the two
      requests and between their own commands. */
  lemma VerifyRefusesLast(o: Oracles, u: User, secret: seq<Byte>, env: CheckEnv)
    requires Remembered(u) && u.book.lastPassed.Some? && !env.getFails
    ensures var (v, reply) := LookUpThenValidate(o, u, secret, env);
            reply == Accepted ==> v.book.lastPassed != u.book.lastPassed
  {
    hide MatchedCounter;
    var u2 := Wait(Wait(u, env.toFirst), env.toSecond);
    var m := MatchedCounter(o.hmac, secret, env.code, UnixTime(u2));
    if m.Some? {
      MatchIsNear(o.hmac, secret, env.code, u2.now, m.value);
    }
  }

  /** Disable accepts the counter accepted last exactly when the code still matches it at
      validation and the stored counter has expired at the later look-up. */
  lemma DisableRefusesLastUnlessExpired(o: Oracles, u: User, secret: seq<Byte>, env: CheckEnv)
    requires Remembered(u) && u.book.lastPassed.Some? && !env.getFails
    ensures var (v, reply) := ValidateThenLookUp(o, u, secret, env);
            var validated := Wait(u, env.toFirst);
            var lookedUp := Wait(validated, env.toSecond);
            reply == Accepted && v.book.lastPassed == u.book.lastPassed <==>
            MatchedCounter(o.hmac, secret, env.code, UnixTime(validated)) == u.book.lastPassed
            && lookedUp.now >= u.otp.value.expiry
    ensures env.toSecond == 0 ==>
            var (v, reply) := ValidateThenLookUp(o, u, secret, env);
            reply == Accepted ==> v.book.lastPassed != u.book.lastPassed
  {
    hide MatchedCounter;
    var u1 := Wait(u, env.toFirst);
    var m := MatchedCounter(o.hmac, secret, env.code, UnixTime(u1));
    if m.Some? {
      MatchIsNear(o.hmac, secret, env.code, u1.now, m.value);
    }
  }

  lemma {:induction false} RememberedOverRun(o: Oracles, u: User, ops: seq<Op>)
    requires |u.nodes| == NODES && FitsRun(o, u, ops) && Remembered(u)
    requires forall i :: 0 <= i < |ops| ==> RedisWorks(ops[i])
    ensures Remembered(Run(o, u, ops))
    decreases |ops|
  {
    hide Step, Fits, Remembered, RedisWorks;
    if ops != [] {
      StepNodes(o, u, ops[0]);
      RememberedStep(o, u, ops[0]);
      RememberedOverRun(o, Step(o, u, ops[0]), ops[1..]);
    }
  }

  lemma AcceptedIsRecorded(o: Oracles, u: User, secret: seq<Byte>, env: CheckEnv)
    ensures LookUpThenValidate(o, u, secret, env).1.Accepted? ==>
              LookUpThenValidate(o, u, secret, env).0.book.lastPassed.Some?
    ensures ValidateThenLookUp(o, u, secret, env).1.Accepted? ==>
              ValidateThenLookUp(o, u, secret, env).0.book.lastPassed.Some?
  {
    hide MatchedCounter;
  }

  /** In every run with a working Redis: a one-time code that passes the check of Verify never
      matches the counter of the one-time code accepted last before it, by Verify or Disable, at
      any time distance and with any pauses between the commands. */
  lemma NoAdjacentReplay(o: Oracles, start: Time, ops: seq<Op>, env: CheckEnv)
    requires FitsRun(o, NewUser(start), ops)
    requires forall i :: 0 <= i < |ops| ==> RedisWorks(ops[i])
    requires CheckFits(Run(o, NewUser(start), ops), env) && RedisWorks(Verify(env)) && !IsBackupCode(env.code)
    ensures var u := Run(o, NewUser(start), ops);
            var (w, check) := CheckCode(o, BeforeCheck(u, env).0, env, true);
            u.book.lastPassed.Some? && check.Accepted? ==>
              w.book.lastPassed.Some? && w.book.lastPassed != u.book.lastPassed
  {
    hide Step, Fits, CombineSpec, Retrieve, LookUpThenValidate, BeforeCheck;
    RememberedOverRun(o, NewUser(start), ops);
    var u := Run(o, NewUser(start), ops);
    var v := BeforeCheck(u, env).0;
    BeforeCheckFrame(u, env);
    if u.book.lastPassed.Some? && CheckCode(o, v, env, true).1.Accepted? {
      var secret := CombineSpec(Retrieve(v.nodes, env.fails, env.order).value).value;
      VerifyRefusesLast(o, v, secret, env);
      AcceptedIsRecorded(o, v, secret, env);
    }
  }

  /** The secret a check recovers, if it recovers one. */
  ghost function Recovered(u: User, env: CheckEnv): Option<seq<Byte>>
    requires |u.nodes| == NODES == |env.fails|
  {
    match Retrieve(u.nodes, env.fails, env.order)
    case None => None
    case Some(shares) =>
      match CombineSpec(shares)
      case Err(_) => None
      case Ok(secret) => Some(secret)
  }

  /** When Disable validates the code, and when it looks up the last used counter. */
  ghost function ValidatedAt(u: User, env: CheckEnv): Time { BeforeCheck(u, env).0.now + env.toFirst }
  ghost function LookedUpAt(u: User, env: CheckEnv): Time { ValidatedAt(u, env) + env.toSecond }

  /** In every run with a working Redis, Disable accepts a code of the counter accepted last exactly
      when the code still matches it at validation and the stored counter has expired by the time
      of the look-up; in particular never if both happen at one instant. */
  lemma AdjacentReplayInDisable(o: Oracles, start: Time, ops: seq<Op>, env: CheckEnv)
    requires FitsRun(o, NewUser(start), ops)
    requires forall i :: 0 <= i < |ops| ==> RedisWorks(ops[i])
    requires CheckFits(Run(o, NewUser(start), ops), env) && RedisWorks(Disable(env)) && !IsBackupCode(env.code)
    requires Run(o, NewUser(start), ops).book.lastPassed.Some?
    ensures var u := Run(o, NewUser(start), ops);
            var (w, check) := CheckCode(o, BeforeCheck(u, env).0, env, false);
            (check.Accepted? && w.book.lastPassed == u.book.lastPassed) <==>
              && Recovered(u, env).Some?
              && MatchedCounter(o.hmac, Recovered(u, env).value, env.code, ValidatedAt(u, env) / 1000)
                 == u.book.lastPassed
              && u.otp.Some? && LookedUpAt(u, env) >= u.otp.value.expiry
    ensures var u := Run(o, NewUser(start), ops);
            var (w, check) := CheckCode(o, BeforeCheck(u, env).0, env, false);
            env.toSecond == 0 && check.Accepted? ==> w.book.lastPassed != u.book.lastPassed
  {
    hide Step, Fits, CombineSpec, Retrieve, ValidateThenLookUp, BeforeCheck, MatchedCounter;
    RememberedOverRun(o, NewUser(start), ops);
    var u := Run(o, NewUser(start), ops);
    var v := BeforeCheck(u, env).0;
    BeforeCheckFrame(u, env);
    if Recovered(v, env).Some? {
      DisableRefusesLastUnlessExpired(o, v, Recovered(v, env).value, env);
    }
  }

  // ----- The gap in Disable -----

  /** Disable accepts the same code for the same counter 89.999 s later, when the stored counter
      expires in the millisecond between validation and look-up. */
  lemma SampleDisable(u: User)
    requires Enrolled(u, 0) && u.book.splits[0].secret == SAMPLE_SECRET
    requires u.now == 30_000 && u.record == Some(true)
    requires u.limit == Some(Limit(1, Some(330_000))) && u.otp == Some(UsedOtp(2, 120_000))
    requires u.codes == NewCodes(SAMPLE_IDS, SAMPLE_IDS)
    ensures var env := SampleCheck(89_999, 1);
            && CheckFits(u, env)
            && DisableStep(SAMPLE_ORACLES, u, env).1 == Disabled
            && CheckCode(SAMPLE_ORACLES, BeforeCheck(u, env).0, env, false).0.book.lastPassed == Some(2)
  {
    hide Enrolled, CheckCode, MatchedCounter, SAMPLE, NewCodes, DeleteEverywhere;
    EnrolledMeans(u, 0);
    SampleScanFits(u);
    var env := SampleCheck(89_999, 1);
    var v := BeforeCheck(u, env).0;
    assert Enrolled(v, 0) by { SameEnrolment(u, v, 0); }
    VerifyUsesTheSecret(SAMPLE_ORACLES, v, 0, env);
    SampleMatches(SAMPLE_SECRET);
  }

  /** The gap, as a run of a new user: a Setup without faults 30 s after the epoch, a Verify that
      accepts code 000001 for counter 2 and enables the record, and a Disable 89.999 s later that
      accepts the same code for the same counter and completes. */
  lemma DisableCanAcceptTwice()
    ensures SetupFits(NewUser(30_000), SAMPLE_SETUP)
    ensures var u := SetupStep(NewUser(30_000), SAMPLE_SETUP).0;
            && |u.nodes| == NODES && CheckFits(u, SampleCheck(0, 0))
            && var (v, verified) := VerifyStep(SAMPLE_ORACLES, u, SampleCheck(0, 0));
               var env := SampleCheck(89_999, 1);
               && verified == Valid(true) && v.book.lastPassed == Some(2)
               && |v.nodes| == NODES && CheckFits(v, env)
               && CheckCode(SAMPLE_ORACLES, BeforeCheck(v, env).0, env, false).0.book.lastPassed == Some(2)
               && DisableStep(SAMPLE_ORACLES, v, env).1 == Disabled
  {
    hide SetupStep, VerifyStep, DisableStep, CheckCode, CheckFits, SetupFits, Enrolled, NewCodes;
    SampleSetup(30_000);
    var u := SetupStep(NewUser(30_000), SAMPLE_SETUP).0;
    EnrolledMeans(u, 0);
    SampleVerify(u);
    var v := VerifyStep(SAMPLE_ORACLES, u, SampleCheck(0, 0)).0;
    assert Enrolled(v, 0) by { SameEnrolment(u, v, 0); }
    SampleDisable(v);
  }
}
