/** The life of a user's 2FA record: what enables it, what removes it, and what comes after. */
module RecordTheorems {
  import opened Common
  import opened Totp
  import opened Validation
  import opened Shamir
  import opened Combine
  import opened TwoFA
  import opened EnrolmentTheorems

  /** The request is a Verify whose one-time code is a code of the secret recovered from two
      shares, for a time step around the time of validation, and is not the last one used. */
  ghost predicate ProvesSecret(o: Oracles, u: User, op: Op)
    requires |u.nodes| == NODES && Fits(u, op)
  {
    && op.Verify? && !IsBackupCode(op.check.code)
    && var v := BeforeCheck(u, op.check).0;
       var shares := Retrieve(v.nodes, op.check.fails, op.check.order);
       && shares.Some? && CombineSpec(shares.value).Ok?
       && var lookedUp := Wait(v, op.check.toFirst);
          var m := MatchedCounter(o.hmac, CombineSpec(shares.value).value, op.check.code,
                                  UnixTime(Wait(lookedUp, op.check.toSecond)));
          m.Some? && LastUsed(lookedUp, op.check.getFails) != m
  }

  lemma AcceptedIsProof(o: Oracles, u: User, env: CheckEnv)
    requires |u.nodes| == NODES && CheckFits(u, env) && !IsBackupCode(env.code)
    ensures CheckCode(o, BeforeCheck(u, env).0, env, true).1 == Accepted <==> ProvesSecret(o, u, Verify(env))
  {
    hide MatchedCounter, CombineSpec, Retrieve, LastUsed, IsBackupCode;
  }

  /** Verify reports a new enablement, or the record turns enabled, only for a code that proves
      the secret, and only when it was not enabled before. */
  lemma EnabledByProof(o: Oracles, u: User, env: CheckEnv)
    requires |u.nodes| == NODES && CheckFits(u, env)
    ensures var (v, reply) := VerifyStep(o, u, env);
            reply == Valid(true) || v.record != u.record ==>
              u.record == Some(false) && v.record == Some(true) && ProvesSecret(o, u, Verify(env))
  {
    hide CheckCode, BeforeCheck, ProvesSecret, IsBackupCode;
    if !IsBackupCode(env.code) {
      AcceptedIsProof(o, u, env);
    }
    var v := BeforeCheck(u, env).0;
    assert v.record == u.record && v.nodes == u.nodes && v.codes == u.codes by { BeforeCheckFrame(u, env); }
    CheckFrame(o, v, env, true);
  }

  /** Some request of the run proves the secret. */
  ghost predicate SomeProof(o: Oracles, u: User, ops: seq<Op>)
    requires |u.nodes| == NODES && FitsRun(o, u, ops)
    decreases |ops|
  {
    ops != [] &&
    (StepNodes(o, u, ops[0]);
     ProvesSecret(o, u, ops[0]) || SomeProof(o, Step(o, u, ops[0]), ops[1..]))
  }

  lemma StepEnables(o: Oracles, u: User, op: Op)
    requires |u.nodes| == NODES && Fits(u, op)
    requires u.record != Some(true) && Step(o, u, op).record == Some(true)
    ensures ProvesSecret(o, u, op)
  {
    hide VerifyStep, CheckCode, ProvesSecret, SplitSpec, Distribute, AllStored;
    match op
    case Verify(env) => EnabledByProof(o, u, env);
    case _ =>
  }

  /** From whatever state in which 2FA is off, and whatever fails: if it is on at the end of the
      run, some request of the run presented a code that proves the secret. */
  lemma {:induction false} NeverOnWithoutProof(o: Oracles, u: User, ops: seq<Op>)
    requires |u.nodes| == NODES && FitsRun(o, u, ops)
    requires u.record != Some(true) && Run(o, u, ops).record == Some(true)
    ensures SomeProof(o, u, ops)
    decreases |ops|
  {
    hide Step, Fits, ProvesSecret;
    if ops != [] {
      StepNodes(o, u, ops[0]);
      if Step(o, u, ops[0]).record == Some(true) {
        StepEnables(o, u, ops[0]);
      } else {
        NeverOnWithoutProof(o, Step(o, u, ops[0]), ops[1..]);
      }
    }
  }

  /** A completed Disable had its code accepted for an enabled record and leaves nothing of the
      enrolment: no share on any node, no backup code, no record, and, unless Redis fails, no
      attempt counter and no used code. */
  lemma DisabledMeansGone(o: Oracles, u: User, env: CheckEnv)
    requires |u.nodes| == NODES && CheckFits(u, env)
    requires DisableStep(o, u, env).1 == Disabled
    ensures u.record == Some(true) && CheckCode(o, BeforeCheck(u, env).0, env, false).1 == Accepted
    ensures var v := DisableStep(o, u, env).0;
            && AllEmpty(v) && v.codes == map[] && v.record == None
            && (!env.deleteKeys.FailedBefore? ==> v.limit == None && v.otp == None)
  {
    hide CheckCode, BeforeCheck, DeleteEverywhere, AllDone;
    BeforeCheckFrame(u, env);
    CheckFrame(o, BeforeCheck(u, env).0, env, false);
    CleanedUp(u.nodes, env.deletes);
  }

  /** A removed record, or a share that is gone, is the work of a Disable whose code was accepted. */
  lemma OnlyAcceptedDisableRemoves(o: Oracles, u: User, env: CheckEnv)
    requires |u.nodes| == NODES && CheckFits(u, env)
    ensures var v := DisableStep(o, u, env).0;
            v.record != u.record || v.nodes != u.nodes ==>
              u.record == Some(true) && CheckCode(o, BeforeCheck(u, env).0, env, false).1 == Accepted
  {
    hide CheckCode, BeforeCheck, Remove;
    BeforeCheckFrame(u, env);
    CheckFrame(o, BeforeCheck(u, env).0, env, false);
  }

  /** After a completed Disable the user can enrol again: the next Setup without faults succeeds. */
  lemma EnrolAfterDisable(o: Oracles, start: Time, ops: seq<Op>, env: CheckEnv, again: SetupEnv)
    requires FitsRun(o, NewUser(start), ops)
    requires var u := Run(o, NewUser(start), ops);
             CheckFits(u, env) && DisableStep(o, u, env).1 == Disabled
    requires var v := DisableStep(o, Run(o, NewUser(start), ops), env).0;
             |v.nodes| == NODES && SetupFits(v, again) && FaultFree(v, again)
    ensures var v := DisableStep(o, Run(o, NewUser(start), ops), env).0;
            SetupStep(v, again).1 == SetupDone && Enrolled(SetupStep(v, again).0, again.tag)
  {
    hide Step, Fits, DisableStep, SetupStep, FaultFree, Enrolled;
    PlacedOverRun(o, NewUser(start), ops);
    var u := Run(o, NewUser(start), ops);
    DisabledMeansGone(o, u, env);
    PlacedAfterDisable(o, u, env);
    FaultFreeSetup(DisableStep(o, u, env).0, again);
  }

  lemma PlacedAfterDisable(o: Oracles, u: User, env: CheckEnv)
    requires Placed(u) && CheckFits(u, env)
    ensures Placed(DisableStep(o, u, env).0)
  {
    hide DisableStep;
    PlacedStep(o, u, Disable(env));
  }

  // ----- A good code works -----

  lemma NotABackupCode(code: string)
    requires |code| == 6
    ensures !IsBackupCode(code)
  {}

  lemma FreshCodePasses(o: Oracles, u: User, secret: seq<Byte>, env: CheckEnv, generatedAt: nat)
    requires var validatedAt := (u.now + env.toFirst + env.toSecond) / 1000;
             IsInt64(validatedAt) && IsInt64(generatedAt) && -1 <= generatedAt / PERIOD - validatedAt / PERIOD <= 1
    requires env.code == Otp(o.hmac, secret, ToUint64(generatedAt) / PERIOD)
    ensures var (v, check) := LookUpThenValidate(o, u, secret, env);
            var m := MatchedCounter(o.hmac, secret, env.code, (u.now + env.toFirst + env.toSecond) / 1000);
            && m.Some? && Otp(o.hmac, secret, ToUint64(m.value)) == env.code
            && check == (if LastUsed(Wait(u, env.toFirst), env.getFails) == m then ErrReused else Accepted)
  {
    hide Otp;
    GeneratedCodeAccepted(o.hmac, secret, generatedAt, (u.now + env.toFirst + env.toSecond) / 1000);
  }

  lemma SetupLeavesRecord(u: User, env: SetupEnv)
    requires |u.nodes| == NODES && SetupFits(u, env) && SetupStep(u, env).1 == SetupDone
    ensures SetupStep(u, env).0.record.Some?
  {
    hide SplitSpec, Distribute, AllStored, DeleteEverywhere;
  }

  lemma RecordStep(o: Oracles, u: User, op: Op)
    requires |u.nodes| == NODES && Fits(u, op) && !Reenrols(o, u, op) && u.record.Some?
    ensures Step(o, u, op).record.Some?
  {
    hide VerifyStep, CheckCode, BeforeCheck;
    match op
    case Verify(env) => VerifyFrame(o, u, env);
    case Disable(env) =>
      BeforeCheckFrame(u, env);
      CheckFrame(o, BeforeCheck(u, env).0, env, false);
    case _ =>
  }

  lemma {:induction false} RecordOverRun(o: Oracles, u: User, ops: seq<Op>)
    requires |u.nodes| == NODES && FitsRun(o, u, ops) && NoReenrolment(o, u, ops) && u.record.Some?
    ensures Run(o, u, ops).record.Some?
    decreases |ops|
  {
    hide Step, Fits, Reenrols;
    if ops != [] {
      StepNodes(o, u, ops[0]);
      RecordStep(o, u, ops[0]);
      RecordOverRun(o, Step(o, u, ops[0]), ops[1..]);
    }
  }

  /** In every run: from a successful Setup on, until the shares are touched again, whatever else is
      requested and whatever fails, Verify with at most one failing node answers a code generated from
      the secret of that Setup at most one time step away from the validation with success, unless
      the attempt is rate-limited, the counter it matches was the last one used, or a database call
      of the request itself fails. */
  lemma FreshCodeAccepted(o: Oracles, start: Time, before: seq<Op>, setup: SetupEnv, after: seq<Op>,
                          env: CheckEnv, generatedAt: nat)
    requires FitsRun(o, NewUser(start), before)
    requires var u := Run(o, NewUser(start), before);
             SetupFits(u, setup) && SetupStep(u, setup).1 == SetupDone && |SetupStep(u, setup).0.nodes| == NODES
             && FitsRun(o, SetupStep(u, setup).0, after) && NoReenrolment(o, SetupStep(u, setup).0, after)
    requires var w := Run(o, SetupStep(Run(o, NewUser(start), before), setup).0, after);
             CheckFits(w, env) && AtMostOneFails(env.fails) && !env.readFails && env.enable.Done?
    requires var w := Run(o, SetupStep(Run(o, NewUser(start), before), setup).0, after);
             var validatedAt := (BeforeCheck(w, env).0.now + env.toFirst + env.toSecond) / 1000;
             IsInt64(validatedAt) && IsInt64(generatedAt) && -1 <= generatedAt / PERIOD - validatedAt / PERIOD <= 1
    requires setup.secret.Some? && env.code == Otp(o.hmac, setup.secret.value, ToUint64(generatedAt) / PERIOD)
    ensures Run(o, SetupStep(Run(o, NewUser(start), before), setup).0, after).record.Some?
    ensures var w := Run(o, SetupStep(Run(o, NewUser(start), before), setup).0, after);
            var v := BeforeCheck(w, env).0;
            var m := MatchedCounter(o.hmac, setup.secret.value, env.code, (v.now + env.toFirst + env.toSecond) / 1000);
            VerifyStep(o, w, env).1 ==
              if !BeforeCheck(w, env).1 then ErrRateLimited
              else if LastUsed(Wait(v, env.toFirst), env.getFails) == m then Refused(ErrReused)
              else Valid(!w.record.value)
  {
    hide SetupStep, Step, Fits, Reenrols, BeforeCheck, CheckCode, Enrolled, Genuine, IsBackupCode;
    hide Otp, MatchedCounter, LastUsed;
    PlacedOverRun(o, NewUser(start), before);
    var u := Run(o, NewUser(start), before);
    SetupEnrols(u, setup);
    PlacedAfterSetup(u, setup);
    EnrolledOverRun(o, SetupStep(u, setup).0, after, setup.tag);
    SetupLeavesRecord(u, setup);
    RecordOverRun(o, SetupStep(u, setup).0, after);
    var w := Run(o, SetupStep(u, setup).0, after);
    AcceptsFreshCode(o, w, setup.tag, env, generatedAt);
  }

  lemma AcceptsFreshCode(o: Oracles, w: User, k: nat, env: CheckEnv, generatedAt: nat)
    requires Enrolled(w, k) && CheckFits(w, env) && AtMostOneFails(env.fails)
    requires w.record.Some? && !env.readFails && env.enable.Done?
    requires var validatedAt := (BeforeCheck(w, env).0.now + env.toFirst + env.toSecond) / 1000;
             IsInt64(validatedAt) && IsInt64(generatedAt) && -1 <= generatedAt / PERIOD - validatedAt / PERIOD <= 1
    requires env.code == Otp(o.hmac, w.book.splits[k].secret, ToUint64(generatedAt) / PERIOD)
    ensures var v := BeforeCheck(w, env).0;
            var validatedAt := (v.now + env.toFirst + env.toSecond) / 1000;
            var m := MatchedCounter(o.hmac, w.book.splits[k].secret, env.code, validatedAt);
            VerifyStep(o, w, env).1 ==
              if !BeforeCheck(w, env).1 then ErrRateLimited
              else if LastUsed(Wait(v, env.toFirst), env.getFails) == m then Refused(ErrReused)
              else Valid(!w.record.value)
  {
    hide BeforeCheck, CheckCode, Enrolled, IsBackupCode, Otp, MatchedCounter, LastUsed, LookUpThenValidate;
    EnrolledMeans(w, k);
    var v := BeforeCheck(w, env).0;
    BeforeCheckFrame(w, env);
    assert Enrolled(v, k) by { SameEnrolment(w, v, k); }
    NotABackupCode(env.code);
    VerifyUsesTheSecret(o, v, k, env);
    FreshCodePasses(o, v, w.book.splits[k].secret, env, generatedAt);
  }
}
