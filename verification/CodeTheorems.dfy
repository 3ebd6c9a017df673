/** Good codes work: one-time codes and backup codes over every run after a successful Setup. */
module CodeTheorems {
  import opened Common
  import opened Totp
  import opened Validation
  import opened Shamir
  import opened Combine
  import opened TwoFA
  import opened EnrolmentTheorems
  import opened RecordTheorems
  import opened AnswerTheorems

  // ----- One-time codes in Disable -----

  lemma DisablesWithFreshCode(o: Oracles, w: User, k: nat, env: CheckEnv, generatedAt: nat)
    requires Enrolled(w, k) && CheckFits(w, env) && AtMostOneFails(env.fails)
    requires w.record == Some(true) && !env.readFails
    requires AllDone(env.deletes) && env.deleteCodes.Done? && env.deleteRecord.Done?
    requires var validatedAt := (BeforeCheck(w, env).0.now + env.toFirst) / 1000;
             IsInt64(validatedAt) && IsInt64(generatedAt) && -1 <= generatedAt / PERIOD - validatedAt / PERIOD <= 1
    requires env.code == Otp(o.hmac, w.book.splits[k].secret, ToUint64(generatedAt) / PERIOD)
    ensures var v := BeforeCheck(w, env).0;
            var m := MatchedCounter(o.hmac, w.book.splits[k].secret, env.code, (v.now + env.toFirst) / 1000);
            m.Some? && DisableStep(o, w, env).1 ==
              if !BeforeCheck(w, env).1 then ErrRateLimited
              else if FoundAt(v, env.getFails, v.now + env.toFirst + env.toSecond) == m then Refused(ErrReused)
              else Disabled
  {
    hide BeforeCheck, CheckCode, DisableStep, Enrolled, IsBackupCode, Otp, MatchedCounter, FoundAt;
    hide Retrieve, CombineSpec, AllDone;
    EnrolledMeans(w, k);
    var v := BeforeCheck(w, env).0;
    BeforeCheckFrame(w, env);
    assert Enrolled(v, k) by { SameEnrolment(w, v, k); }
    NotABackupCode(env.code);
    RetrievalRecovers(v, k, env.fails, env.order);
    OneTimeAnswers(o, v, env, false);
    GeneratedCodeAccepted(o.hmac, w.book.splits[k].secret, generatedAt, (v.now + env.toFirst) / 1000);
    DisableAnswers(o, w, env);
  }

  /** In every run: from a successful Setup on, until the shares are touched again, whatever else is
      requested and whatever fails, Disable of an enabled record with at most one failing node answers
      a code generated from the secret of that Setup at most one time step away from the validation
      with success, unless the attempt is rate-limited, the counter it matches is the one found at the
      look-up, or a database call or deletion of the request itself fails. */
  lemma FreshCodeDisables(o: Oracles, start: Time, before: seq<Op>, setup: SetupEnv, after: seq<Op>,
                          env: CheckEnv, generatedAt: nat)
    requires FitsRun(o, NewUser(start), before)
    requires var u := Run(o, NewUser(start), before);
             SetupFits(u, setup) && SetupStep(u, setup).1 == SetupDone && |SetupStep(u, setup).0.nodes| == NODES
             && FitsRun(o, SetupStep(u, setup).0, after) && NoReenrolment(o, SetupStep(u, setup).0, after)
    requires var w := Run(o, SetupStep(Run(o, NewUser(start), before), setup).0, after);
             && CheckFits(w, env) && AtMostOneFails(env.fails) && w.record == Some(true) && !env.readFails
             && AllDone(env.deletes) && env.deleteCodes.Done? && env.deleteRecord.Done?
    requires var w := Run(o, SetupStep(Run(o, NewUser(start), before), setup).0, after);
             var validatedAt := (BeforeCheck(w, env).0.now + env.toFirst) / 1000;
             IsInt64(validatedAt) && IsInt64(generatedAt) && -1 <= generatedAt / PERIOD - validatedAt / PERIOD <= 1
    requires setup.secret.Some? && env.code == Otp(o.hmac, setup.secret.value, ToUint64(generatedAt) / PERIOD)
    ensures var w := Run(o, SetupStep(Run(o, NewUser(start), before), setup).0, after);
            var v := BeforeCheck(w, env).0;
            var m := MatchedCounter(o.hmac, setup.secret.value, env.code, (v.now + env.toFirst) / 1000);
            m.Some? && DisableStep(o, w, env).1 ==
              if !BeforeCheck(w, env).1 then ErrRateLimited
              else if FoundAt(v, env.getFails, v.now + env.toFirst + env.toSecond) == m then Refused(ErrReused)
              else Disabled
  {
    hide SetupStep, Step, Fits, Reenrols, BeforeCheck, DisableStep, Enrolled, Genuine, IsBackupCode;
    hide Otp, MatchedCounter, FoundAt, AllDone;
    PlacedOverRun(o, NewUser(start), before);
    var u := Run(o, NewUser(start), before);
    SetupEnrols(u, setup);
    PlacedAfterSetup(u, setup);
    EnrolledOverRun(o, SetupStep(u, setup).0, after, setup.tag);
    DisablesWithFreshCode(o, Run(o, SetupStep(u, setup).0, after), setup.tag, env, generatedAt);
  }

  // ----- Backup codes -----

  /** A step leaves the hash of every row that it leaves at all. */
  lemma HashStays(o: Oracles, u: User, op: Op, id: Id)
    requires |u.nodes| == NODES && Fits(u, op)
    requires id in u.codes && id in Step(o, u, op).codes
    ensures Step(o, u, op).codes[id].hash == u.codes[id].hash
  {
    hide SetupStep, CheckCode, BeforeCheck, DeleteEverywhere, AllDone;
    match op
    case Setup(env) => SetupKeepsRows(u, env);
    case Verify(env) =>
      BeforeCheckFrame(u, env);
      CheckKeepsHashes(o, BeforeCheck(u, env).0, env, true);
    case Disable(env) =>
      BeforeCheckFrame(u, env);
      CheckKeepsHashes(o, BeforeCheck(u, env).0, env, false);
    case Tick(_) =>
  }

  lemma SetupKeepsRows(u: User, env: SetupEnv)
    requires |u.nodes| == NODES && SetupFits(u, env)
    ensures var v := SetupStep(u, env).0; forall id :: id in u.codes ==> id in v.codes && v.codes[id] == u.codes[id]
  {
    hide SplitSpec, Distribute, AllStored, DeleteEverywhere, HashFor;
  }

  lemma CheckKeepsHashes(o: Oracles, u: User, env: CheckEnv, verifying: bool)
    requires |u.nodes| == NODES && CheckFits(u, env)
    ensures var v := CheckCode(o, u, env, verifying).0;
            forall id :: id in u.codes ==> id in v.codes && v.codes[id].hash == u.codes[id].hash
  {
    hide MatchedCounter, CombineSpec, Retrieve, FirstMatch, IsBackupCode;
  }

  /** The row is there in every state of the run. */
  ghost predicate RowHeld(o: Oracles, u: User, ops: seq<Op>, id: Id)
    requires |u.nodes| == NODES && FitsRun(o, u, ops)
    decreases |ops|
  {
    id in u.codes &&
    (ops == [] ||
     (StepNodes(o, u, ops[0]);
      RowHeld(o, Step(o, u, ops[0]), ops[1..], id)))
  }

  lemma {:induction false} HashOverRun(o: Oracles, u: User, ops: seq<Op>, id: Id)
    requires |u.nodes| == NODES && FitsRun(o, u, ops) && RowHeld(o, u, ops, id)
    ensures id in Run(o, u, ops).codes && Run(o, u, ops).codes[id].hash == u.codes[id].hash
    decreases |ops|
  {
    hide Step, Fits;
    if ops != [] {
      StepNodes(o, u, ops[0]);
      HashStays(o, u, ops[0], id);
      HashOverRun(o, Step(o, u, ops[0]), ops[1..], id);
    }
  }

  /** Exactly one row, unused before and matching the code, is used now. */
  ghost predicate OneRowUsed(o: Oracles, before: map<Id, CodeRow>, after: map<Id, CodeRow>, code: string) {
    exists id :: id in Unused(before) && o.matches(before[id].hash, code)
                 && after == before[id := CodeRow(before[id].hash, true)]
  }

  lemma UnusedRowWorks(o: Oracles, w: User, env: CheckEnv, id: Id)
    requires |w.nodes| == NODES && CheckFits(w, env) && IsBackupCode(env.code)
    requires id in w.codes && !w.codes[id].used && o.matches(w.codes[id].hash, env.code)
    requires !env.readFails && w.record.Some? && !env.rowsFail && env.mark.Done?
    ensures VerifyStep(o, w, env).1 == if BeforeCheck(w, env).1 then Valid(false) else ErrRateLimited
    ensures BeforeCheck(w, env).1 ==> OneRowUsed(o, w.codes, VerifyStep(o, w, env).0.codes, env.code)
    ensures w.record == Some(true) && AllDone(env.deletes) && env.deleteCodes.Done? && env.deleteRecord.Done? ==>
              DisableStep(o, w, env).1 == if BeforeCheck(w, env).1 then Disabled else ErrRateLimited
  {
    hide BeforeCheck, CheckCode, DisableStep, IsBackupCode, AllDone;
    var v := BeforeCheck(w, env).0;
    BeforeCheckFrame(w, env);
    assert id in Unused(v.codes);
    BackupAnswers(o, v, env, true);
    BackupAnswers(o, v, env, false);
    VerifyAnswers(o, w, env);
    DisableAnswers(o, w, env);
  }

  /** In every run: after a successful Setup, whatever else is requested and whatever fails, as long as
      row i of its batch is there and not used, the i-th backup code makes Verify succeed, with one
      matching row used for it, and an enabled user's Disable complete, unless the attempt is
      rate-limited or a database call or deletion of the request itself fails. */
  lemma BackupCodeWorks(o: Oracles, start: Time, before: seq<Op>, setup: SetupEnv, after: seq<Op>, env: CheckEnv,
                        i: nat)
    requires FitsRun(o, NewUser(start), before)
    requires var u := Run(o, NewUser(start), before);
             SetupFits(u, setup) && SetupStep(u, setup).1 == SetupDone && |SetupStep(u, setup).0.nodes| == NODES
             && FitsRun(o, SetupStep(u, setup).0, after)
    requires i < 10 && |setup.ids| == 10
    requires RowHeld(o, SetupStep(Run(o, NewUser(start), before), setup).0, after, setup.ids[i])
    requires var w := Run(o, SetupStep(Run(o, NewUser(start), before), setup).0, after);
             && setup.ids[i] in w.codes && !w.codes[setup.ids[i]].used
             && CheckFits(w, env) && w.record.Some? && !env.readFails && !env.rowsFail && env.mark.Done?
    requires setup.hashes.Some? && |setup.hashes.value| == 10
    requires IsBackupCode(env.code) && o.matches(setup.hashes.value[i], env.code)
    ensures var w := Run(o, SetupStep(Run(o, NewUser(start), before), setup).0, after);
            var passed := BeforeCheck(w, env).1;
            && VerifyStep(o, w, env).1 == (if passed then Valid(false) else ErrRateLimited)
            && (passed ==> OneRowUsed(o, w.codes, VerifyStep(o, w, env).0.codes, env.code))
            && (w.record == Some(true) && AllDone(env.deletes) && env.deleteCodes.Done? && env.deleteRecord.Done? ==>
                  DisableStep(o, w, env).1 == if passed then Disabled else ErrRateLimited)
  {
    hide SetupStep, Step, Fits, BeforeCheck, VerifyStep, DisableStep, IsBackupCode, OneRowUsed, AllDone;
    var u := Run(o, NewUser(start), before);
    SetupAnswers(u, setup);
    var v := SetupStep(u, setup).0;
    assert v.codes[setup.ids[i]].hash == setup.hashes.value[i];
    HashOverRun(o, v, after, setup.ids[i]);
    UnusedRowWorks(o, Run(o, v, after), env, setup.ids[i]);
  }
}
