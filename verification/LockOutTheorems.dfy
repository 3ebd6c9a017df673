/** How a user can be locked out: 2FA is on, and no request can ever succeed again. */
module LockOutTheorems {
  import opened Common
  import opened Totp
  import opened Shamir
  import opened Combine
  import opened SharingTheorems
  import opened TwoFA
  import opened EnrolmentTheorems
  import opened RecordTheorems
  import opened NodeSecrecy
  import opened SampleRun

  /** Node i holds its own row. */
  predicate Holds(nodes: seq<Rows>, i: nat)
    requires i < |nodes|
  {
    i + 1 in nodes[i]
  }

  /** Two nodes at least hold their own rows. */
  predicate TwoHold(nodes: seq<Rows>)
    requires |nodes| == NODES
  {
    || (Holds(nodes, 0) && Holds(nodes, 1))
    || (Holds(nodes, 0) && Holds(nodes, 2))
    || (Holds(nodes, 1) && Holds(nodes, 2))
  }

  /** Some text of the form of a backup code matches an unused row. */
  ghost predicate SomeCodeWorks(o: Oracles, codes: map<Id, CodeRow>) {
    exists id, code :: id in Unused(codes) && IsBackupCode(code) && o.matches(codes[id].hash, code)
  }

  /** 2FA is on, fewer than two shares are left, and no backup code works. */
  ghost predicate LockedOut(o: Oracles, u: User) {
    |u.nodes| == NODES && u.record == Some(true) && !TwoHold(u.nodes) && !SomeCodeWorks(o, u.codes)
  }

  // ----- Locked out once, locked out for ever -----

  lemma OneShareIsNotEnough(nodes: seq<Rows>, fails: seq<bool>, order: seq<nat>)
    requires |nodes| == |fails| == NODES && IsOrder(order) && !TwoHold(nodes)
    ensures Retrieve(nodes, fails, order).None?
  {
    hide Answer;
    ArrivedOfThree(nodes, fails, order);
  }

  lemma NoCodeMatches(o: Oracles, codes: map<Id, CodeRow>, scan: seq<Id>, code: string)
    requires !SomeCodeWorks(o, codes) && IsBackupCode(code) && ScanFits(codes, scan)
    ensures FirstMatch(o, codes, scan, code).None?
  {
    hide IsBackupCode;
    assert forall id :: id in scan ==> id in codes;
    FirstMatchIsScanned(o, codes, scan, code);
  }

  lemma LockedCheck(o: Oracles, u: User, env: CheckEnv, verifying: bool)
    requires LockedOut(o, u) && CheckFits(u, env)
    ensures CheckCode(o, u, env, verifying).0 == u && !CheckCode(o, u, env, verifying).1.Accepted?
  {
    hide Retrieve, FirstMatch, ScanFits, IsBackupCode, TwoHold, SomeCodeWorks;
    OneShareIsNotEnough(u.nodes, env.fails, env.order);
    if IsBackupCode(env.code) {
      NoCodeMatches(o, u.codes, env.scan, env.code);
    }
  }

  /** A locked-out user stays so, and every request is refused. */
  lemma LockedStep(o: Oracles, u: User, op: Op)
    requires LockedOut(o, u) && Fits(u, op)
    ensures LockedOut(o, Step(o, u, op))
    ensures op.Setup? ==> SetupStep(u, op.setup).1 != SetupDone
    ensures op.Verify? ==> !VerifyStep(o, u, op.check).1.Valid?
    ensures op.Disable? ==> DisableStep(o, u, op.check).1 != Disabled
  {
    hide CheckCode, BeforeCheck, Remove, TwoHold, SomeCodeWorks;
    match op
    case Verify(env) =>
      BeforeCheckFrame(u, env);
      LockedCheck(o, BeforeCheck(u, env).0, env, true);
    case Disable(env) =>
      BeforeCheckFrame(u, env);
      LockedCheck(o, BeforeCheck(u, env).0, env, false);
    case _ =>
  }

  /** No run of requests ends a lock-out, and none of them succeeds. */
  lemma {:induction false} LockedForEver(o: Oracles, u: User, ops: seq<Op>, last: Op)
    requires LockedOut(o, u) && FitsRun(o, u, ops) && Fits(Run(o, u, ops), last)
    ensures var v := Run(o, u, ops);
            && LockedOut(o, v)
            && (last.Setup? ==> SetupStep(v, last.setup).1 != SetupDone)
            && (last.Verify? ==> !VerifyStep(o, v, last.check).1.Valid?)
            && (last.Disable? ==> DisableStep(o, v, last.check).1 != Disabled)
    decreases |ops|
  {
    hide Step, Fits, LockedOut, SetupStep, VerifyStep, DisableStep;
    if ops == [] {
      LockedStep(o, u, last);
    } else {
      LockedNodes(o, u);
      StepNodes(o, u, ops[0]);
      LockedStep(o, u, ops[0]);
      LockedForEver(o, Step(o, u, ops[0]), ops[1..], last);
    }
  }

  lemma LockedNodes(o: Oracles, u: User)
    requires LockedOut(o, u)
    ensures |u.nodes| == NODES
  {}

  // ----- Nobody else is locked out -----

  lemma {:induction false} Enumeration(ids: set<Id>) returns (scan: seq<Id>)
    ensures forall id :: id in scan <==> id in ids
    ensures forall i, j :: 0 <= i < j < |scan| ==> scan[i] != scan[j]
    decreases |ids|
  {
    if ids == {} {
      scan := [];
    } else {
      var id :| id in ids;
      var rest := Enumeration(ids - {id});
      scan := [id] + rest;
    }
  }

  /** A request with this code during which no call fails but those to Redis, and no time passes. */
  function Attempt(code: string, scan: seq<Id>): CheckEnv {
    CheckEnv(code, false, 0, 0, 0, 0, 0, IncrFails(false), false, scan, Done,
             [false, false, false], [0, 1, 2], true, Done, Done, ALL_DONE, Done, Done, Done)
  }

  lemma AcceptedAttemptDisables(o: Oracles, u: User, code: string, scan: seq<Id>)
    requires |u.nodes| == NODES && u.record == Some(true) && ScanFits(u.codes, scan)
    requires CheckCode(o, BeforeCheck(u, Attempt(code, scan)).0, Attempt(code, scan), false).1.Accepted?
    ensures CheckFits(u, Attempt(code, scan)) && DisableStep(o, u, Attempt(code, scan)).1 == Disabled
  {
    hide CheckCode, DeleteEverywhere, ScanFits;
    var env := Attempt(code, scan);
    BeforeCheckFrame(u, env);
    assert BeforeCheck(u, env).1;
    hide BeforeCheck;
    CheckFrame(o, BeforeCheck(u, env).0, env, false);
  }

  /** Two shares of 20 bytes combine into some secret, genuine or not. */
  lemma TwoSharesRecover(u: User)
    requires |u.nodes| == NODES && RowsSized(u.nodes) && TwoHold(u.nodes)
    ensures var shares := Retrieve(u.nodes, [false, false, false], [0, 1, 2]);
            shares.Some? && CombineSpec(shares.value).Ok?
  {
    FirstTwoShares(u.nodes, [false, false, false], [0, 1, 2]);
    hide Retrieve, CombineSpec, Answer;
    var i := if Holds(u.nodes, 0) then 0 else 1;
    var j := if Holds(u.nodes, 0) && Holds(u.nodes, 1) then 1 else 2;
    AnswersCombine(u.nodes, i, j);
  }

  lemma FirstTwoShares(nodes: seq<Rows>, fails: seq<bool>, order: seq<nat>)
    requires |nodes| == |fails| == NODES && TwoHold(nodes)
    requires !fails[0] && !fails[1] && !fails[2] && order == [0, 1, 2]
    ensures var i := if Holds(nodes, 0) then 0 else 1;
            var j := if Holds(nodes, 0) && Holds(nodes, 1) then 1 else 2;
            Retrieve(nodes, fails, order) == Some([Answer(nodes, i), Answer(nodes, j)])
  {
    hide Arrived, Answer;
    ArrivedOfThree(nodes, fails, order);
    var shares := Arrived(nodes, fails, order);
    if !Holds(nodes, 0) {
      assert shares[..2] == [Answer(nodes, 1), Answer(nodes, 2)];
    } else if Holds(nodes, 1) {
      assert shares[..2] == [Answer(nodes, 0), Answer(nodes, 1)];
    } else {
      assert shares[..2] == [Answer(nodes, 0), Answer(nodes, 2)];
    }
  }

  lemma AnswersCombine(nodes: seq<Rows>, i: nat, j: nat)
    requires |nodes| == NODES && RowsSized(nodes) && i < j < NODES && Holds(nodes, i) && Holds(nodes, j)
    ensures CombineSpec([Answer(nodes, i), Answer(nodes, j)]).Ok?
  {
    hide Secret, ShareIndex;
    ShareIndexDistinct(i, j);
    ShareIndexDistinct(j, i);
    InputErrorMeaning([Answer(nodes, i), Answer(nodes, j)]);
  }

  /** The code of the recovered secret for the current time step is accepted. */
  lemma CurrentCodeDisables(o: Oracles, u: User, scan: seq<Id>) returns (code: string)
    requires |u.nodes| == NODES && RowsSized(u.nodes) && TwoHold(u.nodes)
    requires u.record == Some(true) && ScanFits(u.codes, scan)
    ensures CheckFits(u, Attempt(code, scan)) && DisableStep(o, u, Attempt(code, scan)).1 == Disabled
  {
    hide Retrieve, CombineSpec, Otp, IsBackupCode, TwoHold, RowsSized, ScanFits, DisableStep;
    TwoSharesRecover(u);
    var secret := CombineSpec(Retrieve(u.nodes, [false, false, false], [0, 1, 2]).value).value;
    code := Otp(o.hmac, secret, ToUint64(UnixTime(u) / PERIOD));
    NotABackupCode(code);
    AcceptedAttemptDisables(o, u, code, scan);
  }

  lemma BackupCodeDisables(o: Oracles, u: User, scan: seq<Id>) returns (code: string)
    requires |u.nodes| == NODES && SomeCodeWorks(o, u.codes)
    requires u.record == Some(true) && ScanFits(u.codes, scan)
    ensures CheckFits(u, Attempt(code, scan)) && DisableStep(o, u, Attempt(code, scan)).1 == Disabled
  {
    hide IsBackupCode, DisableStep, Retrieve;
    var id;
    id, code :| id in Unused(u.codes) && IsBackupCode(code) && o.matches(u.codes[id].hash, code);
    FirstMatchIsScanned(o, u.codes, scan, code);
    hide FirstMatch;
    AcceptedAttemptDisables(o, u, code, scan);
  }

  lemma NotLockedCanDisable(o: Oracles, u: User) returns (env: CheckEnv)
    requires |u.nodes| == NODES && RowsSized(u.nodes) && u.record == Some(true) && !LockedOut(o, u)
    ensures CheckFits(u, env) && DisableStep(o, u, env).1 == Disabled
  {
    hide TwoHold, SomeCodeWorks, RowsSized, CheckFits, DisableStep;
    var scan := Enumeration(Unused(u.codes));
    var code: string;
    if TwoHold(u.nodes) {
      code := CurrentCodeDisables(o, u, scan);
    } else {
      code := BackupCodeDisables(o, u, scan);
    }
    env := Attempt(code, scan);
  }

  /** The lock-out, exactly: in every reachable state with 2FA on, the user is locked out if and only
      if no Disable can succeed now, and if and only if none can after any further requests. */
  lemma LockOutIsExact(o: Oracles, start: Time, ops: seq<Op>)
    requires FitsRun(o, NewUser(start), ops) && Run(o, NewUser(start), ops).record == Some(true)
    ensures var u := Run(o, NewUser(start), ops);
            && (LockedOut(o, u) <==> forall env :: CheckFits(u, env) ==> DisableStep(o, u, env).1 != Disabled)
            && (LockedOut(o, u) <==> forall later, env :: FitsRun(o, u, later) && CheckFits(Run(o, u, later), env) ==>
                                       DisableStep(o, Run(o, u, later), env).1 != Disabled)
  {
    hide Step, Fits, LockedOut, RowsSized, CheckFits, DisableStep;
    assert RowsSized(NewUser(start).nodes) by { NothingStored(start); }
    RunSizes(o, NewUser(start), ops);
    var u := Run(o, NewUser(start), ops);
    if LockedOut(o, u) {
      forall later, env | FitsRun(o, u, later) && CheckFits(Run(o, u, later), env)
        ensures DisableStep(o, Run(o, u, later), env).1 != Disabled
      {
        LockedDisable(o, u, later, env);
      }
      NoRequests(o, u, []);
    } else {
      var env := NotLockedCanDisable(o, u);
      NoRequests(o, u, []);
    }
  }

  lemma LockedDisable(o: Oracles, u: User, later: seq<Op>, env: CheckEnv)
    requires LockedOut(o, u) && FitsRun(o, u, later) && CheckFits(Run(o, u, later), env)
    ensures DisableStep(o, Run(o, u, later), env).1 != Disabled
  {
    hide Step, LockedOut, FitsRun, Run, CheckFits, DisableStep;
    LockedForEver(o, u, later, Disable(env));
  }

  lemma NothingStored(start: Time)
    ensures RowsSized(NewUser(start).nodes)
  {}

  lemma NoRequests(o: Oracles, u: User, none: seq<Op>)
    requires |u.nodes| == NODES && none == []
    ensures FitsRun(o, u, none) && Run(o, u, none) == u
  {}

  // ----- What locks a user out -----

  /** Node i keeps its row: it has one, and its delete has no effect. */
  predicate Keeps(u: User, env: CheckEnv, i: nat)
    requires |u.nodes| == NODES == |env.deletes| && i < NODES
  {
    Holds(u.nodes, i) && env.deletes[i].FailedBefore?
  }

  /** A Disable whose code is accepted locks the user out exactly when at most one node keeps its row,
      no backup code works after it, and it does not get to delete the record. */
  lemma AcceptedDisableLocks(o: Oracles, u: User, env: CheckEnv)
    requires |u.nodes| == NODES && CheckFits(u, env)
    requires !env.readFails && u.record == Some(true) && BeforeCheck(u, env).1
    requires CheckCode(o, BeforeCheck(u, env).0, env, false).1.Accepted?
    ensures var codes := CheckCode(o, BeforeCheck(u, env).0, env, false).0.codes;
            LockedOut(o, DisableStep(o, u, env).0) <==>
              && !(Keeps(u, env, 0) && Keeps(u, env, 1)) && !(Keeps(u, env, 0) && Keeps(u, env, 2))
              && !(Keeps(u, env, 1) && Keeps(u, env, 2))
              && (!SomeCodeWorks(o, codes) || (AllDone(env.deletes) && !env.deleteCodes.FailedBefore?))
              && (!AllDone(env.deletes) || !env.deleteCodes.Done? || env.deleteRecord.FailedBefore?)
  {
    hide CheckCode, BeforeCheck, AllDone, Remove, SomeCodeWorks;
    BeforeCheckFrame(u, env);
    var v := BeforeCheck(u, env).0;
    CheckFrame(o, v, env, false);
    RemoveLocks(o, CheckCode(o, v, env, false).0, env);
  }

  lemma RemoveLocks(o: Oracles, u: User, env: CheckEnv)
    requires |u.nodes| == NODES && |env.deletes| == NODES && u.record == Some(true)
    ensures LockedOut(o, Remove(u, env).0) <==>
              && !(Keeps(u, env, 0) && Keeps(u, env, 1)) && !(Keeps(u, env, 0) && Keeps(u, env, 2))
              && !(Keeps(u, env, 1) && Keeps(u, env, 2))
              && (!SomeCodeWorks(o, u.codes) || (AllDone(env.deletes) && !env.deleteCodes.FailedBefore?))
              && (!AllDone(env.deletes) || !env.deleteCodes.Done? || env.deleteRecord.FailedBefore?)
  {
    hide AllDone, DeleteEverywhere, SomeCodeWorks, Holds;
    NoRowsNoCodes(o);
    KeptRows(u, env);
    assert Remove(u, env).0.nodes == DeleteEverywhere(u.nodes, env.deletes);
  }

  lemma NoRowsNoCodes(o: Oracles)
    ensures !SomeCodeWorks(o, map[])
  {}

  lemma KeptRows(u: User, env: CheckEnv)
    requires |u.nodes| == NODES == |env.deletes|
    ensures forall i :: 0 <= i < NODES ==> (Holds(DeleteEverywhere(u.nodes, env.deletes), i) <==> Keeps(u, env, i))
  {}

  // ----- Runs that lock the user out -----

  /** A Disable with a backup code of which only the given deletions fail, without effect. */
  function LockingDisable(deletes: seq<Outcome>, deleteRecord: Outcome): CheckEnv {
    SampleCheck(0, 0).(code := "1234-5678", deletes := deletes, deleteRecord := deleteRecord)
  }

  const RECORD_FAILS: CheckEnv := LockingDisable(ALL_DONE, FailedBefore)
  const ONE_NODE_DOWN: CheckEnv := LockingDisable([Done, Done, FailedBefore], Done)

  lemma RowOfFirst(ids: seq<Id>, hashes: seq<string>)
    requires |ids| == |hashes| > 0
    ensures ids[0] in NewCodes(ids, hashes) && NewCodes(ids, hashes)[ids[0]].hash == hashes[0]
  {}

  lemma FirstRowMatches(o: Oracles, codes: map<Id, CodeRow>, scan: seq<Id>, code: string)
    requires scan != [] && (forall id :: id in scan ==> id in codes) && o.matches(codes[scan[0]].hash, code)
    ensures FirstMatch(o, codes, scan, code) == Some(scan[0])
  {}

  lemma LockingCode()
    ensures IsBackupCode("1234-5678")
  {}

  /** The first row is the only one that matches, and it is used now. */
  lemma SampleBackupCode(u: User, deletes: seq<Outcome>, deleteRecord: Outcome)
    requires |u.nodes| == NODES == |deletes| && u.codes == NewCodes(SAMPLE_IDS, SAMPLE_IDS)
    ensures var env := LockingDisable(deletes, deleteRecord);
            && CheckFits(u, env) && CheckCode(SAMPLE_ORACLES, u, env, false).1.Accepted?
            && !SomeCodeWorks(SAMPLE_ORACLES, CheckCode(SAMPLE_ORACLES, u, env, false).0.codes)
  {
    hide NewCodes, FirstMatch, IsBackupCode, Retrieve, SomeCodeWorks;
    SampleScanFits(u);
    RowOfFirst(SAMPLE_IDS, SAMPLE_IDS);
    FirstRowMatches(SAMPLE_ORACLES, u.codes, SAMPLE_IDS, "1234-5678");
    LockingCode();
    LastCodeUsed(u.codes);
  }

  lemma LastCodeUsed(codes: map<Id, CodeRow>)
    requires codes == NewCodes(SAMPLE_IDS, SAMPLE_IDS) && "a" in codes
    ensures !SomeCodeWorks(SAMPLE_ORACLES, MarkUsed(codes, "a"))
  {
    hide IsBackupCode, NewCodes;
    forall id | id in codes
      ensures codes[id].hash == id
    {
      HashIsId(SAMPLE_IDS, id);
    }
  }

  lemma {:induction false} HashIsId(ids: seq<Id>, id: Id)
    requires id in NewCodes(ids, ids)
    ensures NewCodes(ids, ids)[id].hash == id
  {
    if ids[0] != id {
      assert id in ids[1..];
      HashIsId(ids[1..], id);
    }
  }

  lemma LockingStep(u: User, deletes: seq<Outcome>, deleteRecord: Outcome)
    requires |u.nodes| == NODES && u.codes == NewCodes(SAMPLE_IDS, SAMPLE_IDS) && u.record == Some(true)
    requires u.now == 30_000 && u.limit == Some(Limit(1, Some(330_000)))
    requires |deletes| == NODES && !deletes[0].FailedBefore? && !deletes[1].FailedBefore?
    requires !AllDone(deletes) || deleteRecord.FailedBefore?
    ensures var env := LockingDisable(deletes, deleteRecord);
            CheckFits(u, env) && LockedOut(SAMPLE_ORACLES, DisableStep(SAMPLE_ORACLES, u, env).0)
  {
    hide CheckCode, NewCodes, DisableStep, LockedOut, ScanFits, SAMPLE_ORACLES, SomeCodeWorks, AllDone;
    var env := LockingDisable(deletes, deleteRecord);
    assert BeforeCheck(u, env).1;
    BeforeCheckFrame(u, env);
    SampleBackupCode(u, deletes, deleteRecord);
    SampleBackupCode(BeforeCheck(u, env).0, deletes, deleteRecord);
    AcceptedDisableLocks(SAMPLE_ORACLES, u, env);
  }

  /** A new user sets 2FA up and verifies the first code, without any failure, and disables it with
      the only backup code that works. If just the deletion of the record fails, or if just one node
      is down, the user is locked out. */
  lemma UserGetsLockedOut()
    ensures SetupFits(NewUser(30_000), SAMPLE_SETUP)
    ensures var u := SetupStep(NewUser(30_000), SAMPLE_SETUP).0;
            && |u.nodes| == NODES && CheckFits(u, SampleCheck(0, 0))
            && var v := VerifyStep(SAMPLE_ORACLES, u, SampleCheck(0, 0)).0;
               && |v.nodes| == NODES && CheckFits(v, RECORD_FAILS) && CheckFits(v, ONE_NODE_DOWN)
               && LockedOut(SAMPLE_ORACLES, DisableStep(SAMPLE_ORACLES, v, RECORD_FAILS).0)
               && LockedOut(SAMPLE_ORACLES, DisableStep(SAMPLE_ORACLES, v, ONE_NODE_DOWN).0)
  {
    hide SetupStep, VerifyStep, DisableStep, CheckFits, SetupFits, Enrolled, NewCodes, LockedOut;
    hide SAMPLE_ORACLES, SAMPLE_SETUP;
    SampleSetup(30_000);
    var u := SetupStep(NewUser(30_000), SAMPLE_SETUP).0;
    EnrolledMeans(u, 0);
    SampleVerify(u);
    var v := VerifyStep(SAMPLE_ORACLES, u, SampleCheck(0, 0)).0;
    LockingStep(v, ALL_DONE, FailedBefore);
    assert !ONE_NODE_DOWN.deletes[2].Done?;
    LockingStep(v, ONE_NODE_DOWN.deletes, Done);
  }
}
