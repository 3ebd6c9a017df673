/** When Setup, Verify and Disable give which answer, and what they change. */
module AnswerTheorems {
  import opened Common
  import opened Validation
  import opened Shamir
  import opened Combine
  import opened TwoFA

  // ----- Setup -----

  /** Row i of the batch is in the table, with its hash, and not used. */
  ghost predicate BatchStored(codes: map<Id, CodeRow>, ids: seq<Id>, hashes: seq<string>)
    requires |ids| == |hashes|
  {
    forall i :: 0 <= i < |ids| ==> ids[i] in codes && codes[ids[i]] == CodeRow(hashes[i], false)
  }

  /** Rows that are not of the batch are as before. */
  ghost predicate OthersKept(before: map<Id, CodeRow>, after: map<Id, CodeRow>, ids: seq<Id>) {
    forall id :: id !in ids ==> (id in after <==> id in before) && (id in before ==> after[id] == before[id])
  }

  lemma NewBatch(codes: map<Id, CodeRow>, ids: seq<Id>, hashes: seq<string>)
    requires |ids| == |hashes|
    requires forall i, j :: 0 <= i < j < |ids| ==> ids[i] != ids[j]
    ensures BatchStored(codes + NewCodes(ids, hashes), ids, hashes)
    ensures OthersKept(codes, codes + NewCodes(ids, hashes), ids)
  {
    hide HashFor;
    forall i | 0 <= i < |ids|
      ensures HashFor(ids, hashes, ids[i]) == hashes[i]
    {
      HashAt(ids, hashes, i);
    }
  }

  /** Setup gets as far as sending the shares. */
  ghost predicate Sends(u: User, env: SetupEnv)
    requires SetupFits(u, env)
  {
    && !env.readFails && u.record != Some(true)
    && env.secret.Some? && forall b :: 0 <= b < |env.random| ==> env.random[b].Some?
  }

  /** Every node stores its share. */
  ghost predicate AllTake(u: User, env: SetupEnv)
    requires |u.nodes| == |env.stores| == NODES
  {
    forall i :: 0 <= i < NODES ==> i + 1 !in u.nodes[i] && env.stores[i].Done?
  }

  /** When Setup succeeds. */
  ghost predicate SetupWorks(u: User, env: SetupEnv)
    requires |u.nodes| == NODES && SetupFits(u, env)
  {
    && Sends(u, env) && AllTake(u, env)
    && (u.record.None? ==> env.create.Done?)
    && env.hashes.Some? && env.storeCodes.Done?
  }

  /** The answers of Setup, and what a success changes: the record is there, not enabled, and the
      batch is stored with its hashes; nothing else of the codes, the counters or the time changes. */
  lemma SetupAnswers(u: User, env: SetupEnv)
    requires |u.nodes| == NODES && SetupFits(u, env)
    ensures var (v, reply) := SetupStep(u, env);
            && (reply == ErrAlreadyEnabled <==> !env.readFails && u.record == Some(true))
            && (reply == SetupDone <==> SetupWorks(u, env))
            && v.now == u.now && v.limit == u.limit && v.otp == u.otp
            && (reply == SetupDone ==>
                  && v.record == Some(false)
                  && BatchStored(v.codes, env.ids, env.hashes.value) && OthersKept(u.codes, v.codes, env.ids))
            && (reply != SetupDone ==> v.codes == u.codes || env.storeCodes == FailedAfter)
            && (reply == ErrAlreadyEnabled || env.readFails ==> v == u)
  {
    hide SplitValues, Distribute, DeleteEverywhere, NewCodes, BatchStored, OthersKept;
    if env.hashes.Some? {
      NewBatch(u.codes, env.ids, env.hashes.value);
    }
    assert u.record.Some? && !u.record.value ==> u.record == Some(false);
  }

  /** The rows of node i once its share was sent: a row of that index stays as it is. */
  ghost function Sent(rows: Rows, i: nat, row: StoredShare, o: Outcome): Rows {
    if i + 1 in rows || o.FailedBefore? then rows else rows[i + 1 := row]
  }

  lemma SplitGives(env: SetupEnv)
    requires env.secret.Some? && |env.secret.value| == 20 && RandomFits(env.random, 20, THRESHOLD)
    ensures var r := SplitSpec(env.secret.value, NODES, THRESHOLD, env.random);
            (r.Ok? <==> forall b :: 0 <= b < |env.random| ==> env.random[b].Some?) && (r.Ok? ==> |r.value| == NODES)
  {
    hide SplitValues;
  }

  /** What Setup leaves on the nodes, whatever fails: each share goes to its own node, and unless all
      are stored every node is emptied, as far as its cleanup works. */
  lemma SetupNodes(u: User, env: SetupEnv)
    requires |u.nodes| == NODES && SetupFits(u, env)
    ensures var v := SetupStep(u, env).0;
            if !Sends(u, env) then v.nodes == u.nodes
            else
              var r := SplitSpec(env.secret.value, NODES, THRESHOLD, env.random);
              && r.Ok? && |r.value| == |v.nodes| == NODES
              && forall i :: 0 <= i < NODES ==>
                   v.nodes[i] == if !AllTake(u, env) && !env.cleanups[i].FailedBefore? then map[]
                                 else Sent(u.nodes[i], i, StoredShare(env.tag, r.value[i].data), env.stores[i])
  {
    hide SplitSpec, NewCodes, AddRecord;
    if env.secret.Some? {
      SplitGives(env);
    }
    if Sends(u, env) {
      var shares := SplitSpec(env.secret.value, NODES, THRESHOLD, env.random).value;
      var splits := u.book.splits[env.tag := SplitRecord(env.secret.value, shares)];
      var nodes := Distribute(u.nodes, env.tag, shares, env.stores);
      AddRecordFrame(u.(book := u.book.(splits := splits), nodes := nodes), env);
    }
  }

  lemma AddRecordFrame(u: User, env: SetupEnv)
    requires |env.ids| == CODES_PER_BATCH && (env.hashes.Some? ==> |env.hashes.value| == CODES_PER_BATCH)
    ensures AddRecord(u, env).0.nodes == u.nodes
  {
    hide NewCodes;
  }

  /** What Setup leaves of the record and the codes, whatever fails: once all shares are stored the
      record is created, and then the batch is inserted. */
  lemma SetupRows(u: User, env: SetupEnv)
    requires |u.nodes| == NODES && SetupFits(u, env)
    ensures var v := SetupStep(u, env).0;
            var stored := Sends(u, env) && AllTake(u, env);
            && v.record == (if stored && u.record.None? && !env.create.FailedBefore? then Some(false) else u.record)
            && (if stored && (u.record.None? ==> env.create.Done?) && env.hashes.Some? && !env.storeCodes.FailedBefore?
                then BatchStored(v.codes, env.ids, env.hashes.value) && OthersKept(u.codes, v.codes, env.ids)
                else v.codes == u.codes)
  {
    hide SplitSpec, Distribute, DeleteEverywhere, NewCodes, BatchStored, OthersKept;
    if env.secret.Some? {
      SplitGives(env);
    }
    if env.hashes.Some? {
      NewBatch(u.codes, env.ids, env.hashes.value);
    }
  }

  // ----- The code check -----

  /** The counter that a look-up at the given time finds. */
  ghost function FoundAt(u: User, fails: bool, time: int): Option<int> {
    if fails then None
    else match u.otp
         case None => None
         case Some(used) => if time < used.expiry then Some(used.counter) else None
  }

  /** The answers of the code check to a one-time code, and what an acceptance changes. Verify looks
      the last counter up before it validates the code, Disable after. */
  lemma OneTimeAnswers(o: Oracles, u: User, env: CheckEnv, verifying: bool)
    requires |u.nodes| == NODES && CheckFits(u, env) && !IsBackupCode(env.code)
    ensures var shares := Retrieve(u.nodes, env.fails, env.order);
            var (v, check) := CheckCode(o, u, env, verifying);
            && (check == ErrInsufficientShares <==> shares.None?)
            && (check == CheckFailed <==> shares.Some? && CombineSpec(shares.value).Err?)
            && (shares.None? || CombineSpec(shares.value).Err? ==> v == u)
    ensures var shares := Retrieve(u.nodes, env.fails, env.order);
            shares.Some? && CombineSpec(shares.value).Ok? ==>
              var (v, check) := CheckCode(o, u, env, verifying);
              var first, second := u.now + env.toFirst, u.now + env.toFirst + env.toSecond;
              var validatedAt, lookedUpAt := if verifying then second else first, if verifying then first else second;
              var m := MatchedCounter(o.hmac, CombineSpec(shares.value).value, env.code, validatedAt / 1000);
              var found := FoundAt(u, env.getFails, lookedUpAt);
              && (check == ErrInvalidCode <==> m.None?)
              && (check == ErrReused <==> m.Some? && found == m)
              && (check == Accepted <==> m.Some? && found != m)
              && (check != Accepted ==> v.otp == u.otp && v.codes == u.codes)
              && (check == Accepted ==>
                    && v.now == second + env.toSet && v.codes == u.codes
                    && v.otp == if env.set_.FailedBefore? then u.otp else Some(UsedOtp(m.value, v.now + 90_000)))
  {
    hide Retrieve, CombineSpec, MatchedCounter, IsBackupCode;
  }

  /** Acceptance in Disable, exactly: the code is one of the secret retrieved, when it is validated,
      and its counter is not the one found afterwards. */
  lemma AcceptedInDisable(o: Oracles, u: User, env: CheckEnv)
    requires |u.nodes| == NODES && CheckFits(u, env) && !IsBackupCode(env.code)
    ensures var v := BeforeCheck(u, env).0;
            var shares := Retrieve(v.nodes, env.fails, env.order);
            CheckCode(o, v, env, false).1 == Accepted <==>
              && shares.Some? && CombineSpec(shares.value).Ok?
              && var validatedAt := (v.now + env.toFirst) / 1000;
                 var m := MatchedCounter(o.hmac, CombineSpec(shares.value).value, env.code, validatedAt);
                 m.Some? && FoundAt(v, env.getFails, v.now + env.toFirst + env.toSecond) != m
  {
    hide BeforeCheck, CheckCode, Retrieve, CombineSpec, MatchedCounter, IsBackupCode, FoundAt;
    BeforeCheckFrame(u, env);
    OneTimeAnswers(o, BeforeCheck(u, env).0, env, false);
  }

  /** The answers of the code check to a backup code, and the row it uses. */
  lemma BackupAnswers(o: Oracles, u: User, env: CheckEnv, verifying: bool)
    requires |u.nodes| == NODES && CheckFits(u, env) && IsBackupCode(env.code)
    ensures var (v, check) := CheckCode(o, u, env, verifying);
            var works := exists id :: id in Unused(u.codes) && o.matches(u.codes[id].hash, env.code);
            && (check == ErrBadBackupCode <==> !env.rowsFail && !works)
            && (check == Accepted <==> !env.rowsFail && works && env.mark.Done?)
            && (check == CheckFailed <==> env.rowsFail || (works && !env.mark.Done?))
            && (if !env.rowsFail && works && !env.mark.FailedBefore?
                then exists id :: id in Unused(u.codes) && o.matches(u.codes[id].hash, env.code)
                                  && v.codes == u.codes[id := CodeRow(u.codes[id].hash, true)]
                else v.codes == u.codes)
            && v.now == u.now && v.otp == u.otp
  {
    hide Retrieve, FirstMatch, IsBackupCode;
    FirstMatchIsScanned(o, u.codes, env.scan, env.code);
    var m := FirstMatch(o, u.codes, env.scan, env.code);
    if m.Some? {
      assert m.value in Unused(u.codes);
    }
  }

  /** Of the rows read, the one used is the first that matches. */
  lemma {:induction false} FirstMatchIsFirst(o: Oracles, codes: map<Id, CodeRow>, scan: seq<Id>, code: string, k: nat)
    requires k < |scan| && forall id :: id in scan ==> id in codes
    requires o.matches(codes[scan[k]].hash, code)
    requires forall j :: 0 <= j < k ==> !o.matches(codes[scan[j]].hash, code)
    ensures FirstMatch(o, codes, scan, code) == Some(scan[k])
    decreases k
  {
    if k > 0 {
      FirstMatchIsFirst(o, codes, scan[1..], code, k - 1);
    }
  }

  /** Which texts are taken for backup codes. */
  lemma BackupCodeForm(code: string)
    ensures IsBackupCode(code) <==>
              exists left, right :: FourDigits(left) && FourDigits(right) && code == left + "-" + right
  {
    if IsBackupCode(code) {
      assert code == code[..4] + "-" + code[5..];
      assert FourDigits(code[..4]) && FourDigits(code[5..]);
    }
  }

  predicate FourDigits(s: string) {
    |s| == 4 && forall i :: 0 <= i < 4 ==> s[i] in "0123456789"
  }

  // ----- Retrieval -----

  /** Retrieval gives the shares of the first two messages with one, in the order they arrive, and an
      error if fewer than two have one. */
  lemma RetrieveAnswers(nodes: seq<Rows>, fails: seq<bool>, order: seq<nat>)
    requires |nodes| == |fails| == NODES && IsOrder(order)
    ensures var shares := Retrieve(nodes, fails, order);
            var has := k requires 0 <= k < NODES => Answers(nodes, fails, order[k]);
            && (shares.None? <==> (!has(0) && !has(1)) || (!has(0) && !has(2)) || (!has(1) && !has(2)))
            && (has(0) && has(1) ==> shares == Some([Answer(nodes, order[0]), Answer(nodes, order[1])]))
            && (has(0) && !has(1) && has(2) ==> shares == Some([Answer(nodes, order[0]), Answer(nodes, order[2])]))
            && (!has(0) && has(1) && has(2) ==> shares == Some([Answer(nodes, order[1]), Answer(nodes, order[2])]))
  {
    hide Answer, Answers, Arrived;
    ThreeMessages(nodes, fails, order);
    var a, b, c := Message(nodes, fails, order[0]), Message(nodes, fails, order[1]), Message(nodes, fails, order[2]);
    assert |a| == 0 ==> a + (b + c) == b + c;
    assert |b| == 0 ==> b + c == c;
    assert |a| == 1 && |b + c| > 0 ==> (a + (b + c))[..2] == [a[0], (b + c)[0]];
    assert |b| == 1 && |c| > 0 ==> (b + c)[..2] == [b[0], c[0]];
  }

  lemma ThreeMessages(nodes: seq<Rows>, fails: seq<bool>, order: seq<nat>)
    requires |nodes| == |fails| == |order| == NODES
    ensures Arrived(nodes, fails, order)
         == Message(nodes, fails, order[0]) + (Message(nodes, fails, order[1]) + Message(nodes, fails, order[2]))
  {
    hide Message;
    assert order[1..][1..] == order[2..] && order[2..][1..] == [];
    assert Arrived(nodes, fails, order[2..]) == Message(nodes, fails, order[2]) + [];
  }

  // ----- Verify and Disable -----

  /** The attempt is counted `toLimit` after the request begins, and one that passes is checked
      `toCheck` after that; one whose increment or expiry time failed passes. */
  lemma AdmissionEffects(u: User, env: CheckEnv)
    ensures var (v, passed) := BeforeCheck(u, env);
            && v.now == u.now + env.toLimit + (if passed then env.toCheck else 0)
            && v.book.passes == u.book.passes + (if passed then [u.now + env.toLimit] else [])
            && (env.limit.IncrFails? || (env.limit.ExpireFails? && u.limit.None?) ==> passed)
  {}

  /** The answers of Verify. */
  lemma VerifyAnswers(o: Oracles, u: User, env: CheckEnv)
    requires |u.nodes| == NODES && CheckFits(u, env)
    ensures var (admitted, passed) := BeforeCheck(u, env);
            var check := CheckCode(o, admitted, env, true).1;
            var (v, reply) := VerifyStep(o, u, env);
            var there := !env.readFails && u.record.Some?;
            var accepted := there && passed && check == Accepted;
            var enables := accepted && !IsBackupCode(env.code) && u.record == Some(false);
            && (reply == ErrNotSetUp <==> !env.readFails && u.record.None?)
            && (reply == ErrRateLimited <==> there && !passed)
            && (reply.Refused? <==> there && passed && check != Accepted)
            && (reply.Refused? ==> reply.check == check)
            && (reply == Valid(true) <==> enables && env.enable.Done?)
            && (reply == Valid(false) <==> accepted && !enables)
            && (reply == InternalError <==> env.readFails || (enables && !env.enable.Done?))
            && v.record == (if enables && !env.enable.FailedBefore? then Some(true) else u.record)
  {
    hide CheckCode, BeforeCheck, IsBackupCode;
    BeforeCheckFrame(u, env);
    CheckFrame(o, BeforeCheck(u, env).0, env, true);
  }

  /** The answers of Disable. */
  lemma DisableAnswers(o: Oracles, u: User, env: CheckEnv)
    requires |u.nodes| == NODES && CheckFits(u, env)
    ensures var (admitted, passed) := BeforeCheck(u, env);
            var check := CheckCode(o, admitted, env, false).1;
            var reply := DisableStep(o, u, env).1;
            var on := !env.readFails && u.record == Some(true);
            var deleted := AllDone(env.deletes) && env.deleteCodes.Done? && env.deleteRecord.Done?;
            && (reply == ErrNotSetUp <==> !env.readFails && u.record.None?)
            && (reply == ErrNotEnabled <==> !env.readFails && u.record == Some(false))
            && (reply == ErrRateLimited <==> on && !passed)
            && (reply.Refused? <==> on && passed && check != Accepted)
            && (reply.Refused? ==> reply.check == check)
            && (reply == Disabled <==> on && passed && check == Accepted && deleted)
            && (reply == InternalError <==> env.readFails || (on && passed && check == Accepted && !deleted))
  {
    hide CheckCode, BeforeCheck, AllDone;
    BeforeCheckFrame(u, env);
    CheckFrame(o, BeforeCheck(u, env).0, env, false);
  }

  /** What a Disable whose code is accepted leaves: each deletion happens if all before it are done
      and it does not fail without effect. */
  lemma AcceptedDisable(o: Oracles, u: User, env: CheckEnv)
    requires |u.nodes| == NODES && CheckFits(u, env)
    requires !env.readFails && u.record == Some(true) && BeforeCheck(u, env).1
    requires CheckCode(o, BeforeCheck(u, env).0, env, false).1 == Accepted
    ensures var checked := CheckCode(o, BeforeCheck(u, env).0, env, false).0;
            var v := DisableStep(o, u, env).0;
            var codesReached := AllDone(env.deletes);
            var recordReached := codesReached && env.deleteCodes.Done?;
            var keysReached := recordReached && env.deleteRecord.Done?;
            && |v.nodes| == NODES
            && (forall i :: 0 <= i < NODES ==> v.nodes[i] == if env.deletes[i].FailedBefore? then u.nodes[i] else map[])
            && v.codes == (if codesReached && !env.deleteCodes.FailedBefore? then map[] else checked.codes)
            && v.record == (if recordReached && !env.deleteRecord.FailedBefore? then None else Some(true))
            && v.limit == (if keysReached && !env.deleteKeys.FailedBefore? then None else checked.limit)
            && v.otp == (if keysReached && !env.deleteKeys.FailedBefore? then None else checked.otp)
            && v.now == checked.now
  {
    hide CheckCode, BeforeCheck, AllDone;
    BeforeCheckFrame(u, env);
    CheckFrame(o, BeforeCheck(u, env).0, env, false);
  }
}
