/** The two-factor service over its stores, updated in place. Every method computes, for the user
    it is called for, the step of the specification, and leaves all other users alone. */
module TwoFAService {
  import opened Common
  import opened Gf256Tables
  import opened Shamir
  import opened Combine
  import opened Validation
  import opened TwoFA
  import opened TwoFAStores

  // ----- Facts about the messages that have arrived -----

  lemma {:induction false} ArrivedInParts(nodes: seq<Rows>, fails: seq<bool>, before: seq<nat>, after: seq<nat>)
    requires |nodes| == |fails| <= 255
    ensures Arrived(nodes, fails, before + after) == Arrived(nodes, fails, before) + Arrived(nodes, fails, after)
    decreases |before|
  {
    hide Message;
    if before == [] {
      assert before + after == after;
    } else {
      ArrivedInParts(nodes, fails, before[1..], after);
      assert (before + after)[1..] == before[1..] + after;
    }
  }

  lemma {:induction false} AtMostOneShareEach(nodes: seq<Rows>, fails: seq<bool>, order: seq<nat>)
    requires |nodes| == |fails| <= 255
    ensures |Arrived(nodes, fails, order)| <= |order|
    decreases |order|
  {
    if order != [] {
      AtMostOneShareEach(nodes, fails, order[1..]);
    }
  }

  /** The loop may stop at the second share, and at the second failure. */
  lemma EarlyExit(nodes: seq<Rows>, fails: seq<bool>, order: seq<nat>, k: nat)
    requires |nodes| == |fails| <= 255 && k <= |order| == NODES
    ensures var shares := Arrived(nodes, fails, order[..k]);
            && (|shares| == 2 ==> Retrieve(nodes, fails, order) == Some(shares))
            && (k - |shares| > 1 ==> Retrieve(nodes, fails, order) == None)
  {
    hide Arrived;
    assert order == order[..k] + order[k..];
    ArrivedInParts(nodes, fails, order[..k], order[k..]);
    AtMostOneShareEach(nodes, fails, order[k..]);
  }

  lemma OneMoreArrived(nodes: seq<Rows>, fails: seq<bool>, order: seq<nat>, k: nat)
    requires |nodes| == |fails| <= 255 && k < |order|
    ensures Arrived(nodes, fails, order[..k + 1]) == Arrived(nodes, fails, order[..k]) + Message(nodes, fails, order[k])
  {
    assert order[..k + 1] == order[..k] + [order[k]];
    ArrivedInParts(nodes, fails, order[..k], [order[k]]);
    assert [order[k]][1..] == [];
  }

  lemma CombinedIsNotEmpty(shares: seq<ShareValue>)
    ensures CombineSpec(shares).Ok? ==> |CombineSpec(shares).value| > 0
  {}

  class Service {
    const nodes: seq<ShareNode>
    const storage: PgStorage
    const redis: RedisStorage
    const tables: Tables
    const oracles: Oracles
    // Bookkeeping for the specification only.
    ghost var books: map<Id, Book>

    constructor (nodes: seq<ShareNode>, storage: PgStorage, redis: RedisStorage, tables: Tables, oracles: Oracles)
      requires |nodes| == NODES && (forall i, j :: 0 <= i < j < NODES ==> nodes[i] != nodes[j])
      requires tables.Valid()
      ensures this.nodes == nodes && this.storage == storage && this.redis == redis
      ensures this.tables == tables && this.oracles == oracles && books == map[] && Ready()
      ensures ((forall node <- nodes :: node.rows == map[]) && storage.records == map[] && storage.codes == map[]
               && redis.limits == map[] && redis.used == map[]) ==> (forall v :: View(v) == NewUser(redis.now))
    {
      this.nodes := nodes;
      this.storage := storage;
      this.redis := redis;
      this.tables := tables;
      this.oracles := oracles;
      books := map[];
    }

    ghost predicate Ready()
      reads tables, tables.logTable, tables.expTable
    {
      |nodes| == NODES && (forall i, j :: 0 <= i < j < NODES ==> nodes[i] != nodes[j]) && tables.Valid()
    }

    ghost function BookOf(user: Id): Book
      reads this
    {
      if user in books then books[user] else Book(map[], 0, 0, 0, [], None)
    }

    /** The rows of the user on every node. */
    ghost function Held(user: Id): (rows: seq<Rows>)
      reads nodes
      ensures |rows| == |nodes|
      ensures forall i :: 0 <= i < |nodes| ==> rows[i] == nodes[i].RowsOf(user)
    {
      seq(|nodes|, i requires 0 <= i < |nodes| reads nodes => nodes[i].RowsOf(user))
    }

    /** What the stores hold about a user. */
    ghost function View(user: Id): User
      reads this, nodes, storage, redis
    {
      User(redis.now, Held(user), storage.RecordOf(user), storage.CodesOf(user),
           redis.LimitOf(user), redis.UsedOf(user), BookOf(user))
    }

    /** For everybody else only time has passed. */
    twostate predicate OthersUntouched(user: Id)
      reads this, nodes, storage, redis
    {
      forall v :: v != user ==> View(v) == old(View(v)).(now := redis.now)
    }

    method Pass(d: nat)
      modifies redis
      ensures forall v :: View(v) == Wait(old(View(v)), d) == old(View(v)).(now := redis.now)
    {
      redis.Pass(d);
    }

    // ----- Setup -----

    /** The stores of one distribution. Each goes to a node of its own, so that their order does
        not matter. */
    method StoreOnNodes(user: Id, tag: nat, shares: seq<Share>, stores: seq<Outcome>) returns (ok: bool)
      requires Ready() && |shares| == |stores| == NODES
      modifies nodes
      ensures Held(user) == Distribute(old(Held(user)), tag, old(Values(shares)), stores)
      ensures ok <==> AllStored(old(Held(user)), stores)
      ensures forall v :: v != user ==> Held(v) == old(Held(v))
    {
      hide ShareNode.RowsOf;
      ok := true;
      for i := 0 to NODES
        invariant forall k :: 0 <= k < i ==>
          nodes[k].RowsOf(user) == Distribute(old(Held(user)), tag, old(Values(shares)), stores)[k]
        invariant forall k :: i <= k < NODES ==> nodes[k].RowsOf(user) == old(nodes[k].RowsOf(user))
        invariant forall v, k :: v != user && 0 <= k < NODES ==> nodes[k].RowsOf(v) == old(nodes[k].RowsOf(v))
        invariant ok <==> forall k :: 0 <= k < i ==> k + 1 !in old(nodes[k].RowsOf(user)) && stores[k].Done?
      {
        var stored := nodes[i].Store(user, i + 1, StoredShare(tag, shares[i].data[..]), stores[i]);
        ok := ok && stored;
      }
    }

    /** The deletes on all nodes, by the compensation of Setup and by Disable. */
    method DeleteSharesAll(user: Id, outcomes: seq<Outcome>) returns (ok: bool)
      requires Ready() && |outcomes| == NODES
      modifies nodes
      ensures Held(user) == DeleteEverywhere(old(Held(user)), outcomes)
      ensures ok <==> AllDone(outcomes)
      ensures forall v :: v != user ==> Held(v) == old(Held(v))
    {
      hide ShareNode.RowsOf;
      ok := true;
      for i := 0 to NODES
        invariant forall k :: 0 <= k < i ==>
                    nodes[k].RowsOf(user) == DeleteShares(old(nodes[k].RowsOf(user)), outcomes[k])
        invariant forall k :: i <= k < NODES ==> nodes[k].RowsOf(user) == old(nodes[k].RowsOf(user))
        invariant forall v, k :: v != user && 0 <= k < NODES ==> nodes[k].RowsOf(v) == old(nodes[k].RowsOf(v))
        invariant ok <==> forall k :: 0 <= k < i ==> outcomes[k].Done?
      {
        var deleted := nodes[i].DeleteSharesByUserID(user, outcomes[i]);
        ok := ok && deleted;
      }
    }

    method Setup(user: Id, env: SetupEnv) returns (reply: SetupReply)
      requires Ready() && SetupFits(View(user), env) && CodesFit(env)
      modifies this, nodes, storage
      ensures View(user) == SetupStep(old(View(user)), env).0 && reply == SetupStep(old(View(user)), env).1
      ensures OthersUntouched(user)
    {
      hide SplitValues, TwoFA.Enrol, Held;
      if env.readFails {
        return SetupFailed;
      }
      var existing := storage.RecordOf(user);
      if existing == Some(true) {
        return ErrAlreadyEnabled;
      }
      if env.secret.None? {
        return SetupFailed;
      }
      var split := Split(tables, env.secret.value, NODES, THRESHOLD, env.random);
      if split.Err? {
        return SetupFailed;
      }
      NoteSplit(user, env.tag, SplitRecord(env.secret.value, Values(split.value)));
      reply := Enrol(user, split.value, env);
    }

    ghost method NoteSplit(user: Id, tag: nat, record: SplitRecord)
      modifies this
      ensures var book := old(BookOf(user));
              View(user) == old(View(user)).(book := book.(splits := book.splits[tag := record]))
      ensures OthersUntouched(user)
    {
      books := books[user := BookOf(user).(splits := BookOf(user).splits[tag := record])];
    }

    ghost predicate CodesFit(env: SetupEnv)
      reads storage
    {
      && |env.ids| == CODES_PER_BATCH && (env.hashes.Some? ==> |env.hashes.value| == CODES_PER_BATCH)
      && (forall i :: 0 <= i < |env.ids| ==> env.ids[i] !in storage.codes)
      && (forall i, j :: 0 <= i < j < |env.ids| ==> env.ids[i] != env.ids[j])
    }

    method Enrol(user: Id, shares: seq<Share>, env: SetupEnv) returns (reply: SetupReply)
      requires Ready() && |shares| == |env.stores| == |env.cleanups| == NODES && CodesFit(env)
      modifies this, nodes, storage
      ensures View(user) == TwoFA.Enrol(old(View(user)), old(Values(shares)), env).0
      ensures reply == TwoFA.Enrol(old(View(user)), old(Values(shares)), env).1
      ensures OthersUntouched(user)
    {
      hide Distribute, DeleteEverywhere, AllStored, TwoFA.AddRecord, Held;
      var stored := StoreOnNodes(user, env.tag, shares, env.stores);
      if !stored {
        var _ := DeleteSharesAll(user, env.cleanups);
        return SetupFailed;
      }
      reply := AddRecord(user, env);
    }

    method AddRecord(user: Id, env: SetupEnv) returns (reply: SetupReply)
      requires CodesFit(env)
      modifies this, storage
      ensures View(user) == TwoFA.AddRecord(old(View(user)), env).0
      ensures reply == TwoFA.AddRecord(old(View(user)), env).1
      ensures OthersUntouched(user)
    {
      hide NewCodes, Held;
      if user !in storage.records {
        var created := storage.CreateTwoFARecord(user, env.create);
        if !created {
          return SetupFailed;
        }
      }
      if env.hashes.None? {
        return SetupFailed;
      }
      var ok := AddCodes(user, env.ids, env.hashes.value, env.storeCodes);
      return if ok then SetupDone else SetupFailed;
    }

    method AddCodes(user: Id, ids: seq<Id>, hashes: seq<string>, o: Outcome) returns (ok: bool)
      requires |ids| == |hashes|
      requires forall i :: 0 <= i < |ids| ==> ids[i] !in storage.codes
      requires forall i, j :: 0 <= i < j < |ids| ==> ids[i] != ids[j]
      modifies this, storage
      ensures View(user) == if o.FailedBefore? then old(View(user)) else
                old(View(user)).(codes := old(storage.CodesOf(user)) + NewCodes(ids, hashes),
                                 book := old(BookOf(user)).(batches := old(BookOf(user)).batches + 1))
      ensures ok == o.Done? && OthersUntouched(user)
    {
      hide NewCodes, Held, PgStorage.CodesOf;
      ok := storage.StoreBatchBackupCodes(user, ids, hashes, o);
      if o != FailedBefore {
        books := books[user := BookOf(user).(batches := BookOf(user).batches + 1)];
      }
    }

    // ----- The checks of Verify and Disable -----

    /** Increments the attempt counter and compares it with the limit. */
    method CountAttempt(user: Id, fate: LimitFate) returns (passed: bool)
      modifies this, redis
      ensures View(user) == RateCheck(old(View(user)), fate).0 && passed == RateCheck(old(View(user)), fate).1
      ensures OthersUntouched(user)
    {
      hide Increment, Held, PgStorage.CodesOf;
      var count := redis.IncrementRateLimit(user, WINDOW, fate);
      passed := count.None? || count.value <= MAX_ATTEMPTS;
      if passed {
        books := books[user := BookOf(user).(passes := BookOf(user).passes + [redis.now])];
      }
    }

    /** The scan over the unused codes, up to the first whose hash matches. */
    method VerifyBackupCode(user: Id, code: string, rowsFail: bool, scan: seq<Id>, mark: Outcome)
      returns (reply: BackupReply)
      requires ScanFits(storage.CodesOf(user), scan)
      modifies this, storage
      ensures View(user) == BackupStep(oracles, old(View(user)), code, rowsFail, scan, mark).0
      ensures reply == BackupStep(oracles, old(View(user)), code, rowsFail, scan, mark).1
      ensures OthersUntouched(user)
    {
      if rowsFail {
        return BackupFailed;
      }
      ghost var codes := storage.CodesOf(user);
      var rows := storage.GetUnusedBackupCodeHashes(user, scan);
      assert forall id :: id in scan ==> id in codes;
      for i := 0 to |rows|
        invariant storage.codes == old(storage.codes) && storage.records == old(storage.records) && books == old(books)
        invariant FirstMatch(oracles, codes, scan, code) == FirstMatch(oracles, codes, scan[i..], code)
      {
        if oracles.matches(rows[i].codeHash, code) {
          reply := TakeCode(user, rows[i].id, mark);
          return;
        }
        assert scan[i..][1..] == scan[i + 1..];
      }
      return ErrInvalidBackupCode;
    }

    lemma RowHasOneOwner(user: Id, codeID: Id)
      requires codeID in storage.CodesOf(user)
      ensures forall v :: v != user ==> codeID !in storage.CodesOf(v)
    {}

    method TakeCode(user: Id, codeID: Id, mark: Outcome) returns (reply: BackupReply)
      requires codeID in storage.CodesOf(user)
      modifies this, storage
      ensures var b := old(BookOf(user));
              View(user) == (if mark.FailedBefore? then old(View(user)) else
                old(View(user)).(codes := MarkUsed(old(storage.CodesOf(user)), codeID),
                                 book := if mark.Done? then b.(accepted := b.accepted + 1) else b.(lost := b.lost + 1)))
      ensures reply == (if mark.Done? then BackupAccepted else BackupFailed)
      ensures OthersUntouched(user)
    {
      hide MarkUsed, Held, PgStorage.CodesOf;
      RowHasOneOwner(user, codeID);
      var ok := storage.MarkBackupCodeUsed(codeID, mark);
      if !ok {
        if mark == FailedAfter {
          books := books[user := BookOf(user).(lost := BookOf(user).lost + 1)];
        }
        return BackupFailed;
      }
      books := books[user := BookOf(user).(accepted := BookOf(user).accepted + 1)];
      return BackupAccepted;
    }

    /** Collects the answers in the order they arrive until two shares are there or two nodes failed. */
    method RetrieveShares(user: Id, fails: seq<bool>, order: seq<nat>) returns (shares: Option<seq<Share>>)
      requires Ready() && |fails| == NODES && IsOrder(order)
      ensures Retrieve(Held(user), fails, order) == match shares case Some(s) => Some(Values(s)) case None => None
      ensures shares.Some? ==> forall s <- shares.value :: fresh(s.data)
    {
      hide Arrived, Retrieve;
      ghost var rows := Held(user);
      var got: seq<Share> := [];
      var failures := 0;
      AtMostOneShareEach(rows, fails, order[..0]);
      for k := 0 to NODES
        invariant Values(got) == Arrived(rows, fails, order[..k])
        invariant forall s <- got :: fresh(s.data)
        invariant |got| + failures == k && |got| < 2 && failures <= 1
      {
        OneMoreArrived(rows, fails, order, k);
        EarlyExit(rows, fails, order, k + 1);
        var answer := AskNode(user, order[k], fails[order[k]]);
        if answer.Some? {
          got := got + [answer.value];
          assert Values(got) == Arrived(rows, fails, order[..k + 1]);
          if |got| == 2 {
            return Some(got);
          }
        } else {
          failures := failures + 1;
          if failures > 1 {
            return None;
          }
        }
      }
      // Not reached: of three messages two are shares or two are failures.
      return None;
    }

    /** RetrieveShare on one node. */
    method AskNode(user: Id, i: nat, fails: bool) returns (answer: Option<Share>)
      requires Ready() && i < NODES
      ensures answer.Some? <==> !fails && i + 1 in Held(user)[i]
      ensures answer.Some? ==> fresh(answer.value.data) && Value(answer.value) == Answer(Held(user), i)
    {
      if fails {
        return None;
      }
      var data := nodes[i].GetShare(user, i + 1);
      if data.None? {
        return None;
      }
      var copy := new Byte[|data.value|](k requires 0 <= k < |data.value| => data.value[k]);
      assert copy[..] == data.value;
      return Some(Share(ShareIndex(i), copy));
    }

    method FindLastUsed(user: Id, fails: bool) returns (last: Option<int>)
      ensures last == LastUsed(View(user), fails)
    {
      last := redis.GetUsedOTPCounter(user, fails);
    }

    /** ValidateOTPWithCounter: the validation at the current time. */
    method ValidateNow(user: Id, secret: array<Byte>, code: string) returns (matched: Option<int>)
      requires secret.Length > 0
      ensures matched == MatchedCounter(oracles.hmac, secret[..], code, UnixTime(View(user)))
    {
      hide MatchedCounter;
      var ok, counter := ValidateOTPWithCounterAt(oracles.hmac, secret[..], code, redis.now / 1000);
      return if ok then Some(counter) else None;
    }

    /** From the secret on, in Verify. */
    method CheckForVerify(user: Id, secret: array<Byte>, env: CheckEnv) returns (reply: CheckReply)
      requires secret.Length > 0
      modifies this, redis
      ensures View(user) == LookUpThenValidate(oracles, old(View(user)), old(secret[..]), env).0
      ensures reply == LookUpThenValidate(oracles, old(View(user)), old(secret[..]), env).1
      ensures OthersUntouched(user)
    {
      hide MatchedCounter, RecordUse, LastUsed, View;
      Pass(env.toFirst);
      var last := FindLastUsed(user, env.getFails);
      Pass(env.toSecond);
      var matched := ValidateNow(user, secret, env.code);
      if matched.None? {
        return ErrInvalidCode;
      }
      if last == matched {
        return ErrReused;
      }
      Pass(env.toSet);
      StoreCounter(user, matched.value, env.set_);
      return Accepted;
    }

    /** From the secret on, in Disable. */
    method CheckForDisable(user: Id, secret: array<Byte>, env: CheckEnv) returns (reply: CheckReply)
      requires secret.Length > 0
      modifies this, redis
      ensures View(user) == ValidateThenLookUp(oracles, old(View(user)), old(secret[..]), env).0
      ensures reply == ValidateThenLookUp(oracles, old(View(user)), old(secret[..]), env).1
      ensures OthersUntouched(user)
    {
      hide MatchedCounter, RecordUse, LastUsed, View;
      Pass(env.toFirst);
      var matched := ValidateNow(user, secret, env.code);
      if matched.None? {
        return ErrInvalidCode;
      }
      Pass(env.toSecond);
      var last := FindLastUsed(user, env.getFails);
      if last == matched {
        return ErrReused;
      }
      Pass(env.toSet);
      StoreCounter(user, matched.value, env.set_);
      return Accepted;
    }

    method StoreCounter(user: Id, counter: int, o: Outcome)
      modifies this, redis
      ensures View(user) == RecordUse(old(View(user)), counter, o) && OthersUntouched(user)
    {
      hide Held, PgStorage.CodesOf;
      redis.SetUsedOTPCounter(user, counter, OTP_TTL, o);
      books := books[user := BookOf(user).(lastPassed := Some(counter))];
    }

    /** The code check that Verify and Disable share up to the order of look-up and validation. */
    method Check(user: Id, env: CheckEnv, verifying: bool) returns (reply: CheckReply)
      requires Ready() && CheckFits(View(user), env)
      modifies this, redis, storage
      ensures View(user) == CheckCode(oracles, old(View(user)), env, verifying).0
      ensures reply == CheckCode(oracles, old(View(user)), env, verifying).1
      ensures OthersUntouched(user)
    {
      hide BackupStep, Retrieve, CombineSpec, LookUpThenValidate, ValidateThenLookUp, IsBackupCode;
      hide Held, PgStorage.CodesOf;
      if IsBackupCode(env.code) {
        var backup := VerifyBackupCode(user, env.code, env.rowsFail, env.scan, env.mark);
        return OfBackup(backup);
      }
      var shares := RetrieveShares(user, env.fails, env.order);
      if shares.None? {
        return ErrInsufficientShares;
      }
      var secret := Combine.Combine(tables, shares.value);
      if secret.Err? {
        return CheckFailed;
      }
      CombinedIsNotEmpty(Values(shares.value));
      if verifying {
        reply := CheckForVerify(user, secret.value, env);
      } else {
        reply := CheckForDisable(user, secret.value, env);
      }
    }

    // ----- Verify and Disable -----

    /** The rate check before the code check. */
    method Admit(user: Id, env: CheckEnv) returns (passed: bool)
      modifies this, redis
      ensures View(user) == BeforeCheck(old(View(user)), env).0 && passed == BeforeCheck(old(View(user)), env).1
      ensures OthersUntouched(user)
    {
      hide RateCheck, Held, PgStorage.CodesOf;
      Pass(env.toLimit);
      passed := CountAttempt(user, env.limit);
      if passed {
        Pass(env.toCheck);
      }
    }

    method EnableRecord(user: Id, o: Outcome) returns (ok: bool)
      requires user in storage.records
      modifies storage
      ensures View(user) == if o.FailedBefore? then old(View(user)) else old(View(user)).(record := Some(true))
      ensures ok == o.Done? && OthersUntouched(user)
    {
      ok := storage.EnableTwoFA(user, o);
    }

    method Verify(user: Id, env: CheckEnv) returns (reply: Reply)
      requires Ready() && CheckFits(View(user), env)
      modifies this, redis, storage
      ensures View(user) == VerifyStep(oracles, old(View(user)), env).0
      ensures reply == VerifyStep(oracles, old(View(user)), env).1
      ensures OthersUntouched(user)
    {
      hide CheckCode, BeforeCheck, Held, PgStorage.CodesOf, IsBackupCode;
      if env.readFails {
        return InternalError;
      }
      var record := storage.RecordOf(user);
      if record.None? {
        return ErrNotSetUp;
      }
      var passed := Admit(user, env);
      if !passed {
        return ErrRateLimited;
      }
      ghost var admitted := View(user);
      var check := Check(user, env, true);
      CheckFrame(oracles, admitted, env, true);
      if check != Accepted {
        return Refused(check);
      }
      if IsBackupCode(env.code) {
        return Valid(false);
      }
      if !record.value {
        var enabled := EnableRecord(user, env.enable);
        return if enabled then Valid(true) else InternalError;
      }
      return Valid(false);
    }

    method Disable(user: Id, env: CheckEnv) returns (reply: Reply)
      requires Ready() && CheckFits(View(user), env)
      modifies this, nodes, redis, storage
      ensures View(user) == DisableStep(oracles, old(View(user)), env).0
      ensures reply == DisableStep(oracles, old(View(user)), env).1
      ensures OthersUntouched(user)
    {
      hide CheckCode, BeforeCheck, TwoFA.Remove, Held, PgStorage.CodesOf;
      if env.readFails {
        return InternalError;
      }
      var record := storage.RecordOf(user);
      if record.None? {
        return ErrNotSetUp;
      }
      if !record.value {
        return ErrNotEnabled;
      }
      var passed := Admit(user, env);
      if !passed {
        return ErrRateLimited;
      }
      var check := Check(user, env, false);
      if check != Accepted {
        return Refused(check);
      }
      reply := Remove(user, env);
    }

    /** The deletions of Disable. */
    method Remove(user: Id, env: CheckEnv) returns (reply: Reply)
      requires Ready() && |env.deletes| == NODES
      modifies this, nodes, redis, storage
      ensures View(user) == TwoFA.Remove(old(View(user)), env).0 && reply == TwoFA.Remove(old(View(user)), env).1
      ensures OthersUntouched(user)
    {
      hide DeleteEverywhere, AllDone, Held, PgStorage.CodesOf;
      var shares := DeleteSharesAll(user, env.deletes);
      if !shares {
        return InternalError;
      }
      var codes := DropCodes(user, env.deleteCodes);
      if !codes {
        return InternalError;
      }
      var record := DropRecord(user, env.deleteRecord);
      if !record {
        return InternalError;
      }
      DropKeys(user, env.deleteKeys);
      return Disabled;
    }

    method DropCodes(user: Id, o: Outcome) returns (ok: bool)
      modifies this, storage
      ensures View(user) == if o.FailedBefore? then old(View(user)) else
                old(View(user)).(codes := map[], book := old(BookOf(user)).(accepted := 0, lost := 0, batches := 0))
      ensures ok == o.Done? && OthersUntouched(user)
    {
      hide Held, PgStorage.CodesOf;
      ok := storage.DeleteBackupCodes(user, o);
      if o != FailedBefore {
        books := books[user := BookOf(user).(accepted := 0, lost := 0, batches := 0)];
      }
    }

    method DropRecord(user: Id, o: Outcome) returns (ok: bool)
      modifies storage
      ensures View(user) == if o.FailedBefore? then old(View(user)) else old(View(user)).(record := None)
      ensures ok == o.Done? && OthersUntouched(user)
    {
      ok := storage.DeleteTwoFARecord(user, o);
    }

    method DropKeys(user: Id, o: Outcome)
      modifies this, redis
      ensures var book := old(BookOf(user)).(passes := [], lastPassed := None);
              View(user) == if o.FailedBefore? then old(View(user)).(book := book)
                            else old(View(user)).(limit := None, otp := None, book := book)
      ensures OthersUntouched(user)
    {
      hide Held, PgStorage.CodesOf;
      redis.DeleteKeys(user, o);
      books := books[user := BookOf(user).(passes := [], lastPassed := None)];
    }
  }
}
