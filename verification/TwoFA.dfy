/** Two-factor enrolment for one user: share nodes, 2FA record, backup codes, attempt counter
    and last used one-time code, and what Setup, Verify and Disable do to them. */
module TwoFA {
  import opened Common
  import opened Totp
  import opened Validation
  import opened Shamir
  import opened Combine

  const NODES := 3
  const THRESHOLD := 2
  const MAX_ATTEMPTS := 5
  const WINDOW := 300_000
  const OTP_TTL := 90_000
  const CODES_PER_BATCH := 10

  // ----- State -----

  /** A share row of a node. `split` says which call of Split the share comes from; it is
      bookkeeping of the model. */
  datatype StoredShare = StoredShare(split: nat, data: seq<Byte>)

  /** The rows a node holds for the user, by share index. */
  type Rows = map<nat, StoredShare>

  datatype CodeRow = CodeRow(hash: string, used: bool)

  type Positive = n: nat | n > 0 witness 1

  /** The attempt counter; without an expiry time it lives for ever. */
  datatype Limit = Limit(count: Positive, expiry: Option<Time>)

  datatype UsedOtp = UsedOtp(counter: int, expiry: Time)

  datatype SplitRecord = SplitRecord(secret: seq<Byte>, shares: seq<ShareValue>)

  /** What happened so far: the splits made, the backup codes accepted, lost and issued since the
      codes were last deleted, and, since the last completed Disable, the times of the attempts
      past the rate check and the last counter past the reuse check. */
  datatype Book = Book(
    splits: map<nat, SplitRecord>,
    accepted: nat, lost: nat, batches: nat,
    passes: seq<Time>, lastPassed: Option<int>)

  datatype User = User(
    now: Time,
    nodes: seq<Rows>,
    record: Option<bool>,
    codes: map<Id, CodeRow>,
    limit: Option<Limit>,
    otp: Option<UsedOtp>,
    book: Book)

  /** The uninterpreted parts: HMAC-SHA1 and the bcrypt comparison of a hash with a code. */
  datatype Oracles = Oracles(hmac: Hmac, matches: (string, string) -> bool)

  function Wait(u: User, d: nat): User { u.(now := u.now + d) }

  // ----- Share nodes -----

  /** CreateShare: one row per index; a second one is refused. */
  function CreateShare(rows: Rows, index: nat, share: StoredShare, o: Outcome): (Rows, bool) {
    if index in rows then (rows, false)
    else (if o.FailedBefore? then rows else rows[index := share], o.Done?)
  }

  function DeleteShares(rows: Rows, o: Outcome): Rows {
    if o.FailedBefore? then rows else map[]
  }

  /** Node i is sent the share with index i + 1; the stores run side by side on their own nodes. */
  function Distribute(nodes: seq<Rows>, tag: nat, shares: seq<ShareValue>, stores: seq<Outcome>): (r: seq<Rows>)
    requires |nodes| == |shares| == |stores|
    ensures |r| == |nodes|
  {
    seq(|nodes|, i requires 0 <= i < |nodes| =>
      CreateShare(nodes[i], i + 1, StoredShare(tag, shares[i].data), stores[i]).0)
  }

  predicate AllStored(nodes: seq<Rows>, stores: seq<Outcome>)
    requires |nodes| == |stores|
  {
    forall i :: 0 <= i < |nodes| ==> i + 1 !in nodes[i] && stores[i].Done?
  }

  function DeleteEverywhere(nodes: seq<Rows>, outcomes: seq<Outcome>): (r: seq<Rows>)
    requires |nodes| == |outcomes|
    ensures |r| == |nodes|
  {
    seq(|nodes|, i requires 0 <= i < |nodes| => DeleteShares(nodes[i], outcomes[i]))
  }

  predicate AllDone(outcomes: seq<Outcome>) {
    forall i :: 0 <= i < |outcomes| ==> outcomes[i].Done?
  }

  // ----- Setup -----

  datatype SetupEnv = SetupEnv(
    readFails: bool,
    secret: Option<seq<Byte>>,
    random: seq<Option<seq<Byte>>>,
    tag: nat,
    stores: seq<Outcome>,
    cleanups: seq<Outcome>,
    create: Outcome,
    hashes: Option<seq<string>>,
    ids: seq<Id>,
    storeCodes: Outcome)

  ghost predicate SetupFits(u: User, env: SetupEnv) {
    && |env.stores| == |env.cleanups| == NODES
    && (env.secret.Some? ==> |env.secret.value| == 20 && RandomFits(env.random, 20, THRESHOLD))
    && env.tag !in u.book.splits
    && (env.hashes.Some? ==> |env.hashes.value| == CODES_PER_BATCH)
    && |env.ids| == CODES_PER_BATCH
    && (forall i :: 0 <= i < |env.ids| ==> env.ids[i] !in u.codes)
    && (forall i, j :: 0 <= i < j < |env.ids| ==> env.ids[i] != env.ids[j])
  }

  datatype SetupReply = SetupDone | ErrAlreadyEnabled | SetupFailed

  /** New unused rows, one per hash. */
  function NewCodes(ids: seq<Id>, hashes: seq<string>): (rows: map<Id, CodeRow>)
    requires |ids| == |hashes|
  {
    map id | id in ids :: CodeRow(HashFor(ids, hashes, id), false)
  }

  function HashFor(ids: seq<Id>, hashes: seq<string>, id: Id): string
    requires |ids| == |hashes| && id in ids
  {
    if ids[0] == id then hashes[0] else HashFor(ids[1..], hashes[1..], id)
  }

  lemma {:induction false} HashAt(ids: seq<Id>, hashes: seq<string>, k: nat)
    requires |ids| == |hashes| && k < |ids|
    requires forall i, j :: 0 <= i < j < |ids| ==> ids[i] != ids[j]
    ensures HashFor(ids, hashes, ids[k]) == hashes[k]
  {
    if k > 0 {
      HashAt(ids[1..], hashes[1..], k - 1);
    }
  }

  function SetupStep(u: User, env: SetupEnv): (r: (User, SetupReply))
    requires |u.nodes| == NODES && SetupFits(u, env)
  {
    if env.readFails then (u, SetupFailed)
    else if u.record == Some(true) then (u, ErrAlreadyEnabled)
    else if env.secret.None? then (u, SetupFailed)
    else
      match SplitSpec(env.secret.value, NODES, THRESHOLD, env.random)
      case Err(_) => (u, SetupFailed)
      case Ok(shares) =>
        var splits := u.book.splits[env.tag := SplitRecord(env.secret.value, shares)];
        Enrol(u.(book := u.book.(splits := splits)), shares, env)
  }

  /** Setup from the distribution of the shares on. */
  function Enrol(u: User, shares: seq<ShareValue>, env: SetupEnv): (User, SetupReply)
    requires |u.nodes| == |shares| == |env.stores| == |env.cleanups| == NODES
    requires |env.ids| == CODES_PER_BATCH && (env.hashes.Some? ==> |env.hashes.value| == CODES_PER_BATCH)
  {
    var stored := Distribute(u.nodes, env.tag, shares, env.stores);
    if !AllStored(u.nodes, env.stores) then
      (u.(nodes := DeleteEverywhere(stored, env.cleanups)), SetupFailed)
    else
      AddRecord(u.(nodes := stored), env)
  }

  function AddRecord(u: User, env: SetupEnv): (User, SetupReply)
    requires |env.ids| == CODES_PER_BATCH && (env.hashes.Some? ==> |env.hashes.value| == CODES_PER_BATCH)
  {
    var created := if u.record.None? && !env.create.FailedBefore? then u.(record := Some(false)) else u;
    if u.record.None? && !env.create.Done? then (created, SetupFailed)
    else if env.hashes.None? then (created, SetupFailed)
    else if env.storeCodes.FailedBefore? then (created, SetupFailed)
    else
      (created.(codes := created.codes + NewCodes(env.ids, env.hashes.value),
                book := created.book.(batches := created.book.batches + 1)),
       if env.storeCodes.Done? then SetupDone else SetupFailed)
  }

  // ----- Rate limit -----

  /** How INCR, EXPIRE and the compensating DEL end; a failing command may have been applied. */
  datatype LimitFate = LimitOk | IncrFails(applied: bool) | ExpireFails(applied: bool, deleted: bool)

  function LiveCount(limit: Option<Limit>, now: Time): nat {
    match limit
    case None => 0
    case Some(l) => if l.expiry.None? || now < l.expiry.value then l.count else 0
  }

  /** INCR, and EXPIRE on the first increment; without the expiry time the key is deleted again. */
  function Increment(limit: Option<Limit>, now: Time, ttl: nat, fate: LimitFate): (Option<Limit>, Option<nat>) {
    var count := LiveCount(limit, now) + 1;
    var counted := Limit(count, if count > 1 then limit.value.expiry else None);
    match fate
    case IncrFails(applied) => (if applied then Some(counted) else limit, None)
    case ExpireFails(applied, deleted) =>
      if count > 1 then (Some(counted), Some(count))
      else (if deleted then None else Some(Limit(1, if applied then Some(now + ttl) else None)), None)
    case LimitOk =>
      (Some(if count > 1 then counted else Limit(1, Some(now + ttl))), Some(count))
  }

  /** The rate check; a failing Redis lets the attempt pass. */
  function RateCheck(u: User, fate: LimitFate): (User, bool) {
    var (limit, count) := Increment(u.limit, u.now, WINDOW, fate);
    var passed := count.None? || count.value <= MAX_ATTEMPTS;
    (u.(limit := limit, book := if passed then u.book.(passes := u.book.passes + [u.now]) else u.book), passed)
  }

  // ----- Backup codes -----

  /** A code of the form dddd-dddd. */
  predicate IsBackupCode(code: string) {
    |code| == 9 && code[4] == '-' && forall i :: 0 <= i < 9 && i != 4 ==> '0' <= code[i] <= '9'
  }

  ghost function Unused(codes: map<Id, CodeRow>): set<Id> {
    set id | id in codes && !codes[id].used
  }

  /** The rows the query returns: the unused ones, in any order. */
  ghost predicate ScanFits(codes: map<Id, CodeRow>, scan: seq<Id>) {
    && (forall id :: id in scan <==> id in Unused(codes))
    && (forall i, j :: 0 <= i < j < |scan| ==> scan[i] != scan[j])
  }

  function FirstMatch(o: Oracles, codes: map<Id, CodeRow>, scan: seq<Id>, code: string): (m: Option<Id>)
    requires forall id :: id in scan ==> id in codes
  {
    if scan == [] then None
    else if o.matches(codes[scan[0]].hash, code) then Some(scan[0])
    else FirstMatch(o, codes, scan[1..], code)
  }

  datatype BackupReply = BackupAccepted | ErrInvalidBackupCode | BackupFailed

  function MarkUsed(codes: map<Id, CodeRow>, id: Id): map<Id, CodeRow>
    requires id in codes
  {
    codes[id := codes[id].(used := true)]
  }

  function BackupStep(o: Oracles, u: User, code: string, rowsFail: bool, scan: seq<Id>, mark: Outcome)
    : (User, BackupReply)
    requires forall id :: id in scan ==> id in u.codes
  {
    if rowsFail then (u, BackupFailed)
    else
      match FirstMatch(o, u.codes, scan, code)
      case None => (u, ErrInvalidBackupCode)
      case Some(id) =>
        FirstMatchIsScanned(o, u.codes, scan, code);
        match mark
        case FailedBefore => (u, BackupFailed)
        case FailedAfter => (u.(codes := MarkUsed(u.codes, id), book := u.book.(lost := u.book.lost + 1)), BackupFailed)
        case Done =>
          (u.(codes := MarkUsed(u.codes, id), book := u.book.(accepted := u.book.accepted + 1)), BackupAccepted)
  }

  lemma {:induction false} FirstMatchIsScanned(o: Oracles, codes: map<Id, CodeRow>, scan: seq<Id>, code: string)
    requires forall id :: id in scan ==> id in codes
    ensures var m := FirstMatch(o, codes, scan, code);
            && (m.Some? ==> m.value in scan && o.matches(codes[m.value].hash, code))
            && (m.None? ==> forall id :: id in scan ==> !o.matches(codes[id].hash, code))
  {
    if scan != [] && !o.matches(codes[scan[0]].hash, code) {
      FirstMatchIsScanned(o, codes, scan[1..], code);
      assert forall id :: id in scan ==> id == scan[0] || id in scan[1..];
    }
  }

  // ----- Retrieval -----

  /** Node i answers with a share unless the call fails or it holds no row i + 1. */
  predicate Answers(nodes: seq<Rows>, fails: seq<bool>, i: nat)
    requires |nodes| == |fails|
  {
    i < |nodes| && !fails[i] && i + 1 in nodes[i]
  }

  function Answer(nodes: seq<Rows>, i: nat): ShareValue
    requires i < |nodes| && i < 255 && i + 1 in nodes[i]
  {
    ShareValue(ShareIndex(i), nodes[i][i + 1].data)
  }

  /** The share in a message of node i, if there is one. */
  function Message(nodes: seq<Rows>, fails: seq<bool>, i: nat): (shares: seq<ShareValue>)
    requires |nodes| == |fails| <= 255
    ensures |shares| <= 1
  {
    if Answers(nodes, fails, i) then [Answer(nodes, i)] else []
  }

  /** The shares in the order their messages arrive. */
  function Arrived(nodes: seq<Rows>, fails: seq<bool>, order: seq<nat>): (shares: seq<ShareValue>)
    requires |nodes| == |fails| <= 255
  {
    if order == [] then []
    else Message(nodes, fails, order[0]) + Arrived(nodes, fails, order[1..])
  }

  /** The first two shares to arrive; fewer than two are an error. */
  function Retrieve(nodes: seq<Rows>, fails: seq<bool>, order: seq<nat>): (r: Option<seq<ShareValue>>)
    requires |nodes| == |fails| <= 255
  {
    var shares := Arrived(nodes, fails, order);
    if |shares| >= 2 then Some(shares[..2]) else None
  }

  // ----- Verify and Disable -----

  datatype CheckEnv = CheckEnv(
    code: string,
    readFails: bool,
    toLimit: nat, toCheck: nat, toFirst: nat, toSecond: nat, toSet: nat,
    limit: LimitFate,
    rowsFail: bool, scan: seq<Id>, mark: Outcome,
    fails: seq<bool>, order: seq<nat>,
    getFails: bool, set_: Outcome,
    enable: Outcome,
    deletes: seq<Outcome>, deleteCodes: Outcome, deleteRecord: Outcome, deleteKeys: Outcome)

  ghost predicate CheckFits(u: User, env: CheckEnv) {
    && |env.fails| == |env.deletes| == NODES
    && IsOrder(env.order)
    && ScanFits(u.codes, env.scan)
  }

  /** An arrival order of the three messages. */
  predicate IsOrder(order: seq<nat>) {
    |order| == NODES && (forall k :: 0 <= k < NODES ==> order[k] < NODES)
    && order[0] != order[1] && order[0] != order[2] && order[1] != order[2]
  }

  /** The counter a look-up finds; a failing Redis counts as nothing found. */
  function LastUsed(u: User, fails: bool): Option<int> {
    if !fails && u.otp.Some? && u.now < u.otp.value.expiry then Some(u.otp.value.counter) else None
  }

  function UnixTime(u: User): nat { u.now / 1000 }

  function RecordUse(u: User, counter: int, o: Outcome): User {
    var v := u.(book := u.book.(lastPassed := Some(counter)));
    if o.FailedBefore? then v else v.(otp := Some(UsedOtp(counter, u.now + OTP_TTL)))
  }

  datatype CheckReply =
    | Accepted | ErrInvalidCode | ErrReused | ErrBadBackupCode | ErrInsufficientShares | CheckFailed

  /** Verify: the last used counter is looked up before the code is validated. */
  ghost function LookUpThenValidate(o: Oracles, u: User, secret: seq<Byte>, env: CheckEnv): (User, CheckReply) {
    var u1 := Wait(u, env.toFirst);
    var last := LastUsed(u1, env.getFails);
    var u2 := Wait(u1, env.toSecond);
    match MatchedCounter(o.hmac, secret, env.code, UnixTime(u2))
    case None => (u2, ErrInvalidCode)
    case Some(counter) =>
      if last == Some(counter) then (u2, ErrReused)
      else (RecordUse(Wait(u2, env.toSet), counter, env.set_), Accepted)
  }

  /** Disable: the code is validated before the last used counter is looked up. */
  ghost function ValidateThenLookUp(o: Oracles, u: User, secret: seq<Byte>, env: CheckEnv): (User, CheckReply) {
    var u1 := Wait(u, env.toFirst);
    match MatchedCounter(o.hmac, secret, env.code, UnixTime(u1))
    case None => (u1, ErrInvalidCode)
    case Some(counter) =>
      var u2 := Wait(u1, env.toSecond);
      if LastUsed(u2, env.getFails) == Some(counter) then (u2, ErrReused)
      else (RecordUse(Wait(u2, env.toSet), counter, env.set_), Accepted)
  }

  function OfBackup(reply: BackupReply): CheckReply {
    match reply
    case BackupAccepted => Accepted
    case ErrInvalidBackupCode => ErrBadBackupCode
    case BackupFailed => CheckFailed
  }

  /** The code check of Verify and Disable: a backup code, or a one-time code against the secret
      that two shares combine into. */
  ghost function CheckCode(o: Oracles, u: User, env: CheckEnv, verifying: bool): (User, CheckReply)
    requires |u.nodes| == NODES && CheckFits(u, env)
  {
    if IsBackupCode(env.code) then
      var (v, reply) := BackupStep(o, u, env.code, env.rowsFail, env.scan, env.mark);
      (v, OfBackup(reply))
    else
      match Retrieve(u.nodes, env.fails, env.order)
      case None => (u, ErrInsufficientShares)
      case Some(shares) =>
        match CombineSpec(shares)
        case Err(_) => (u, CheckFailed)
        case Ok(secret) =>
          if verifying then LookUpThenValidate(o, u, secret, env) else ValidateThenLookUp(o, u, secret, env)
  }

  datatype Reply =
    | Valid(newlyEnabled: bool) | Disabled
    | ErrNotSetUp | ErrNotEnabled | ErrRateLimited | Refused(check: CheckReply) | InternalError

  /** The record check and the rate check before the code check. */
  function BeforeCheck(u: User, env: CheckEnv): (User, bool) {
    var (v, passed) := RateCheck(Wait(u, env.toLimit), env.limit);
    (if passed then Wait(v, env.toCheck) else v, passed)
  }

  ghost function VerifyStep(o: Oracles, u: User, env: CheckEnv): (User, Reply)
    requires |u.nodes| == NODES && CheckFits(u, env)
  {
    if env.readFails then (u, InternalError)
    else if u.record.None? then (u, ErrNotSetUp)
    else
      var (v, passed) := BeforeCheck(u, env);
      if !passed then (v, ErrRateLimited)
      else
        var (w, check) := CheckCode(o, v, env, true);
        if !check.Accepted? then (w, Refused(check))
        else if IsBackupCode(env.code) || u.record.value then (w, Valid(false))
        else (if env.enable.FailedBefore? then w else w.(record := Some(true)),
              if env.enable.Done? then Valid(true) else InternalError)
  }

  ghost function DisableStep(o: Oracles, u: User, env: CheckEnv): (User, Reply)
    requires |u.nodes| == NODES && CheckFits(u, env)
  {
    if env.readFails then (u, InternalError)
    else if u.record.None? then (u, ErrNotSetUp)
    else if !u.record.value then (u, ErrNotEnabled)
    else
      var (v, passed) := BeforeCheck(u, env);
      if !passed then (v, ErrRateLimited)
      else
        var (w, check) := CheckCode(o, v, env, false);
        if !check.Accepted? then (w, Refused(check)) else Remove(w, env)
  }

  /** Disable after the code check: shares, codes, record, keys; the first failure stops it. */
  ghost function Remove(u: User, env: CheckEnv): (User, Reply)
    requires |u.nodes| == NODES && |env.deletes| == NODES
  {
    var a := u.(nodes := DeleteEverywhere(u.nodes, env.deletes));
    if !AllDone(env.deletes) then (a, InternalError)
    else
      var b := if env.deleteCodes.FailedBefore? then a
               else a.(codes := map[], book := a.book.(accepted := 0, lost := 0, batches := 0));
      if !env.deleteCodes.Done? then (b, InternalError)
      else
        var c := if env.deleteRecord.FailedBefore? then b else b.(record := None);
        if !env.deleteRecord.Done? then (c, InternalError)
        else
          var d := if env.deleteKeys.FailedBefore? then c else c.(limit := None, otp := None);
          (d.(book := d.book.(passes := [], lastPassed := None)), Disabled)
  }

  // ----- Runs -----

  datatype Op = Setup(setup: SetupEnv) | Verify(check: CheckEnv) | Disable(check: CheckEnv) | Tick(d: nat)

  ghost predicate Fits(u: User, op: Op) {
    match op
    case Setup(env) => SetupFits(u, env)
    case Verify(env) => CheckFits(u, env)
    case Disable(env) => CheckFits(u, env)
    case Tick(_) => true
  }

  ghost function Step(o: Oracles, u: User, op: Op): (v: User)
    requires |u.nodes| == NODES && Fits(u, op)
  {
    match op
    case Setup(env) => SetupStep(u, env).0
    case Verify(env) => VerifyStep(o, u, env).0
    case Disable(env) => DisableStep(o, u, env).0
    case Tick(d) => Wait(u, d)
  }

  // What each request leaves alone.

  lemma RateCheckFrame(u: User, fate: LimitFate)
    ensures var v := RateCheck(u, fate).0; v == u.(limit := v.limit, book := u.book.(passes := v.book.passes))
  {}

  /** The rate check changes the attempt counter, its record, and the time. */
  lemma BeforeCheckFrame(u: User, env: CheckEnv)
    ensures var v := BeforeCheck(u, env).0;
            v == u.(now := v.now, limit := v.limit, book := u.book.(passes := v.book.passes)) && v.now >= u.now
  {}

  lemma CheckFrame(o: Oracles, u: User, env: CheckEnv, verifying: bool)
    requires |u.nodes| == NODES && CheckFits(u, env)
    ensures var v := CheckCode(o, u, env, verifying).0;
            v.nodes == u.nodes && v.record == u.record && v.limit == u.limit
            && v.book.splits == u.book.splits && v.book.passes == u.book.passes && v.book.batches == u.book.batches
  {
    hide Retrieve, CombineSpec, MatchedCounter, LastUsed;
  }

  lemma VerifyFrame(o: Oracles, u: User, env: CheckEnv)
    requires |u.nodes| == NODES && CheckFits(u, env)
    ensures var v := VerifyStep(o, u, env).0;
            v.nodes == u.nodes && v.book.splits == u.book.splits
            && (v.record == u.record || (u.record == Some(false) && v.record == Some(true)))
  {
    hide CheckCode;
    var (v, passed) := BeforeCheck(u, env);
    CheckFrame(o, v, env, true);
  }

  lemma DisableFrame(o: Oracles, u: User, env: CheckEnv)
    requires |u.nodes| == NODES && CheckFits(u, env)
    ensures var v := DisableStep(o, u, env).0;
            |v.nodes| == NODES && v.book.splits == u.book.splits
            && (forall i :: 0 <= i < NODES ==> v.nodes[i] == u.nodes[i] || v.nodes[i] == map[])
  {
    hide CheckCode;
    var (v, passed) := BeforeCheck(u, env);
    CheckFrame(o, v, env, false);
  }

  lemma SetupFrame(u: User, env: SetupEnv)
    requires |u.nodes| == NODES && SetupFits(u, env)
    ensures |SetupStep(u, env).0.nodes| == NODES
  {
    hide SplitSpec, Distribute, DeleteEverywhere, AllStored;
  }

  lemma StepNodes(o: Oracles, u: User, op: Op)
    requires |u.nodes| == NODES && Fits(u, op)
    ensures |Step(o, u, op).nodes| == NODES
  {
    hide SetupStep, VerifyStep, DisableStep;
    match op
    case Setup(env) => SetupFrame(u, env);
    case Verify(env) => VerifyFrame(o, u, env);
    case Disable(env) => DisableFrame(o, u, env);
    case Tick(_) =>
  }

  ghost predicate FitsRun(o: Oracles, u: User, ops: seq<Op>)
    requires |u.nodes| == NODES
    decreases |ops|
  {
    ops == [] ||
    (Fits(u, ops[0]) &&
     (StepNodes(o, u, ops[0]);
      FitsRun(o, Step(o, u, ops[0]), ops[1..])))
  }

  ghost function Run(o: Oracles, u: User, ops: seq<Op>): (v: User)
    requires |u.nodes| == NODES && FitsRun(o, u, ops)
    ensures |v.nodes| == NODES
    decreases |ops|
  {
    if ops == [] then u
    else
      StepNodes(o, u, ops[0]);
      Run(o, Step(o, u, ops[0]), ops[1..])
  }

  ghost function NewUser(now: Time): User {
    User(now, [map[], map[], map[]], None, map[], None, None, Book(map[], 0, 0, 0, [], None))
  }
}
