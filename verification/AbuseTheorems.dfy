/** The bound on attempts and the accounting of backup codes. */
module AbuseTheorems {
  import opened Common
  import opened Validation
  import opened Shamir
  import opened Combine
  import opened TwoFA

  // ----- Working Redis -----

  ghost predicate RedisWorks(op: Op) {
    match op
    case Verify(env) => env.limit.LimitOk? && !env.getFails && env.set_.Done?
    case Disable(env) => env.limit.LimitOk? && !env.getFails && env.set_.Done?
    case _ => true
  }

  // ----- At most ten attempts in any 300 seconds -----

  /** The number of times from lo up to, not including, hi. */
  ghost function Count(times: seq<Time>, lo: int, hi: int): nat {
    if times == [] then 0
    else Count(times[..|times| - 1], lo, hi) + if lo <= times[|times| - 1] < hi then 1 else 0
  }

  lemma CountAppend(times: seq<Time>, t: Time, lo: int, hi: int)
    ensures Count([], lo, hi) == 0
    ensures Count(times + [t], lo, hi) == Count(times, lo, hi) + if lo <= t < hi then 1 else 0
  {}

  lemma {:induction false} CountSplits(times: seq<Time>, lo: int, mid: int, hi: int)
    requires lo <= mid <= hi
    ensures Count(times, lo, hi) == Count(times, lo, mid) + Count(times, mid, hi)
  {
    if times != [] {
      CountSplits(times[..|times| - 1], lo, mid, hi);
    }
  }

  lemma {:induction false} CountAll(times: seq<Time>, lo: int, hi: int, end: int)
    requires forall i :: 0 <= i < |times| ==> times[i] < end
    ensures hi >= end ==> Count(times, lo, hi) == Count(times, lo, end)
    ensures lo >= end ==> Count(times, lo, hi) == 0
  {
    if times != [] {
      CountAll(times[..|times| - 1], lo, hi, end);
    }
  }

  /** The fixed windows seen through the attempts let through: those of the current window are
      as many as the counter allows, those of the window before it at most five, and every
      interval of the length of a window holds at most ten. */
  ghost predicate Bounded(u: User) {
    && (forall i :: 0 <= i < |u.book.passes| ==> u.book.passes[i] <= u.now)
    && (u.limit.None? ==> u.book.passes == [])
    && (u.limit.Some? ==>
          && u.limit.value.expiry.Some? && u.limit.value.count > 0
          && u.limit.value.expiry.value - WINDOW <= u.now
          && WindowsBounded(u.book.passes, u.limit.value.count, u.limit.value.expiry.value))
    && AtMostTen(u.book.passes)
  }

  ghost predicate WindowsBounded(passes: seq<Time>, count: nat, expiry: Time) {
    var start := expiry - WINDOW;
    && (forall i :: 0 <= i < |passes| ==> passes[i] < expiry)
    && Count(passes, start, expiry) <= (if count < MAX_ATTEMPTS then count else MAX_ATTEMPTS)
    && (forall a: int :: start - WINDOW < a <= start ==> Count(passes, a, start) <= MAX_ATTEMPTS)
  }

  ghost predicate AtMostTen(passes: seq<Time>) {
    forall a: int :: CountFrom(passes, a) <= 2 * MAX_ATTEMPTS
  }

  /** The number of times in the 300 seconds from a on. */
  ghost function CountFrom(times: seq<Time>, a: int): nat { Count(times, a, a + WINDOW) }

  /** One more attempt within the current window. */
  lemma PassInWindow(passes: seq<Time>, t: Time, count: nat, expiry: Time)
    requires WindowsBounded(passes, count, expiry) && AtMostTen(passes)
    requires expiry - WINDOW <= t < expiry && count < MAX_ATTEMPTS
    requires forall i :: 0 <= i < |passes| ==> passes[i] <= t
    ensures WindowsBounded(passes + [t], count + 1, expiry) && AtMostTen(passes + [t])
  {
    var start := expiry - WINDOW;
    var longer := passes + [t];
    CountAppend(passes, t, start, expiry);
    forall a: int | start - WINDOW < a <= start
      ensures Count(longer, a, start) <= MAX_ATTEMPTS
    {
      CountAppend(passes, t, a, start);
    }
    forall a: int
      ensures CountFrom(longer, a) <= 2 * MAX_ATTEMPTS
    {
      assert CountFrom(passes, a) <= 2 * MAX_ATTEMPTS;
      CountAppend(passes, t, a, a + WINDOW);
      if a <= t < a + WINDOW {
        var mid := if a <= start then start else a;
        CountSplits(longer, a, mid, a + WINDOW);
        if a > start {
          CountAll(longer, a, a + WINDOW, expiry);
          CountSplits(longer, start, a, expiry);
        } else {
          CountSplits(longer, start, a + WINDOW, expiry);
          CountAppend(passes, t, a, start);
        }
      }
    }
  }

  /** The first attempt of a new window. */
  lemma PassOpensWindow(passes: seq<Time>, t: Time, count: nat, expiry: Time)
    requires passes == [] || (WindowsBounded(passes, count, expiry) && expiry <= t)
    requires AtMostTen(passes)
    ensures WindowsBounded(passes + [t], 1, t + WINDOW) && AtMostTen(passes + [t])
  {
    var longer := passes + [t];
    forall i | 0 <= i < |passes|
      ensures passes[i] < t
    {}
    CountAppend(passes, t, t, t + WINDOW);
    CountAll(passes, t, t + WINDOW, t);
    forall a: int | t - WINDOW < a <= t
      ensures Count(longer, a, t) <= MAX_ATTEMPTS
    {
      CountAppend(passes, t, a, t);
      RecentInOldWindow(passes, t, count, expiry, a);
    }
    forall a: int
      ensures CountFrom(longer, a) <= 2 * MAX_ATTEMPTS
    {
      assert CountFrom(passes, a) <= 2 * MAX_ATTEMPTS;
      CountAppend(passes, t, a, a + WINDOW);
      if a <= t < a + WINDOW {
        CountAll(passes, a, a + WINDOW, t);
        RecentInOldWindow(passes, t, count, expiry, a);
      }
    }
  }

  /** Less than one window length before a new window only the window just expired is seen. */
  lemma RecentInOldWindow(passes: seq<Time>, t: Time, count: nat, expiry: Time, a: int)
    requires passes == [] || (WindowsBounded(passes, count, expiry) && expiry <= t)
    requires t - WINDOW < a <= t
    ensures Count(passes, a, t) <= MAX_ATTEMPTS
  {
    if passes == [] {
    } else if a >= expiry {
      CountAll(passes, a, t, expiry);
    } else {
      CountAll(passes, a, t, expiry);
      CountSplits(passes, expiry - WINDOW, a, expiry);
    }
  }

  lemma RateCheckBounded(u: User, fate: LimitFate)
    requires Bounded(u) && fate.LimitOk?
    ensures Bounded(RateCheck(u, fate).0)
  {
    hide AtMostTen, WindowsBounded;
    var passes := u.book.passes;
    if u.limit.Some? && u.now < u.limit.value.expiry.value {
      var count, expiry := u.limit.value.count, u.limit.value.expiry.value;
      if count < MAX_ATTEMPTS {
        PassInWindow(passes, u.now, count, expiry);
      } else {
        CountMayGrow(passes, count, expiry);
      }
    } else {
      PassOpensWindow(passes, u.now, if u.limit.Some? then u.limit.value.count else 0,
                      if u.limit.Some? then u.limit.value.expiry.value else 0);
    }
  }

  lemma CountMayGrow(passes: seq<Time>, count: nat, expiry: Time)
    requires WindowsBounded(passes, count, expiry) && count >= MAX_ATTEMPTS
    ensures WindowsBounded(passes, count + 1, expiry)
  {}

  lemma CheckKeepsLimit(o: Oracles, u: User, env: CheckEnv, verifying: bool)
    requires |u.nodes| == NODES && CheckFits(u, env) && Bounded(u)
    ensures Bounded(CheckCode(o, u, env, verifying).0)
  {
    hide CheckCode, AtMostTen, WindowsBounded;
    CheckFrame(o, u, env, verifying);
    CheckTime(o, u, env, verifying);
  }

  lemma CheckTime(o: Oracles, u: User, env: CheckEnv, verifying: bool)
    requires |u.nodes| == NODES && CheckFits(u, env)
    ensures CheckCode(o, u, env, verifying).0.now >= u.now
  {
    hide MatchedCounter, CombineSpec, Retrieve, FirstMatch;
  }

  lemma BeforeCheckBounded(u: User, env: CheckEnv)
    requires Bounded(u) && env.limit.LimitOk?
    ensures Bounded(BeforeCheck(u, env).0)
  {
    hide AtMostTen, WindowsBounded, RateCheck;
    RateCheckBounded(Wait(u, env.toLimit), env.limit);
  }

  lemma VerifyBounded(o: Oracles, u: User, env: CheckEnv)
    requires |u.nodes| == NODES && CheckFits(u, env) && env.limit.LimitOk? && Bounded(u)
    ensures Bounded(VerifyStep(o, u, env).0)
  {
    hide CheckCode, BeforeCheck, AtMostTen, WindowsBounded;
    BeforeCheckBounded(u, env);
    BeforeCheckFrame(u, env);
    CheckKeepsLimit(o, BeforeCheck(u, env).0, env, true);
  }

  lemma DisableBounded(o: Oracles, u: User, env: CheckEnv)
    requires |u.nodes| == NODES && CheckFits(u, env) && env.limit.LimitOk? && Bounded(u)
    ensures Bounded(DisableStep(o, u, env).0)
  {
    hide CheckCode, BeforeCheck, Remove, AtMostTen, WindowsBounded;
    BeforeCheckBounded(u, env);
    BeforeCheckFrame(u, env);
    var v := BeforeCheck(u, env).0;
    CheckKeepsLimit(o, v, env, false);
    CheckFrame(o, v, env, false);
    RemoveBounded(CheckCode(o, v, env, false).0, env);
  }

  lemma RemoveBounded(u: User, env: CheckEnv)
    requires |u.nodes| == NODES && |env.deletes| == NODES && Bounded(u)
    ensures Bounded(Remove(u, env).0)
  {
    hide AtMostTen, WindowsBounded, DeleteEverywhere, AllDone;
    NoneIsBounded(u);
  }

  lemma BoundedStep(o: Oracles, u: User, op: Op)
    requires |u.nodes| == NODES && Fits(u, op) && RedisWorks(op) && Bounded(u)
    ensures Bounded(Step(o, u, op))
  {
    hide VerifyStep, DisableStep, SplitSpec, AtMostTen, WindowsBounded;
    match op
    case Setup(env) =>
    case Verify(env) => VerifyBounded(o, u, env);
    case Disable(env) => DisableBounded(o, u, env);
    case Tick(_) =>
  }

  lemma NoneIsBounded(u: User)
    ensures AtMostTen([])
    ensures u.limit.Some? && u.limit.value.expiry.Some? && Bounded(u) ==>
              WindowsBounded([], u.limit.value.count, u.limit.value.expiry.value)
  {}

  lemma {:induction false} BoundedOverRun(o: Oracles, u: User, ops: seq<Op>)
    requires |u.nodes| == NODES && FitsRun(o, u, ops) && Bounded(u)
    requires forall i :: 0 <= i < |ops| ==> RedisWorks(ops[i])
    ensures Bounded(Run(o, u, ops))
    decreases |ops|
  {
    hide Step, Fits, Bounded, RedisWorks;
    if ops != [] {
      StepNodes(o, u, ops[0]);
      BoundedStep(o, u, ops[0]);
      BoundedOverRun(o, Step(o, u, ops[0]), ops[1..]);
    }
  }

  /** In every run with a working Redis, no 300 seconds contain more than ten attempts of the
      same enrolment that get past the rate check of Verify or Disable. */
  lemma AttemptBound(o: Oracles, start: Time, ops: seq<Op>, from: int)
    requires FitsRun(o, NewUser(start), ops)
    requires forall i :: 0 <= i < |ops| ==> RedisWorks(ops[i])
    ensures Count(Run(o, NewUser(start), ops).book.passes, from, from + WINDOW) <= 10
  {
    hide Step, Fits, RedisWorks;
    BoundedOverRun(o, NewUser(start), ops);
    assert CountFrom(Run(o, NewUser(start), ops).book.passes, from) <= 2 * MAX_ATTEMPTS;
  }

  // ----- Backup codes are conserved -----

  /** Unused rows, accepted codes and codes lost to a failed update add up to ten per batch. */
  ghost predicate Conserved(u: User) {
    |Unused(u.codes)| + u.book.accepted + u.book.lost == CODES_PER_BATCH * u.book.batches
  }

  /** An acceptance turns exactly one unused row, one whose hash matches the code, to used. */
  lemma AcceptanceUsesOne(o: Oracles, u: User, code: string, rowsFail: bool, scan: seq<Id>, mark: Outcome)
    requires ScanFits(u.codes, scan)
    requires BackupStep(o, u, code, rowsFail, scan, mark).1 == BackupAccepted
    ensures exists id :: id in Unused(u.codes) && o.matches(u.codes[id].hash, code)
              && BackupStep(o, u, code, rowsFail, scan, mark).0.codes == u.codes[id := CodeRow(u.codes[id].hash, true)]
  {
    FirstMatchIsScanned(o, u.codes, scan, code);
    var id := FirstMatch(o, u.codes, scan, code).value;
    assert id in Unused(u.codes);
  }

  /** A code is refused as invalid exactly when no unused row matches it. */
  lemma RefusalMeansNoMatch(o: Oracles, u: User, code: string, scan: seq<Id>, mark: Outcome)
    requires ScanFits(u.codes, scan)
    ensures BackupStep(o, u, code, false, scan, mark).1 == ErrInvalidBackupCode <==>
            forall id :: id in Unused(u.codes) ==> !o.matches(u.codes[id].hash, code)
  {
    FirstMatchIsScanned(o, u.codes, scan, code);
  }

  lemma BackupConserves(o: Oracles, u: User, code: string, rowsFail: bool, scan: seq<Id>, mark: Outcome)
    requires ScanFits(u.codes, scan) && Conserved(u)
    ensures Conserved(BackupStep(o, u, code, rowsFail, scan, mark).0)
  {
    FirstMatchIsScanned(o, u.codes, scan, code);
    var m := FirstMatch(o, u.codes, scan, code);
    if !rowsFail && m.Some? {
      assert m.value in Unused(u.codes);
      assert Unused(MarkUsed(u.codes, m.value)) == Unused(u.codes) - {m.value};
    }
  }

  lemma {:induction false} IdsSize(ids: seq<Id>)
    requires forall i, j :: 0 <= i < j < |ids| ==> ids[i] != ids[j]
    ensures |set id | id in ids| == |ids|
  {
    if ids != [] {
      var init, last := ids[..|ids| - 1], ids[|ids| - 1];
      IdsSize(init);
      assert ids == init + [last];
      assert (set id | id in ids) == (set id | id in init) + {last};
    }
  }

  lemma NewCodesUnused(codes: map<Id, CodeRow>, ids: seq<Id>, hashes: seq<string>)
    requires |ids| == |hashes|
    requires forall i :: 0 <= i < |ids| ==> ids[i] !in codes
    requires forall i, j :: 0 <= i < j < |ids| ==> ids[i] != ids[j]
    ensures |Unused(codes + NewCodes(ids, hashes))| == |Unused(codes)| + |ids|
  {
    hide NewCodes;
    NewCodesRows(ids, hashes);
    var added := set id | id in ids;
    IdsSize(ids);
    UnusedOfUnion(codes, NewCodes(ids, hashes));
    assert Unused(NewCodes(ids, hashes)) == added;
    assert forall id :: id in Unused(codes) ==> id !in added;
  }

  lemma NewCodesRows(ids: seq<Id>, hashes: seq<string>)
    requires |ids| == |hashes|
    ensures forall id :: id in NewCodes(ids, hashes) <==> id in ids
    ensures forall id :: id in NewCodes(ids, hashes) ==> !NewCodes(ids, hashes)[id].used
  {}

  lemma UnusedOfUnion(a: map<Id, CodeRow>, b: map<Id, CodeRow>)
    requires forall id :: id in b ==> id !in a
    ensures Unused(a + b) == Unused(a) + Unused(b)
  {}

  lemma CheckConserves(o: Oracles, u: User, env: CheckEnv, verifying: bool)
    requires |u.nodes| == NODES && CheckFits(u, env) && Conserved(u)
    ensures Conserved(CheckCode(o, u, env, verifying).0)
  {
    hide MatchedCounter, CombineSpec, Retrieve, BackupStep, LastUsed;
    BackupConserves(o, u, env.code, env.rowsFail, env.scan, env.mark);
  }

  lemma SetupConserves(u: User, env: SetupEnv)
    requires |u.nodes| == NODES && SetupFits(u, env) && Conserved(u)
    ensures Conserved(SetupStep(u, env).0)
  {
    hide SplitSpec, NewCodes, Distribute, DeleteEverywhere, AllStored;
    if env.hashes.Some? {
      NewCodesUnused(u.codes, env.ids, env.hashes.value);
    }
  }

  lemma RequestConserves(o: Oracles, u: User, env: CheckEnv)
    requires |u.nodes| == NODES && CheckFits(u, env) && Conserved(u)
    ensures Conserved(VerifyStep(o, u, env).0) && Conserved(DisableStep(o, u, env).0)
  {
    hide CheckCode, BeforeCheck, DeleteEverywhere, AllDone;
    BeforeCheckFrame(u, env);
    CheckConserves(o, BeforeCheck(u, env).0, env, true);
    CheckConserves(o, BeforeCheck(u, env).0, env, false);
    assert Unused(map[]) == {};
  }

  lemma ConservedStep(o: Oracles, u: User, op: Op)
    requires |u.nodes| == NODES && Fits(u, op) && Conserved(u)
    ensures Conserved(Step(o, u, op))
  {
    hide VerifyStep, DisableStep, SetupStep, ScanFits;
    match op
    case Setup(env) => SetupConserves(u, env);
    case Verify(env) => RequestConserves(o, u, env);
    case Disable(env) => RequestConserves(o, u, env);
    case Tick(_) =>
  }

  lemma {:induction false} ConservedOverRun(o: Oracles, u: User, ops: seq<Op>)
    requires |u.nodes| == NODES && FitsRun(o, u, ops) && Conserved(u)
    ensures Conserved(Run(o, u, ops))
    decreases |ops|
  {
    hide Step, Fits, Conserved;
    if ops != [] {
      StepNodes(o, u, ops[0]);
      ConservedStep(o, u, ops[0]);
      ConservedOverRun(o, Step(o, u, ops[0]), ops[1..]);
    }
  }

  /** In every run, whatever fails: since the codes were last deleted, accepted codes, unused rows
      and codes lost to an update that failed after taking effect add up to ten per stored batch. */
  lemma BackupCodeConservation(o: Oracles, start: Time, ops: seq<Op>)
    requires FitsRun(o, NewUser(start), ops)
    ensures var u := Run(o, NewUser(start), ops);
            u.book.accepted + |Unused(u.codes)| + u.book.lost == 10 * u.book.batches
  {
    hide Step, Fits;
    assert Unused(map[]) == {};
    ConservedOverRun(o, NewUser(start), ops);
  }

  /** No update of a backup code fails after it took effect. */
  ghost predicate MarkingHonest(op: Op) {
    op.Verify? || op.Disable? ==> op.check.mark != FailedAfter
  }

  lemma CheckLosesNothing(o: Oracles, u: User, env: CheckEnv, verifying: bool)
    requires |u.nodes| == NODES && CheckFits(u, env) && env.mark != FailedAfter
    ensures CheckCode(o, u, env, verifying).0.book.lost == u.book.lost
  {
    hide MatchedCounter, CombineSpec, Retrieve, FirstMatch;
  }

  lemma StepLosesNothing(o: Oracles, u: User, op: Op)
    requires |u.nodes| == NODES && Fits(u, op) && MarkingHonest(op) && u.book.lost == 0
    ensures Step(o, u, op).book.lost == 0
  {
    hide CheckCode, BeforeCheck, SplitSpec, Distribute, AllStored, DeleteEverywhere, AllDone;
    match op
    case Verify(env) =>
      BeforeCheckFrame(u, env);
      CheckLosesNothing(o, BeforeCheck(u, env).0, env, true);
    case Disable(env) =>
      BeforeCheckFrame(u, env);
      CheckLosesNothing(o, BeforeCheck(u, env).0, env, false);
    case _ =>
  }

  lemma {:induction false} RunLosesNothing(o: Oracles, u: User, ops: seq<Op>)
    requires |u.nodes| == NODES && FitsRun(o, u, ops) && u.book.lost == 0
    requires forall i :: 0 <= i < |ops| ==> MarkingHonest(ops[i])
    ensures Run(o, u, ops).book.lost == 0
    decreases |ops|
  {
    hide Step, Fits, MarkingHonest;
    if ops != [] {
      StepNodes(o, u, ops[0]);
      StepLosesNothing(o, u, ops[0]);
      RunLosesNothing(o, Step(o, u, ops[0]), ops[1..]);
    }
  }

  /** In every run in which no update of a code fails after taking effect, whatever else fails,
      accepted codes and unused rows alone add up to ten per stored batch. */
  lemma AcceptedPlusUnused(o: Oracles, start: Time, ops: seq<Op>)
    requires FitsRun(o, NewUser(start), ops)
    requires forall i :: 0 <= i < |ops| ==> MarkingHonest(ops[i])
    ensures var u := Run(o, NewUser(start), ops);
            u.book.accepted + |Unused(u.codes)| == 10 * u.book.batches
  {
    hide Step, Fits, MarkingHonest;
    RunLosesNothing(o, NewUser(start), ops);
    BackupCodeConservation(o, start, ops);
  }
}
