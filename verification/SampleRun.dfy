/** A sample user: a digest function, codes and requests without faults, for runs that show what
    can happen. */
module SampleRun {
  import opened Common
  import opened Totp
  import opened Validation
  import opened Shamir
  import opened TwoFA
  import opened EnrolmentTheorems
  import opened AbuseTheorems

  const CODE_ONE: Digest := [0, 0, 0, 1, 0, 0, 0, 0, 0, 0, 0, 0, 0, 0, 0, 0, 0, 0, 0, 0]
  const CODE_ZERO: Digest := [0, 0, 0, 0, 0, 0, 0, 0, 0, 0, 0, 0, 0, 0, 0, 0, 0, 0, 0, 0]

  /** A digest function whose code is 000001 for counter 2 and 000000 otherwise. */
  const SAMPLE: Hmac := (key: seq<Byte>, message: seq<Byte>) =>
    if message == BigEndian(2, 8) then CODE_ONE else CODE_ZERO

  lemma SampleCodes(secret: seq<Byte>)
    ensures Otp(SAMPLE, secret, 2) == "000001"
    ensures Otp(SAMPLE, secret, 0) == Otp(SAMPLE, secret, 1) == Otp(SAMPLE, secret, 3) == "000000"
  {
    CodeOfSamples();
    CountersDiffer();
    hide CodeOf, BigEndian;
  }

  lemma CountersDiffer()
    ensures BigEndian(0, 8) != BigEndian(2, 8) && BigEndian(1, 8) != BigEndian(2, 8)
    ensures BigEndian(3, 8) != BigEndian(2, 8)
  {
    hide LowByte, BigEndian;
    BigEndianStep(0, 7);
    assert BigEndian(0, 8)[7] == LowByte(0);
    BigEndianStep(1, 7);
    BigEndianStep(2, 7);
    BigEndianStep(3, 7);
    assert BigEndian(1, 8)[7] == LowByte(1) && BigEndian(2, 8)[7] == LowByte(2) && BigEndian(3, 8)[7] == LowByte(3);
    assert LowByte(0) != LowByte(2) && LowByte(1) != LowByte(2) && LowByte(3) != LowByte(2) by { SmallLowBytes(); }
  }

  lemma SmallLowBytes()
    ensures LowByte(0) == 0 && LowByte(1) == 1 && LowByte(2) == 2 && LowByte(3) == 3
  {}

  lemma CodeOfSamples()
    ensures CodeOf(CODE_ONE) == "000001" && CodeOf(CODE_ZERO) == "000000"
  {
    hide Truncate, SixDigitPart;
    assert Truncate(CODE_ONE) == 1 by { TruncateOne(); }
    assert Truncate(CODE_ZERO) == 0 by { TruncateZero(); }
    assert SixDigitPart(1) == 1 && SixDigitPart(0) == 0 by { SmallParts(); }
    SmallDigits();
  }

  lemma TruncateOne()
    ensures Truncate(CODE_ONE) == 1
  {
    assert Offset(CODE_ONE) == 0;
  }

  lemma TruncateZero()
    ensures Truncate(CODE_ZERO) == 0
  {
    assert Offset(CODE_ZERO) == 0;
  }

  lemma SmallParts()
    ensures SixDigitPart(1) == 1 && SixDigitPart(0) == 0
  {}

  lemma SmallDigits()
    ensures Digits(1, 6) == "000001" && Digits(0, 6) == "000000"
  {
    hide Digits;
    DigitsStep(0, 0); DigitsStep(0, 1); DigitsStep(0, 2); DigitsStep(0, 3); DigitsStep(0, 4); DigitsStep(0, 5);
    DigitsStep(1, 5);
    assert Digits(0, 5) == "00000";
  }

  lemma DigitsStep(value: nat, n: nat)
    ensures Digits(value, 0) == []
    ensures Digits(value, n + 1) == Digits(value / 10, n) + [Digit(value % 10)]
  {}

  lemma SampleMatches(secret: seq<Byte>)
    ensures MatchedCounter(SAMPLE, secret, "000001", 30) == Some(2)
    ensures MatchedCounter(SAMPLE, secret, "000001", 119) == Some(2)
  {
    SampleCodes(secret);
    hide Otp;
  }

  /** Every backup code matches the hash "a", and no other. */
  const SAMPLE_ORACLES: Oracles := Oracles(SAMPLE, (hash, code) => hash == "a")
  const SAMPLE_SECRET: seq<Byte> := seq(20, _ => 7)
  const SAMPLE_IDS: seq<Id> := ["a", "b", "c", "d", "e", "f", "g", "h", "i", "j"]
  const ALL_DONE: seq<Outcome> := [Done, Done, Done]

  const SAMPLE_SETUP := SetupEnv(
    false, Some(SAMPLE_SECRET), seq(20, _ => Some([1])), 0, ALL_DONE, ALL_DONE, Done,
    Some(SAMPLE_IDS), SAMPLE_IDS, Done)

  /** A request with code 000001 during which no call fails and time passes only as given. */
  function SampleCheck(toLimit: nat, toSecond: nat): CheckEnv {
    CheckEnv("000001", false, toLimit, 0, 0, toSecond, 0, LimitOk, false, SAMPLE_IDS, Done,
             [false, false, false], [0, 1, 2], false, Done, Done, ALL_DONE, Done, Done, Done)
  }

  lemma SampleSetupFits(start: Time)
    ensures SetupFits(NewUser(start), SAMPLE_SETUP) && FaultFree(NewUser(start), SAMPLE_SETUP)
  {}

  lemma SampleScanFits(u: User)
    requires u.codes == NewCodes(SAMPLE_IDS, SAMPLE_IDS)
    ensures ScanFits(u.codes, SAMPLE_IDS)
  {
    hide NewCodes;
    NewCodesRows(SAMPLE_IDS, SAMPLE_IDS);
  }

  /** After the sample Setup the user is enrolled with the sample secret and ten unused codes. */
  lemma SampleSetup(start: Time)
    ensures SetupFits(NewUser(start), SAMPLE_SETUP)
    ensures var v := SetupStep(NewUser(start), SAMPLE_SETUP).0;
            && Enrolled(v, 0) && v.book.splits[0].secret == SAMPLE_SECRET
            && v.now == start && v.record == Some(false) && v.limit.None? && v.otp.None? && v.book.lastPassed.None?
            && v.codes == NewCodes(SAMPLE_IDS, SAMPLE_IDS)
  {
    hide Enrolled, NewCodes, FaultFree;
    SampleSetupFits(start);
    FaultFreeSetup(NewUser(start), SAMPLE_SETUP);
    SetupEnrols(NewUser(start), SAMPLE_SETUP);
    SetupData(start);
  }

  lemma SetupData(start: Time)
    requires SetupFits(NewUser(start), SAMPLE_SETUP)
    requires SetupStep(NewUser(start), SAMPLE_SETUP).1 == SetupDone
    ensures var v := SetupStep(NewUser(start), SAMPLE_SETUP).0;
            && v.now == start && v.record == Some(false) && v.limit.None? && v.otp.None? && v.book.lastPassed.None?
            && v.codes == NewCodes(SAMPLE_IDS, SAMPLE_IDS)
  {
    hide SplitSpec, NewCodes, Distribute, AllStored;
    assert map[] + NewCodes(SAMPLE_IDS, SAMPLE_IDS) == NewCodes(SAMPLE_IDS, SAMPLE_IDS);
  }

  /** Verify accepts the sample code 30 s after the epoch, for counter 2, and enables the record. */
  lemma SampleVerify(u: User)
    requires Enrolled(u, 0) && u.book.splits[0].secret == SAMPLE_SECRET
    requires u.now == 30_000 && u.record == Some(false) && u.limit.None? && u.otp.None?
    requires u.codes == NewCodes(SAMPLE_IDS, SAMPLE_IDS)
    ensures CheckFits(u, SampleCheck(0, 0))
    ensures VerifyStep(SAMPLE_ORACLES, u, SampleCheck(0, 0)) ==
            (u.(record := Some(true), limit := Some(Limit(1, Some(330_000))), otp := Some(UsedOtp(2, 120_000)),
                book := u.book.(passes := u.book.passes + [30_000], lastPassed := Some(2))), Valid(true))
  {
    hide Enrolled, CheckCode, MatchedCounter, SAMPLE, NewCodes;
    EnrolledMeans(u, 0);
    SampleScanFits(u);
    var env := SampleCheck(0, 0);
    var v := BeforeCheck(u, env).0;
    assert Enrolled(v, 0) by { SameEnrolment(u, v, 0); }
    VerifyUsesTheSecret(SAMPLE_ORACLES, v, 0, env);
    SampleMatches(SAMPLE_SECRET);
  }
}
