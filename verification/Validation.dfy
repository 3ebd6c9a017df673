/** Validation of one-time codes against the current, previous and next time step. */
module Validation {
  import opened Common
  import opened Totp

  /** The scan that rejects anything but six digits. */
  method IsSixDigits(code: string) returns (ok: bool)
    ensures ok <==> |code| == 6 && forall i :: 0 <= i < |code| ==> '0' <= code[i] <= '9'
  {
    if |code| != 6 {
      return false;
    }
    for i := 0 to |code|
      invariant forall k :: 0 <= k < i ==> '0' <= code[k] <= '9'
    {
      if code[i] < '0' || code[i] > '9' {
        return false;
      }
    }
    return true;
  }

  function Compare(x: string, y: string): (r: int) { if x == y then 1 else 0 }

  function Or(x: int, y: int): int { if x == 1 || y == 1 then 1 else 0 }

  /** The time steps in which a code is accepted. */
  ghost predicate InWindow(k: int, counter: nat) {
    k == counter || k == counter + 1 || (counter > 0 && k == counter - 1)
  }

  method ValidateOTPAt(hmac: Hmac, secret: seq<Byte>, code: string, unixTime: int) returns (ok: bool)
    requires |secret| > 0 && IsInt64(unixTime)
    ensures ok <==> exists k: nat :: InWindow(k, ToUint64(unixTime) / PERIOD) && Otp(hmac, secret, k) == code
  {
    hide Otp;
    var digits := IsSixDigits(code);
    if !digits {
      return false;
    }
    var counter := ToUint64(unixTime) / PERIOD;
    var otp := Hotp(hmac, secret, counter);
    var match_ := Compare(otp, code);
    otp := Hotp(hmac, secret, counter + 1);
    match_ := Or(match_, Compare(otp, code));
    if counter > 0 {
      otp := Hotp(hmac, secret, counter - 1);
      match_ := Or(match_, Compare(otp, code));
    }
    assert InWindow(counter, counter) && InWindow(counter + 1, counter);
    assert counter > 0 ==> InWindow(counter - 1, counter);
    ok := match_ == 1;
  }

  /** The time step a code is attributed to: the current one first, then the previous, then the next. */
  function MatchedCounter(hmac: Hmac, secret: seq<Byte>, code: string, unixTime: int): (m: Option<int>)
  {
    var counter := TruncatedQuotient(unixTime, PERIOD);
    if Otp(hmac, secret, ToUint64(counter)) == code then Some(counter)
    else if counter > 0 && Otp(hmac, secret, ToUint64(counter - 1)) == code then Some(counter - 1)
    else if Otp(hmac, secret, ToUint64(counter + 1)) == code then Some(counter + 1)
    else None
  }

  method ValidateOTPWithCounterAt(hmac: Hmac, secret: seq<Byte>, code: string, unixTime: int)
    returns (ok: bool, matched: int)
    requires |secret| > 0
    ensures MatchedCounter(hmac, secret, code, unixTime) == if ok then Some(matched) else None
    ensures !ok ==> matched == 0
  {
    hide Otp;
    var digits := IsSixDigits(code);
    if !digits {
      return false, 0;
    }
    var counter := TruncatedQuotient(unixTime, PERIOD);
    var otp := Hotp(hmac, secret, ToUint64(counter));
    var matchCurr := Compare(otp, code);
    otp := Hotp(hmac, secret, ToUint64(counter + 1));
    var matchNext := Compare(otp, code);
    var matchPrev := 0;
    if counter > 0 {
      otp := Hotp(hmac, secret, ToUint64(counter - 1));
      matchPrev := Compare(otp, code);
    }
    if matchCurr == 1 {
      return true, counter;
    } else if matchPrev == 1 {
      return true, counter - 1;
    } else if matchNext == 1 {
      return true, counter + 1;
    } else {
      return false, 0;
    }
  }

  /** From the epoch on, both validators accept the same codes, and the counter reported is a
      time step of the window whose code is the one given, the closest to now. */
  lemma ValidatorsAgree(hmac: Hmac, secret: seq<Byte>, code: string, unixTime: int)
    requires IsInt64(unixTime) && unixTime >= 0
    ensures MatchedCounter(hmac, secret, code, unixTime).Some? <==>
            exists k: nat :: InWindow(k, ToUint64(unixTime) / PERIOD) && Otp(hmac, secret, k) == code
    ensures match MatchedCounter(hmac, secret, code, unixTime)
            case None => true
            case Some(k) =>
              && k >= 0 && InWindow(k, unixTime / PERIOD) && Otp(hmac, secret, k) == code
              && (k != unixTime / PERIOD ==> Otp(hmac, secret, unixTime / PERIOD) != code)
              && (k == unixTime / PERIOD + 1 ==>
                    forall j: nat :: InWindow(j, unixTime / PERIOD) && Otp(hmac, secret, j) == code ==> j == k)
  {
    hide Otp;
    var c := unixTime / PERIOD;
    assert InWindow(c, c) && InWindow(c + 1, c);
    assert c > 0 ==> InWindow(c - 1, c);
  }

  /** A code generated up to one time step away is accepted. */
  lemma GeneratedCodeAccepted(hmac: Hmac, secret: seq<Byte>, generatedAt: int, validatedAt: int)
    requires IsInt64(generatedAt) && IsInt64(validatedAt) && generatedAt >= 0 && validatedAt >= 0
    requires -1 <= generatedAt / PERIOD - validatedAt / PERIOD <= 1
    ensures MatchedCounter(hmac, secret, Otp(hmac, secret, ToUint64(generatedAt) / PERIOD), validatedAt).Some?
  {
    hide Otp;
    var k := generatedAt / PERIOD;
    assert InWindow(k, validatedAt / PERIOD);
    ValidatorsAgree(hmac, secret, Otp(hmac, secret, k), validatedAt);
  }
}
