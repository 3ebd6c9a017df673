/** The load-test script's own generator of one-time codes, and its agreement with the service. */
module LoadTestTotp {
  import opened Common
  import opened Totp
  import Base32

  // ----- Numbers in the script -----

  const MAX_SAFE: nat := 0x20_0000_0000_0000

  function Distance(x: real, y: real): real { if x <= y then y - x else x - y }

  /** The quotient t / 30 of the reals. */
  function Exact(t: nat): real { (t as real) / 30.0 }

  /** k sixteenths. */
  function Sixteenths(k: nat): real { (k as real) / 16.0 }

  /** q can be what dividing t by 30 in double precision gives. All sixteenths up to 2^49 are
      doubles, so that the double nearest to the exact quotient is at least as near as each of them. */
  ghost predicate RoundedQuotient(t: nat, q: real) {
    forall k: nat :: k <= MAX_SAFE ==> Distance(q, Exact(t)) <= Distance(Sixteenths(k), Exact(t))
  }

  lemma IntegersAreSixteenths(n: nat)
    ensures Sixteenths(16 * n) == n as real
  {}

  lemma StepAndRest(t: nat)
    ensures Exact(t) - ((t / 30) as real) == ((t % 30) as real) / 30.0
    ensures 0.0 <= Exact(t) - ((t / 30) as real) <= 29.0 / 30.0
  {}

  /** Some sixteenth is within half a sixteenth of the exact quotient. */
  lemma NearSixteenth(t: nat) returns (k: nat)
    requires t < MAX_SAFE
    ensures k <= MAX_SAFE && Distance(Sixteenths(k), Exact(t)) <= 1.0 / 32.0
  {
    // The nearest integer to 16 * t / 30.
    k := (16 * t + 15) / 30;
    var r := (16 * t + 15) % 30;
    assert 30 * k == 16 * t + 15 - r;
    assert 30.0 * (k as real) == 16.0 * (t as real) + 15.0 - (r as real);
    assert Sixteenths(k) - Exact(t) == (15.0 - (r as real)) / 480.0;
    assert 0.0 <= (r as real) <= 29.0;
  }

  /** Flooring the rounded quotient gives the exact time step. */
  lemma FloorOfQuotient(t: nat, q: real)
    requires t < MAX_SAFE && RoundedQuotient(t, q)
    ensures q.Floor == t / 30
  {
    var step := t / 30;
    StepAndRest(t);
    IntegersAreSixteenths(step);
    assert Distance(q, Exact(t)) <= Distance(Sixteenths(16 * step), Exact(t));
    var k := NearSixteenth(t);
    assert Distance(q, Exact(t)) <= 1.0 / 32.0;
    assert (step as real) <= q < (step as real) + 1.0;
  }

  /** n & 0xff in the script: the low byte of the number wrapped to 32 bits. */
  function AndFF(n: nat): Byte { LowByte(n % 0x1_0000_0000) }

  lemma AndFFIsLowByte(n: nat)
    ensures AndFF(n) == LowByte(n)
  {
    hide ByteOf;
    ModuloTwice(n);
  }

  lemma ModuloTwice(n: nat)
    ensures n % 0x1_0000_0000 % 256 == n % 256
  {}

  method CounterBytes(counter0: nat) returns (bytes: array<Byte>)
    ensures fresh(bytes) && bytes[..] == BigEndian(counter0, 8)
  {
    hide LowByte, BigEndian, AndFF;
    bytes := new Byte[8](_ => 0);
    var counter := counter0;
    var i := 7;
    BigEndianStep(counter, 0);
    assert bytes[8..] == [];
    while i >= 0
      invariant -1 <= i <= 7
      invariant BigEndian(counter, i + 1) + bytes[i + 1..] == BigEndian(counter0, 8)
    {
      BigEndianStep(counter, i);
      AndFFIsLowByte(counter);
      ghost var above := bytes[i + 1..];
      bytes[i] := AndFF(counter);
      assert bytes[i..] == [bytes[i]] + above;
      counter := counter / 256;
      i := i - 1;
    }
    BigEndianStep(counter, 0);
  }

  // ----- Digest by way of hexadecimal text -----

  function HexDigit(n: nat): char
    requires n < 16
  {
    if n < 10 then (n + 48) as char else (n + 87) as char
  }

  /** The hexadecimal text k6 returns for a digest. */
  function Hex(bytes: seq<Byte>): (text: string)
    ensures |text| == 2 * |bytes|
    ensures forall i :: 0 <= i < |bytes| ==>
              text[2 * i] == HexDigit(AsNat(bytes[i]) / 16) && text[2 * i + 1] == HexDigit(AsNat(bytes[i]) % 16)
  {
    seq(2 * |bytes|, i requires 0 <= i < 2 * |bytes| =>
      if i % 2 == 0 then HexDigit(AsNat(bytes[i / 2]) / 16) else HexDigit(AsNat(bytes[i / 2]) % 16))
  }

  /** parseInt of one hexadecimal digit. */
  function ParseHexDigit(c: char): (n: nat)
    ensures n < 16
  {
    if '0' <= c <= '9' then (c as int) - 48
    else if 'a' <= c <= 'f' then (c as int) - 87
    else if 'A' <= c <= 'F' then (c as int) - 55
    else 0
  }

  lemma HexPair(b: Byte)
    ensures ByteOf(16 * ParseHexDigit(HexDigit(AsNat(b) / 16)) + ParseHexDigit(HexDigit(AsNat(b) % 16))) == b
  {
    ByteAsNat(b);
    hide AsNat;
    assert ParseHexDigit(HexDigit(AsNat(b) / 16)) == AsNat(b) / 16;
    assert ParseHexDigit(HexDigit(AsNat(b) % 16)) == AsNat(b) % 16;
  }

  method HmacSha1Bytes(hmac: Hmac, keyBytes: seq<Byte>, msgBytes: seq<Byte>) returns (out: array<Byte>)
    ensures fresh(out) && out[..] == hmac(keyBytes, msgBytes)
  {
    hide AsNat, HexDigit, ParseHexDigit, ByteOf, Hex;
    ghost var digest := hmac(keyBytes, msgBytes);
    var hex := Hex(hmac(keyBytes, msgBytes));
    out := new Byte[|hex| / 2](_ => 0);
    for i := 0 to out.Length
      invariant forall k :: 0 <= k < i ==> out[k] == digest[k]
    {
      HexPair(digest[i]);
      var byte := ByteOf(16 * ParseHexDigit(hex[2 * i]) + ParseHexDigit(hex[2 * i + 1]));
      assert byte == digest[i];
      out[i] := byte;
    }
  }

  // ----- The code as text -----

  function Decimal(n: nat): (text: string) {
    if n < 10 then [Digit(n)] else Decimal(n / 10) + [Digit(n % 10)]
  }

  function PadStart(text: string, width: nat): string {
    if |text| >= width then text else seq(width - |text|, _ => '0') + text
  }

  lemma {:induction false} ZeroDigits(w: nat)
    ensures Digits(0, w) == seq(w, _ => '0')
  {
    if w > 0 {
      ZeroDigits(w - 1);
    }
  }

  /** Padding the shortest decimal text with zeros gives the fixed-width digits. */
  lemma {:induction false} PaddedDecimal(n: nat, w: nat)
    requires w > 0 && n < PowerOfTen(w)
    ensures |Decimal(n)| <= w
    ensures PadStart(Decimal(n), w) == Digits(n, w)
  {
    if n < 10 {
      ZeroDigits(w - 1);
    } else {
      assert n / 10 < PowerOfTen(w - 1);
      PaddedDecimal(n / 10, w - 1);
      var d := Decimal(n / 10);
      assert seq(w - |Decimal(n)|, _ => '0') == seq(w - 1 - |d|, _ => '0');
    }
  }

  // ----- totp -----

  method TotpCode(hmac: Hmac, base32Secret: string, t: nat, quotient: real) returns (r: Result<string, char>)
    requires t < MAX_SAFE && RoundedQuotient(t, quotient)
    ensures r == match Base32.Decode(base32Secret)
                 case Ok(key) => Ok(Otp(hmac, key, t / PERIOD))
                 case Err(c) => Err(c)
  {
    hide Truncate, BigEndian, Word, Digits, RoundedQuotient, Base32.Decode;
    var decoded := Base32.Base32Decode(base32Secret);
    if decoded.Err? {
      return Err(decoded.error);
    }
    var code := CodeForKey(hmac, decoded.value, t, quotient);
    return Ok(code);
  }

  method CodeForKey(hmac: Hmac, keyBytes: seq<Byte>, t: nat, quotient: real) returns (code: string)
    requires t < MAX_SAFE && RoundedQuotient(t, quotient)
    ensures code == Otp(hmac, keyBytes, t / PERIOD)
  {
    hide CodeOf, BigEndian, RoundedQuotient;
    FloorOfQuotient(t, quotient);
    var counter := quotient.Floor;
    var message := CounterBytes(counter);
    var digest := HmacSha1Bytes(hmac, keyBytes, message[..]);
    code := DigestText(digest);
  }

  method DigestText(digest: array<Byte>) returns (code: string)
    requires digest.Length == 20
    ensures code == CodeOf(digest[..])
  {
    hide Truncate, Digits, SixDigitPart;
    var truncated := TruncateDigest(digest);
    code := SixDigitText(SixDigitPart(truncated));
  }

  /** toString and padStart. */
  method SixDigitText(code: nat) returns (text: string)
    requires code < 1_000_000
    ensures text == Digits(code, 6)
  {
    assert PowerOfTen(6) == 1_000_000;
    PaddedDecimal(code, 6);
    text := PadStart(Decimal(code), 6);
  }

  method TruncateDigest(digest: array<Byte>) returns (truncated: bv32)
    requires digest.Length == 20
    ensures truncated == Truncate(digest[..])
  {
    hide Word, Low7, AsNat;
    OffsetBound(digest[19]);
    var offset := AsNat(digest[digest.Length - 1] & 0x0F);
    KeepByte(digest[offset + 1]);
    KeepByte(digest[offset + 2]);
    KeepByte(digest[offset + 3]);
    truncated := Word(Low7(digest[offset]),
                      digest[offset + 1] & 0xFF, digest[offset + 2] & 0xFF, digest[offset + 3] & 0xFF);
  }

  lemma KeepByte(b: Byte)
    ensures b & 0xFF == b
  {}

  /** The service's generator and the script produce the same code for every non-empty secret and time. */
  method Compare(hmac: Hmac, secret: seq<Byte>, t: nat, quotient: real) returns (go: string, js: Result<string, char>)
    requires |secret| > 0 && t < MAX_SAFE
    requires RoundedQuotient(t, quotient)
    ensures js == Ok(go)
    ensures go == Otp(hmac, secret, t / PERIOD)
  {
    go := GenerateOTP(hmac, secret, t);
    Base32.DecodeInvertsEncode(secret, 0);
    assert Base32.Encode(secret) + seq(0, _ => '=') == Base32.Encode(secret);
    js := TotpCode(hmac, Base32.Encode(secret), t, quotient);
  }
}
