/** One-time codes (RFC 4226 and RFC 6238) as the Go service generates and validates them. */
module Totp {
  import opened Common

  // ----- Uninterpreted parts -----

  /** An HMAC-SHA1 digest. */
  type Digest = s: seq<Byte> | |s| == 20 witness seq(20, _ => 0)

  /** Any keyed function from messages to digests may stand for HMAC-SHA1. */
  type Hmac = (seq<Byte>, seq<Byte>) -> Digest

  // ----- Specification -----

  const PERIOD := 30
  const UINT64: nat := 0x1_0000_0000_0000_0000

  /** The last n bytes of a number, most significant first. */
  function BigEndian(value: nat, n: nat): (bytes: seq<Byte>)
    ensures |bytes| == n
  {
    if n == 0 then [] else BigEndian(value / 256, n - 1) + [LowByte(value)]
  }

  function LowByte(value: nat): Byte { ByteOf(value % 256) }

  function ByteOf(n: nat): Byte
    requires n < 256
  {
    n as Byte
  }

  function Offset(h: Digest): (o: nat)
    ensures o < 16
  {
    OffsetBound(h[19]);
    AsNat(h[19] & 0x0F)
  }

  lemma OffsetBound(b: Byte)
    ensures AsNat(b & 0x0F) < 16
  {}

  /** Dynamic truncation (RFC 4226, section 5.4): 31 bits of the four bytes at the offset. */
  function Truncate(h: Digest): bv32 {
    var o := Offset(h);
    Word(Low7(h[o]), h[o + 1], h[o + 2], h[o + 3])
  }

  function Low7(b: Byte): Byte { b & 0x7F }

  function Low31(w: bv32): bv32 { w & 0x7FFF_FFFF }

  function Word(a: Byte, b: Byte, c: Byte, d: Byte): bv32 {
    ((a as bv32) << 24) | ((b as bv32) << 16) | ((c as bv32) << 8) | (d as bv32)
  }

  function Digit(d: nat): char
    requires d < 10
  {
    (('0' as int) + d) as char
  }

  /** The last n decimal digits of a number. */
  function Digits(value: nat, n: nat): (text: string)
    ensures |text| == n
    ensures forall i :: 0 <= i < n ==> '0' <= text[i] <= '9'
  {
    if n == 0 then [] else Digits(value / 10, n - 1) + [Digit(value % 10)]
  }

  function PowerOfTen(w: nat): (p: nat)
    ensures p > 0
  {
    if w == 0 then 1 else 10 * PowerOfTen(w - 1)
  }

  function CodeOf(h: Digest): (code: string) {
    Digits(SixDigitPart(Truncate(h)), 6)
  }

  /** The number modulo 10^6. */
  function SixDigitPart(truncated: bv32): (n: nat)
    ensures n < 1_000_000
  {
    truncated as nat % 1_000_000
  }

  /** The six-digit code for a counter. */
  function Otp(hmac: Hmac, secret: seq<Byte>, counter: nat): (code: string)
    ensures |code| == 6 && forall i :: 0 <= i < 6 ==> '0' <= code[i] <= '9'
  {
    CodeOf(hmac(secret, BigEndian(counter, 8)))
  }

  // ----- Machine integers -----

  predicate IsInt64(x: int) { -0x8000_0000_0000_0000 <= x < 0x8000_0000_0000_0000 }

  /** Conversion to uint64: negative numbers wrap. */
  function ToUint64(x: int): (u: nat)
    ensures u < UINT64
    ensures 0 <= x < UINT64 ==> u == x
    ensures 0 <= x + UINT64 < UINT64 ==> u == x + UINT64
  {
    x % UINT64
  }

  /** Integer division that truncates towards zero. */
  function TruncatedQuotient(x: int, y: nat): int
    requires y > 0
  {
    if x >= 0 then x / y else -((-x) / y)
  }

  /** The quotient of Go: the remainder is smaller than the divisor and has the sign of x. */
  lemma QuotientRemainder(x: int, y: nat)
    requires y > 0
    ensures var rest := x - TruncatedQuotient(x, y) * y;
            rest < y && -rest < y && (x >= 0 ==> rest >= 0) && (x <= 0 ==> rest <= 0)
  {}

  // ----- hotp -----

  /** PutUint64: each byte is cut out of the number on its own. */
  method PutUint64(buf: array<Byte>, value: nat)
    requires buf.Length == 8
    modifies buf
    ensures buf[..] == BigEndian(value, 8)
  {
    hide LowByte;
    buf[0] := LowByte(value / 0x100_0000_0000_0000);
    buf[1] := LowByte(value / 0x1_0000_0000_0000);
    buf[2] := LowByte(value / 0x100_0000_0000);
    buf[3] := LowByte(value / 0x1_0000_0000);
    buf[4] := LowByte(value / 0x100_0000);
    buf[5] := LowByte(value / 0x1_0000);
    buf[6] := LowByte(value / 0x100);
    buf[7] := LowByte(value);
    BigEndianEight(value);
  }

  lemma BigEndianEight(v: nat)
    ensures BigEndian(v, 8) ==
            [LowByte(v / 0x100_0000_0000_0000), LowByte(v / 0x1_0000_0000_0000), LowByte(v / 0x100_0000_0000),
             LowByte(v / 0x1_0000_0000), LowByte(v / 0x100_0000), LowByte(v / 0x1_0000), LowByte(v / 0x100), LowByte(v)]
  {
    hide LowByte, BigEndian;
    BigEndianStep(v / 0x100_0000_0000_0000, 0);
    BigEndianStep(v / 0x1_0000_0000_0000, 1);
    BigEndianStep(v / 0x100_0000_0000, 2);
    BigEndianStep(v / 0x1_0000_0000, 3);
    BigEndianStep(v / 0x100_0000, 4);
    BigEndianStep(v / 0x1_0000, 5);
    BigEndianStep(v / 0x100, 6);
    BigEndianStep(v, 7);
    DivideTwice(v);
  }

  lemma BigEndianStep(v: nat, n: nat)
    ensures BigEndian(v, 0) == []
    ensures BigEndian(v, n + 1) == BigEndian(v / 256, n) + [LowByte(v)]
  {}

  lemma DivideTwice(v: nat)
    ensures v / 0x1_0000_0000_0000 / 256 == v / 0x100_0000_0000_0000
    ensures v / 0x100_0000_0000 / 256 == v / 0x1_0000_0000_0000
    ensures v / 0x1_0000_0000 / 256 == v / 0x100_0000_0000
    ensures v / 0x100_0000 / 256 == v / 0x1_0000_0000
    ensures v / 0x1_0000 / 256 == v / 0x100_0000
    ensures v / 0x100 / 256 == v / 0x1_0000
  {}

  lemma TruncateByMask(a: Byte, b: Byte, c: Byte, d: Byte)
    ensures Word(a, b, c, d) & 0x7FFF_FFFF == Word(a & 0x7F, b, c, d)
  {}

  lemma MaskedWord(a: Byte, b: Byte, c: Byte, d: Byte)
    ensures Low31(Word(a, b, c, d)) == Word(Low7(a), b, c, d)
  {
    hide Word;
    TruncateByMask(a, b, c, d);
  }

  lemma TruncateMasks(h: Digest)
    ensures var o := Offset(h); Truncate(h) == Low31(Word(h[o], h[o + 1], h[o + 2], h[o + 3]))
  {
    hide Offset, Word, Low7, Low31;
    var o := Offset(h);
    MaskedWord(h[o], h[o + 1], h[o + 2], h[o + 3]);
  }

  /** hotp; an empty secret panics. */
  method Hotp(hmac: Hmac, secret: seq<Byte>, counter: nat) returns (code: string)
    requires |secret| > 0
    ensures code == Otp(hmac, secret, counter)
  {
    hide Truncate, BigEndian, Digits, SixDigitPart;
    var buf := new Byte[8];
    PutUint64(buf, counter);
    var h := hmac(secret, buf[..]);
    var truncated := DynamicTruncation(h);
    code := Digits(SixDigitPart(truncated), 6);
  }

  method DynamicTruncation(h: Digest) returns (truncated: bv32)
    ensures truncated == Truncate(h)
  {
    hide *;
    var o := Offset(h);
    truncated := Word(h[o], h[o + 1], h[o + 2], h[o + 3]);
    truncated := Low31(truncated);
    TruncateMasks(h);
  }

  method GenerateOTP(hmac: Hmac, secret: seq<Byte>, unixTime: int) returns (code: string)
    requires |secret| > 0 && IsInt64(unixTime)
    ensures code == Otp(hmac, secret, ToUint64(unixTime) / PERIOD)
  {
    code := Hotp(hmac, secret, ToUint64(unixTime) / PERIOD);
  }
}
