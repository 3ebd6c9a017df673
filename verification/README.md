# Verification of the secret-sharing, two-factor and session logic

This Dafny project models four parts of the system and proves what they promise. `dafny verify dfyconfig.toml`
checks all of it.

**Secret sharing over GF(2^8).** The field of FIPS 197, section 4.2, is defined by the shift-and-XOR product
(`Gf256`); its laws are proved, 3 is shown to have order exactly 255 (`Generator`), and the log/exp tables built in
place agree with it (`Gf256Tables`). Over this field come polynomials of any length (`Polynomials`) and Lagrange
interpolation (`Lagrange`). The loops of Split and Combine work on arrays and are proved to compute that algebra
(`Shamir`, `Combine`); `SharingTheorems` has the round trip, independence of order, and secrecy. The random
coefficients are an arbitrary input, and so is a failing random source.

**Two-factor enrolment over three share nodes.** `TwoFA` describes, for one user, the share rows on the nodes, the
record, the backup codes, the attempt counter, the last used one-time code and a clock in milliseconds, and what Setup,
Verify and Disable do to them. Every remote call either succeeds, fails without effect or fails after it took effect;
answers of the nodes arrive in any order; any time may pass between the calls. `TwoFAStores` and `TwoFAService` are the
same system as objects updated in place for many users; every method is proved to compute the step of the description
for its user and to leave all others alone. `EnrolmentTheorems`, `RecordTheorems`,
`NodeSecrecy`, `ReplayTheorems`, `AbuseTheorems`, `RateLimitTheorems` and `LockOutTheorems` prove what every run keeps;
`AnswerTheorems` says exactly when each request gives which answer, `CodeTheorems` that good codes work in every run;
`SampleRun` has the user of the runs that show what can happen.

**Refresh-token sessions.** `SessionStore` describes the three families of Redis keys (token, family set, user set) with
their expiry times, and the index invariant. `AuthSessions` adds Login, rotation with replay detection, and logout;
`AuthService` is the in-place form; `SessionTheorems` has the run properties, and `SessionAnswers` says which answer every
request gives and how long the tokens handed out work. `OverlappingSessions` lets requests overlap, one step at a time, and
proves the index invariant for every interleaving; `SessionIndex` adds that nothing is left over in the index,
`SerialRequests` that whole requests are among the interleavings, and `OverlappingRevocation` says when a revoked family can
come back.

**One-time codes.** `Totp` and `Validation` model the Go generator and validators (RFC 4226, section 5.3; RFC 6238,
sections 4.2 and 5.2), `Base32` the RFC 4648, section 6, text and the load-test decoder with its 32-bit shift register, and
`LoadTestTotp` the load-test generator. The two generators are proved to produce the same codes. `CodeNumbers` and
`Base32Numbers` say in arithmetic what the codes and the texts are.

Conventions of the model. `Tracked`, `home`, `owner`, `last`, `split`, `Book` and `books` are bookkeeping for stating
properties; no decision depends on them. A Redis key with an expiry time is present strictly before that time. The
service and Redis share one clock. An expiry claim is cut to whole seconds and a token parses strictly before it, as the
JWT library does. Identifiers drawn by `uuid.New` are new. Lifetimes of refresh tokens are positive whole numbers of
seconds, as configured. "Run" means requests of one user one after the other, except in `OverlappingSessions` and
`OverlappingRevocation`, where they interleave.

## Promises that hold only under a condition

Verify looks up the last used counter before it validates the code (`twofa/internal/services/twofaService/verify.go:98`),
Disable after (`twofa/internal/services/twofaService/disable.go:44-50`). So two consecutive accepted codes never match the
same counter when the second is presented to Verify, at any timing (`ReplayTheorems.NoAdjacentReplay`), but Disable
accepts the counter again when the stored one expires between the two calls: `ReplayTheorems.AdjacentReplayInDisable`
says exactly when, for every run, and `ReplayTheorems.DisableCanAcceptTwice` is a run in which it happens.

A refusal by the attempt limit is meant to last 300 s. It does unless a first increment loses its expiry time and the
compensating delete fails too, or the increment is applied but reports an error
(`twofa/internal/storage/redisstorage/rate_limit.go:14-24`). Then the counter stays, and once it is at the limit the user
is refused for ever (`RateLimitTheorems.RefusalEnds`, `RateLimitTheorems.StuckForEver`); `RateLimitTheorems.UserGetsStuck`
is a run in which it happens.

A valid refresh token that was never used is meant not to pass for a replay. It never does when the look-up comes before
its expiry claim; a token that parses just before the claim and is looked up after its Redis entry expired is taken for a replay
(`auth/internal/services/auth_service/refresh_token.go:17-43`). `SessionTheorems.NoFalseAlarm` says exactly when, and
`SessionTheorems.GenuineTokenTakenForReplay` is a run in which it happens.

A revoked family is meant to stay dead. It does when requests come one after the other
(`SessionTheorems.RevokedFamilyStaysDead`), and when they overlap exactly if no waiting request will still store a token
into the family (`OverlappingRevocation.DeadForEver`); `OverlappingRevocation.RevokedFamilyComesBack` is a run in which one
does.

A Disable that fails is meant to be repeated. In every reachable state with 2FA on some Disable can succeed, now or later,
exactly if two nodes hold their shares or some backup code still works; otherwise the user is locked out for ever
(`LockOutTheorems.LockOutIsExact`, `LockOutTheorems.LockedForEver`). An accepted Disable leads there exactly when at most one
node keeps its share, no backup code works after it, and it does not get to delete the record
(`twofa/internal/services/twofaService/disable.go:95-108`, `LockOutTheorems.AcceptedDisableLocks`). In the two runs of
`LockOutTheorems.UserGetsLockedOut` only the deletion of the record fails, or only one node is down.

## Model

| member | source | states |
|---|---|---|
| `Gf256.GfMulNoTable` | twofa/internal/crypto/shamir/gf256.go:14-28 | the loop over a, b and result computes the product of the two polynomials modulo 0x11B |
| `Gf256.ProductAddsLeft` | twofa/internal/crypto/shamir/gf256.go:14-28 | the product distributes over addition on the left, for all bytes |
| `Gf256.ProductAddsRight` | twofa/internal/crypto/shamir/gf256.go:14-28 | the product distributes over addition on the right |
| `Gf256.ProductCommutative` | twofa/internal/crypto/shamir/gf256.go:14-28 | shift-and-XOR gives the same product with the operands exchanged |
| `Gf256.ProductAssociative` | twofa/internal/crypto/shamir/gf256.go:14-28 | the product is associative |
| `Gf256.ProductByOne` | twofa/internal/crypto/shamir/gf256.go:14-28 | 1 is the unit on both sides |
| `Gf256.ZeroProduct` | twofa/internal/crypto/shamir/gf256.go:51-54 | 0 annihilates on both sides, which gfMul answers without the tables |
| `Gf256.PowerAdds` | twofa/internal/crypto/shamir/gf256.go:30-42 | exponents add under the product |
| `Generator.GeneratorPowers` | twofa/internal/crypto/shamir/gf256.go:31-40 | 3 to the 255 is 1 again, and is not 1 for the maximal proper divisors of 255 |
| `Generator.GeneratorOrder` | twofa/internal/crypto/shamir/gf256.go:31-32 | no power of 3 with an exponent between 1 and 254 is 1: the order of 3 is exactly 255 |
| `Generator.PowersDistinct` | twofa/internal/crypto/shamir/gf256.go:34-38 | the 255 values of x in the loop are pairwise different |
| `Generator.LogExistsOnce` | twofa/internal/crypto/shamir/gf256.go:32-38 | every nonzero byte is one of them, with exactly one exponent: every nonzero log entry is written exactly once |
| `Generator.PowerModulo` | twofa/internal/crypto/shamir/gf256.go:55 | reducing an exponent modulo 255 does not change the power |
| `Generator.NonZeroProduct` | twofa/internal/crypto/shamir/gf256.go:51-56 | a product is zero exactly when a factor is |
| `Generator.CancelFactor` | twofa/internal/crypto/shamir/gf256.go:60-68 | a nonzero factor may be cancelled, so quotients are unique |
| `Gf256Tables.Tables.constructor` | twofa/internal/crypto/shamir/gf256.go:8-9 | new tables, filled, agree with powers and logarithms of 3 |
| `Gf256Tables.Tables.Init` | twofa/internal/crypto/shamir/gf256.go:30-42 | the loop fills exp with the powers of 3 and log with the discrete logarithms, entry 0 of log staying 0 |
| `Gf256.AddCancel` | twofa/internal/crypto/shamir/gf256.go:45-47 | addition is its own inverse, so that it serves as subtraction, and a sum is zero exactly for equal operands, so that sums of distinct indices may divide |
| `Gf256Tables.Tables.GfMul` | twofa/internal/crypto/shamir/gf256.go:51-56 | the table look-up is the shift-and-XOR product, zero included |
| `Gf256Tables.Tables.GfDiv` | twofa/internal/crypto/shamir/gf256.go:60-68 | the table look-up is the quotient, the one q with q * b = a; b must not be 0 |
| `Gf256Tables.Tables.GfInv` | twofa/internal/crypto/shamir/gf256.go:71-76 | the table look-up is the multiplicative inverse; a must not be 0 |
| `Gf256Tables.MulByLogs` | twofa/internal/crypto/shamir/gf256.go:55 | the product of nonzero bytes is the power of 3 to the sum of their logarithms modulo 255 |
| `Gf256Tables.DivByLogs` | twofa/internal/crypto/shamir/gf256.go:64-67 | the quotient is the power to the difference of the logarithms plus 255, modulo 255 |
| `Gf256Tables.InvByLog` | twofa/internal/crypto/shamir/gf256.go:75 | the inverse is the power to 255 minus the logarithm, also for 1, where the wrapped entry 255 is read |
| `Polynomials.EvalIsPowerSum` | twofa/internal/crypto/shamir/shamir.go:32-40 | nested evaluation is the sum of c_i times x^i with the shift-and-XOR product, for lists of any length |
| `Polynomials.EvalAtZero` | twofa/internal/crypto/shamir/shamir.go:92-96 | the value at 0 is the constant term, where Split puts the secret byte |
| `Polynomials.RootBound` | twofa/internal/crypto/shamir/shamir.go:45-61 | a polynomial with n coefficients and n distinct roots is zero |
| `Polynomials.InterpolantUnique` | twofa/internal/crypto/shamir/shamir.go:45-61 | through n points with distinct abscissas passes at most one polynomial of degree below n |
| `Lagrange.BasisAtPoint` | twofa/internal/crypto/shamir/shamir.go:48-57 | the i-th basis product is 1 at its own abscissa and 0 at every other |
| `Lagrange.EvalInterpolant` | twofa/internal/crypto/shamir/shamir.go:45-61 | the Lagrange sum at any x is the value of one polynomial of degree below the number of points |
| `Lagrange.Interpolation` | twofa/internal/crypto/shamir/shamir.go:45-61 | for all points with distinct abscissas exactly one polynomial of degree below their number passes through them, and the Lagrange sum is its value at every x |
| `Lagrange.ConstantTermRecovered` | twofa/internal/crypto/shamir/shamir.go:154-164 | from any points of a polynomial of degree below their number the sum at 0 is its value at 0 |
| `Shamir.EvalPolynomial` | twofa/internal/crypto/shamir/shamir.go:34-40 | Horner's loop with the tables computes the value of the polynomial |
| `Shamir.AllocateShares` | twofa/internal/crypto/shamir/shamir.go:81-88 | n shares with indices 1 to n and separate buffers |
| `Shamir.LoadCoefficients` | twofa/internal/crypto/shamir/shamir.go:92-101 | the coefficient buffer holds the secret byte and then the random bytes |
| `Shamir.FillByte` | twofa/internal/crypto/shamir/shamir.go:103-106 | one byte of every share becomes the value at its index; all other bytes stay |
| `Shamir.ShareOut` | twofa/internal/crypto/shamir/shamir.go:95-107 | the loop over the secret fills all shares, or reports the failed read of the random source |
| `Shamir.Split` | twofa/internal/crypto/shamir/shamir.go:67-110 | the four input errors in their order, a failing random source, and otherwise shares whose bytes are values of the polynomials with the secret bytes as constant terms |
| `Combine.InputErrorMeaning` | twofa/internal/crypto/shamir/shamir.go:116-146 | the checks of Combine let pass exactly two or more shares of one non-zero length with distinct nonzero indices |
| `Combine.BasisAtZero` | twofa/internal/crypto/shamir/shamir.go:51-57 | the inner loop computes the value of the i-th basis polynomial at 0 |
| `Combine.LagrangeInterpolateAtZero` | twofa/internal/crypto/shamir/shamir.go:45-61 | the loops compute the Lagrange sum at 0 |
| `Combine.ScanIndices` | twofa/internal/crypto/shamir/shamir.go:136-146 | the scan with its set reports the first zero or repeated index |
| `Combine.CheckInput` | twofa/internal/crypto/shamir/shamir.go:117-146 | the first failing input check, in the order of the code |
| `Combine.LoadColumn` | twofa/internal/crypto/shamir/shamir.go:157-160 | ys receives byte b of every share |
| `Combine.Interpolate` | twofa/internal/crypto/shamir/shamir.go:148-164 | every byte of the result is the value at 0 interpolated through that byte of the shares |
| `Combine.Combine` | twofa/internal/crypto/shamir/shamir.go:116-165 | the input error, or the interpolated secret |
| `SharingTheorems.RoundTrip` | twofa/internal/crypto/shamir/shamir.go:67-165 | for every secret, every valid n and threshold and all coefficients: Combine on any threshold or more distinct shares of Split, in any order, gives exactly the secret |
| `SharingTheorems.OrderIndependent` | twofa/internal/crypto/shamir/shamir.go:116-165 | Combine gives the same secret for the same shares in any order, for any well-formed shares, not only those of Split |
| `SharingTheorems.BasisNonZero` | twofa/internal/crypto/shamir/shamir.go:48-57 | for distinct nonzero indices no basis value at 0 is zero |
| `SharingTheorems.OneAlteredByte` | twofa/internal/crypto/shamir/shamir.go:116-165 | altering one byte of one share always alters that byte of the secret Combine returns, and no other byte |
| `SharingTheorems.OneExplanation` | twofa/internal/crypto/shamir/shamir.go:90-107 | for every secret byte and any values at any distinct nonzero indices exactly one choice of as many coefficients produces them |
| `SharingTheorems.SharesFixNothing` | twofa/internal/crypto/shamir/shamir.go:67-110 | any threshold - 1 shares are explained by every secret of their length, each by exactly one choice of all random coefficients |
| `SharingTheorems.ShareIndexDistinct` | twofa/internal/crypto/shamir/shamir.go:82-86 | the byte-sized indices of up to 255 shares are nonzero and pairwise different |
| `SharingTheorems.ShareIndexNumber` | twofa/internal/crypto/shamir/shamir.go:81-88 | share i of Split, from 0 on, carries the number i + 1 |
| `SharingTheorems.SplitAnswers` | twofa/internal/crypto/shamir/shamir.go:67-110 | exactly when Split gives each of its errors; otherwise n shares, the i-th with index i + 1 and, for every byte of the secret, the sum of that byte and of every random coefficient times its power of the index |
| `SharingTheorems.CombineAnswers` | twofa/internal/crypto/shamir/shamir.go:116-146 | exactly when Combine gives each of its errors, in the order of its checks |
| `SharingTheorems.CombinedValue` | twofa/internal/crypto/shamir/shamir.go:148-164 | for any well-formed shares, whoever made them: every byte of the result is the value at 0 of the one polynomial of degree below their number through that byte of all of them |
| `Base32.UnpackGroups` | loadtest/k6/lib/totp.js:14-29 | pushing the 5-bit groups of any bytes through the 32-bit register gives the bytes back, whatever the register held before |
| `Base32.Base32Decode` | loadtest/k6/lib/totp.js:12-30 | the loop decodes the text without padding and white space in upper case, or reports its first character outside the alphabet |
| `Base32.DecodeInvertsEncode` | loadtest/k6/lib/totp.js:12-30 | decoding the text of any bytes, with any padding, gives the bytes |
| `Base32.DecodesAsWritten` | loadtest/k6/lib/totp.js:12-30 | the text decodes to the same bytes written in either case, with white space anywhere before the padding |
| `Base32.DecodeErrors` | loadtest/k6/lib/totp.js:13-21 | the decoder refuses exactly the texts with a character outside the alphabet once cleaned, and names the first |
| `Base32Numbers.GroupsNumber` | twofa/internal/crypto/totp/totp.go:29 | the 5-bit groups of any bytes are the base-32 digits of the number the bytes stand for, with zero bits up to the end of the last group |
| `Base32Numbers.EncodeNumber` | twofa/internal/crypto/totp/totp.go:29 | the text of any n bytes has ceil(8n / 5) characters and is that number read in base 32, 'A' to 'Z' for 0 to 25 and '2' to '7' for 26 to 31 |
| `Totp.PutUint64` | twofa/internal/crypto/totp/totp.go:117-119 | the eight bytes are the big-endian form of the counter |
| `Totp.DynamicTruncation` | twofa/internal/crypto/totp/totp.go:126-132 | offset and masked word are those of RFC 4226, section 5.4 |
| `Totp.Hotp` | twofa/internal/crypto/totp/totp.go:112-137 | the six digits of the truncated digest of the counter; the secret must not be empty |
| `Totp.GenerateOTP` | twofa/internal/crypto/totp/totp.go:34-37 | the code of the 30-second step, negative times wrapping to uint64 |
| `CodeNumbers.TruncateNumber` | twofa/internal/crypto/totp/totp.go:126-132 | for every digest, in numbers: the truncated word is the four bytes from the offset on, most significant first and the first modulo 128, where the offset is the last byte modulo 16 |
| `CodeNumbers.CodeNumber` | twofa/internal/crypto/totp/totp.go:112-137 | for every key, counter and digest function the code has six digits and is, read as a decimal number, that word modulo 10^6 |
| `CodeNumbers.MessageNumber` | twofa/internal/crypto/totp/totp.go:117-119 | the message of every 64-bit counter is eight bytes that stand for it, most significant first |
| `CodeNumbers.RfcExample` | twofa/internal/crypto/totp/totp.go:126-136 | the digest of RFC 4226, section 5.4, gives 0x50ef7f19 and the code 872921 |
| `Totp.QuotientRemainder` | twofa/internal/crypto/totp/totp.go:86 | the step of a time is its quotient by the period that leaves a remainder of the sign of the time |
| `Validation.IsSixDigits` | twofa/internal/crypto/totp/totp.go:47-54 | accepts exactly the texts of six digits |
| `Validation.ValidateOTPAt` | twofa/internal/crypto/totp/totp.go:46-65 | accepts exactly the codes of the current, next and, after step 0, previous step |
| `Validation.ValidateOTPWithCounterAt` | twofa/internal/crypto/totp/totp.go:77-107 | attributes the code to the current, else the previous, else the next step, and gives counter 0 on refusal |
| `Validation.ValidatorsAgree` | twofa/internal/crypto/totp/totp.go:46-107 | from the epoch on both validators accept the same codes, and the counter reported is a step of the window with that code, the next one only if no nearer step matches |
| `Validation.GeneratedCodeAccepted` | twofa/internal/crypto/totp/totp.go:34-65 | a code generated at most one step before or after is accepted |
| `LoadTestTotp.FloorOfQuotient` | loadtest/k6/lib/totp.js:67-68 | flooring the double nearest to t / 30 gives the exact step for every t below 2^53 |
| `LoadTestTotp.CounterBytes` | loadtest/k6/lib/totp.js:42-49 | the loop writes the big-endian form of the counter although & keeps 32 bits only |
| `LoadTestTotp.HmacSha1Bytes` | loadtest/k6/lib/totp.js:52-62 | the bytes parsed from the hexadecimal text are the digest |
| `LoadTestTotp.PaddedDecimal` | loadtest/k6/lib/totp.js:79-80 | the shortest decimal text padded with zeros has the fixed-width digits |
| `LoadTestTotp.TruncateDigest` | loadtest/k6/lib/totp.js:72-77 | masking bytes before joining them is masking the joined word |
| `LoadTestTotp.TotpCode` | loadtest/k6/lib/totp.js:66-81 | the code of the step under the decoded key, or the decoder's error |
| `LoadTestTotp.Compare` | loadtest/k6/lib/totp.js:66-81 | for every non-empty secret and every time below 2^53 the script's code for the base32 text is the service's code for the bytes |
| `TwoFAStores.ShareNode.Store` | mpc/internal/storage/pgstorage/share.go:15-29 | a second row for a user and index is refused; otherwise the row is added; other users' rows stay |
| `TwoFAStores.ShareNode.GetShare` | mpc/internal/storage/pgstorage/share.go:32-47 | the stored data, or not found |
| `TwoFAStores.ShareNode.DeleteSharesByUserID` | mpc/internal/storage/pgstorage/share.go:50-58 | no row of the user is left; other users' rows stay |
| `TwoFAStores.PgStorage.CreateTwoFARecord` | twofa/internal/storage/pgstorage/twofa_record.go:13-20 | a record that is not enabled, unless the user has one, which is an error |
| `TwoFAStores.PgStorage.EnableTwoFA` | twofa/internal/storage/pgstorage/twofa_record.go:39-49 | the record is enabled; a missing record is an error |
| `TwoFAStores.PgStorage.DeleteTwoFARecord` | twofa/internal/storage/pgstorage/twofa_record.go:52-59 | the record is gone; records of others and all codes stay |
| `TwoFAStores.PgStorage.DeleteBackupCodes` | twofa/internal/storage/pgstorage/twofa_record.go:62-69 | no code of the user is left; codes of others and all records stay |
| `TwoFAStores.PgStorage.GetUnusedBackupCodeHashes` | twofa/internal/storage/pgstorage/backup_code.go:39-56 | one row per unused code of the user, in the order of the cursor |
| `TwoFAStores.PgStorage.MarkBackupCodeUsed` | twofa/internal/storage/pgstorage/backup_code.go:59-65 | exactly the row with the identifier turns used, whosever it is; none if there is no such row |
| `TwoFAStores.PgStorage.StoreBatchBackupCodes` | twofa/internal/storage/pgstorage/backup_code.go:14-36 | all rows of the batch are added, unused and with their hashes, or none |
| `TwoFAStores.RedisStorage.IncrementRateLimit` | twofa/internal/storage/redisstorage/rate_limit.go:13-26 | the fixed window of any length: count, expiry time set by the first increment only, key deleted if that fails, and every way the commands can fail |
| `TwoFAStores.RedisStorage.SetUsedOTPCounter` | twofa/internal/storage/redisstorage/otp_counter.go:14-17 | the counter is overwritten and gets a new lifetime |
| `TwoFAStores.RedisStorage.GetUsedOTPCounter` | twofa/internal/storage/redisstorage/otp_counter.go:21-31 | the stored counter strictly before its expiry time, else not found |
| `TwoFAStores.RedisStorage.DeleteKeys` | twofa/internal/storage/redisstorage/cleanup.go:6-11 | both keys of the user are gone; keys of others stay |
| `TwoFAService.EarlyExit` | twofa/internal/services/twofaService/retrieve_shares.go:48-64 | stopping at the second share or at the second failure gives the answer of the whole arrival order |
| `TwoFAService.Service.StoreOnNodes` | twofa/internal/services/twofaService/setup.go:101-115 | node i is sent the share with index i + 1; success exactly when every node stored its share |
| `TwoFAService.Service.DeleteSharesAll` | twofa/internal/services/twofaService/disable.go:128-144 | each node's rows of the user are gone unless its call had no effect; success exactly when all calls succeed |
| `TwoFAService.Service.Enrol` | twofa/internal/services/twofaService/setup.go:101-138 | a failed distribution is compensated on all nodes and ends Setup |
| `TwoFAService.Service.AddRecord` | twofa/internal/services/twofaService/setup.go:68-83 | a record is created only if there was none, then ten hashed codes are stored |
| `TwoFAService.Service.Setup` | twofa/internal/services/twofaService/setup.go:33-97 | the whole of Setup for the user's data, all failures included, and nobody else's data changes |
| `TwoFAService.Service.RetrieveShares` | twofa/internal/services/twofaService/retrieve_shares.go:17-67 | the loop over the messages returns the first two shares to arrive, or an error exactly when fewer than two nodes answer |
| `TwoFAService.Service.VerifyBackupCode` | twofa/internal/services/twofaService/verify_backup_code.go:15-38 | the scan marks the first unused row whose hash matches, and no other |
| `TwoFAService.Service.CountAttempt` | twofa/internal/services/twofaService/verify.go:59-67 | the attempt is counted before any check and refused above five; a Redis failure lets it pass |
| `TwoFAService.Service.CheckForVerify` | twofa/internal/services/twofaService/verify.go:97-117 | look-up, validation, reuse check and record of the used counter, in this order |
| `TwoFAService.Service.CheckForDisable` | twofa/internal/services/twofaService/disable.go:44-63 | validation, look-up, reuse check and record of the used counter, in this order |
| `TwoFAService.Service.Check` | twofa/internal/services/twofaService/disable.go:18-64 | a text of the form dddd-dddd is checked as a backup code, any other against the secret two shares combine into |
| `TwoFAService.Service.Verify` | twofa/internal/services/twofaService/verify.go:49-137 | the whole of Verify for the user's data, and nobody else's data changes |
| `TwoFAService.Service.Remove` | twofa/internal/services/twofaService/disable.go:95-114 | shares, codes, record and keys are deleted in this order, and a failure ends the request, except that of the Redis keys |
| `TwoFAService.Service.Disable` | twofa/internal/services/twofaService/disable.go:68-124 | the whole of Disable for the user's data, and nobody else's data changes |
| `TwoFAService.Service.constructor` | twofa/internal/services/twofaService/twofa_service.go:71-100 | the service keeps the stores it is given as they are; over empty stores every user is new |
| `TwoFA.FirstMatchIsScanned` | twofa/internal/services/twofaService/verify_backup_code.go:21-35 | the row found is one of those scanned and matches; none is found only if none matches |
| `TwoFA.BeforeCheckFrame` | twofa/internal/services/twofaService/verify.go:59-67 | the rate check changes nothing but the attempt counter |
| `TwoFA.CheckFrame` | twofa/internal/services/twofaService/disable.go:18-64 | checking a code changes neither shares nor record nor attempt counter |
| `TwoFA.VerifyFrame` | twofa/internal/services/twofaService/verify.go:49-137 | Verify never touches the shares, and at most turns the record from not enabled to enabled |
| `TwoFA.DisableFrame` | twofa/internal/services/twofaService/disable.go:68-124 | Disable empties nodes or leaves them as they are |
| `EnrolmentTheorems.EnrolShares` | twofa/internal/services/twofaService/setup.go:101-138 | after the distribution each node holds exactly its own share of this split, or, if the compensation works, all are empty |
| `EnrolmentTheorems.OneSplitAtATime` | twofa/internal/services/twofaService/setup.go:101-138 | in every run whose compensating deletes succeed, whatever else fails, all shares held come from one call of Split, each on its node |
| `EnrolmentTheorems.PlacedOverRun` | mpc/internal/storage/pgstorage/share.go:15-28 | in every run, whatever fails, a node holds no row but the one with its own index |
| `EnrolmentTheorems.SetupEnrols` | twofa/internal/services/twofaService/setup.go:51-83 | a successful Setup leaves every node its share of the secret just generated |
| `EnrolmentTheorems.EnrolledOverRun` | twofa/internal/services/twofaService/setup.go:33-41 | an enrolment outlives every run without an accepted Disable and without a Setup of a user not yet enabled |
| `EnrolmentTheorems.RetrievalRecovers` | twofa/internal/services/twofaService/retrieve_shares.go:29-66 | with at most one failing node, in every arrival order, two distinct shares come back and combine into the enrolled secret |
| `EnrolmentTheorems.TwoFailuresRefused` | twofa/internal/services/twofaService/retrieve_shares.go:56-64 | two or more failing nodes always give ErrInsufficientShares |
| `EnrolmentTheorems.EndToEnd` | twofa/internal/services/twofaService/setup.go:51-66 | in every run, from a successful Setup until the shares are touched again, retrieval with at most one failing node recovers exactly the secret generated, and with more is refused |
| `EnrolmentTheorems.VerifyUsesTheSecret` | twofa/internal/services/twofaService/verify.go:77-95 | the answer to a one-time code depends on the enrolled secret, not on which nodes answer first |
| `NodeSecrecy.OneNodeTellsNothing` | twofa/internal/services/twofaService/setup.go:51-66 | in every reachable state, whatever failed, the row of any one node is explained by every secret of 20 bytes, each by exactly one choice of the random coefficients |
| `EnrolmentTheorems.FaultFreeSetup` | twofa/internal/services/twofaService/setup.go:33-83 | without faults Setup succeeds if the nodes are empty; otherwise it fails, empties them all and leaves record and codes alone |
| `EnrolmentTheorems.SetupHealsItself` | twofa/internal/services/twofaService/setup.go:117-137 | from every reachable state with the user not enabled a Setup without faults succeeds exactly when the nodes are empty, and after a failure the next one succeeds |
| `RecordTheorems.AcceptedIsProof` | twofa/internal/services/twofaService/verify.go:77-117 | a one-time code is accepted exactly when it is a code of the recovered secret for a step of the window and not the last one used |
| `RecordTheorems.EnabledByProof` | twofa/internal/services/twofaService/verify.go:119-129 | Verify turns the record, or reports it newly enabled, only from not enabled and only for such a code, never for a backup code |
| `RecordTheorems.NeverOnWithoutProof` | twofa/internal/services/twofaService/verify.go:119-129 | in every run, whatever fails: if 2FA is off at the start and on at the end, some request proved the secret |
| `RecordTheorems.DisabledMeansGone` | twofa/internal/services/twofaService/disable.go:95-114 | a completed Disable had its code accepted for an enabled record and leaves no share, code or record, nor, if Redis works, a key |
| `RecordTheorems.OnlyAcceptedDisableRemoves` | twofa/internal/services/twofaService/disable.go:68-93 | a refused Disable removes neither the record nor any share |
| `RecordTheorems.EnrolAfterDisable` | twofa/internal/services/twofaService/disable.go:68-124 | in every run, after a completed Disable the next Setup without faults succeeds |
| `LockOutTheorems.LockedStep` | twofa/internal/services/twofaService/disable.go:68-124 | with 2FA on, fewer than two shares left and no backup code that works, every request is refused, whatever fails, and leaves it so |
| `LockOutTheorems.LockedForEver` | twofa/internal/services/twofaService/setup.go:33-41 | in every run from there on no Setup, Verify or Disable succeeds |
| `LockOutTheorems.LockOutIsExact` | twofa/internal/services/twofaService/disable.go:68-124 | in every reachable state with 2FA on, this is so exactly when no Disable can succeed now, and exactly when none can after any further requests |
| `LockOutTheorems.AcceptedDisableLocks` | twofa/internal/services/twofaService/disable.go:95-108 | an accepted Disable locks the user out exactly when at most one node keeps its row, no backup code works after it, and it does not get to delete the record |
| `LockOutTheorems.UserGetsLockedOut` | twofa/internal/services/twofaService/disable.go:95-108 | two runs of a new user who is locked out: only the deletion of the record fails, or only one node is down |
| `RecordTheorems.FreshCodeAccepted` | twofa/internal/services/twofaService/verify.go:49-137 | in every run, from a successful Setup until the shares are touched again, a code of its secret generated at most one step away is accepted by Verify with at most one failing node, unless rate-limited or matching the last used counter |
| `CodeTheorems.FreshCodeDisables` | twofa/internal/services/twofaService/disable.go:68-124 | in every run, from a successful Setup until the shares are touched again, Disable of an enabled record with at most one failing node answers a code of its secret generated at most one step from the validation with ErrRateLimited if the rate check refuses, with ErrReused exactly if the counter found at the later look-up is the one it matches, and otherwise completes |
| `CodeTheorems.BackupCodeWorks` | twofa/internal/services/twofaService/verify_backup_code.go:15-38 | in every run, while the row of a batch is there and unused, a text dddd-dddd that matches its hash makes Verify answer Valid without enabling, with exactly one matching row turned used, and makes Disable of an enabled record complete, unless rate-limited or a call of the request fails |
| `AnswerTheorems.SetupAnswers` | twofa/internal/services/twofaService/setup.go:33-97 | exactly when Setup succeeds and when it says already enabled; a success leaves the record not enabled and row i of the batch with hash i and unused, every other row, the counters and the time as they were; a failure adds no row unless the insertion of the codes reported failure after taking effect |
| `AnswerTheorems.SetupNodes` | twofa/internal/services/twofaService/setup.go:63-138 | what Setup leaves on every node, whatever fails: its own share where no row of that index was, an existing row as it is, and nothing after a failed distribution where the cleanup works |
| `AnswerTheorems.SetupRows` | twofa/internal/services/twofaService/setup.go:63-83 | what Setup leaves of the record and the backup codes, whatever fails, also when a failing call took effect |
| `AnswerTheorems.OneTimeAnswers` | twofa/internal/services/twofaService/verify.go:77-117 | exactly when the code check of Verify and of Disable gives each answer to a one-time code, in terms of the shares retrieved, the counter matched at validation and the counter found at the look-up; an acceptance stores the counter for 90 s |
| `AnswerTheorems.AcceptedInDisable` | twofa/internal/services/twofaService/disable.go:18-64 | Disable accepts exactly a one-time code of the retrieved secret at validation whose counter is not the one found afterwards |
| `AnswerTheorems.BackupAnswers` | twofa/internal/services/twofaService/verify_backup_code.go:15-38 | exactly when the code check gives each answer to a backup code, and that exactly one unused matching row turns used, also when the update reports failure after taking effect |
| `AnswerTheorems.FirstMatchIsFirst` | twofa/internal/services/twofaService/verify_backup_code.go:21-34 | of the rows in cursor order the first that matches is used |
| `AnswerTheorems.BackupCodeForm` | twofa/internal/services/twofaService/verify.go:17-18 | exactly the texts of four digits, a dash and four digits are taken for backup codes |
| `AnswerTheorems.RetrieveAnswers` | twofa/internal/services/twofaService/retrieve_shares.go:17-67 | retrieval gives the shares of the first two messages with one, in the order they arrive, and the error exactly when fewer than two have one |
| `AnswerTheorems.VerifyAnswers` | twofa/internal/services/twofaService/verify.go:49-137 | exactly when Verify gives each of its answers, and what becomes of the record |
| `AnswerTheorems.AdmissionEffects` | twofa/internal/services/twofaService/verify.go:59-67 | an attempt is counted when the rate check runs, one let through is checked after the pause that follows, and one whose increment or first expiry time fails is let through |
| `AnswerTheorems.DisableAnswers` | twofa/internal/services/twofaService/disable.go:68-124 | exactly when Disable gives each of its answers |
| `AnswerTheorems.AcceptedDisable` | twofa/internal/services/twofaService/disable.go:95-114 | what an accepted Disable leaves of shares, codes, record and keys when any of its deletions fail: each happens if all before it are done |
| `ReplayTheorems.RememberedStep` | twofa/internal/services/twofaService/verify.go:110-117 | with a working Redis the last accepted counter stays stored at least until it is out of the validation window |
| `ReplayTheorems.VerifyRefusesLast` | twofa/internal/services/twofaService/verify.go:97-112 | Verify never accepts the counter accepted last, at any time distance |
| `ReplayTheorems.DisableRefusesLastUnlessExpired` | twofa/internal/services/twofaService/disable.go:44-56 | Disable accepts the counter accepted last exactly when the code matches it at validation and the stored counter has expired at the later look-up; never if both happen at one instant |
| `ReplayTheorems.DisableCanAcceptTwice` | twofa/internal/services/twofaService/disable.go:44-56 | a run of a new user without any failure in which Verify accepts a code and enables 2FA, and 89.999 s later Disable accepts the same code for the same counter and completes |
| `ReplayTheorems.NoAdjacentReplay` | twofa/internal/services/twofaService/verify.go:97-117 | in every run with a working Redis a one-time code accepted by Verify never matches the counter of the one accepted last before it, at any timing |
| `ReplayTheorems.AdjacentReplayInDisable` | twofa/internal/services/twofaService/disable.go:44-56 | in every run with a working Redis and at any timing Disable accepts a code of the counter accepted last exactly when the code matches it at validation and the stored counter has expired by the look-up |
| `AbuseTheorems.PassInWindow` | twofa/internal/storage/redisstorage/rate_limit.go:13-26 | one more attempt of an open window keeps every 300-second interval at ten attempts or fewer |
| `AbuseTheorems.PassOpensWindow` | twofa/internal/storage/redisstorage/rate_limit.go:18-24 | so does the first attempt of a new window |
| `AbuseTheorems.AttemptBound` | twofa/internal/services/twofaService/verify.go:59-67 | in every run with a working Redis no 300 seconds contain more than ten attempts of one enrolment that get past the rate check |
| `AbuseTheorems.AcceptanceUsesOne` | twofa/internal/services/twofaService/verify_backup_code.go:21-34 | an accepted backup code turns exactly one unused row, one that matches, to used |
| `AbuseTheorems.RefusalMeansNoMatch` | twofa/internal/services/twofaService/verify_backup_code.go:37 | a backup code is refused as invalid exactly when no unused row matches |
| `AbuseTheorems.SetupConserves` | twofa/internal/services/twofaService/setup.go:75-83 | whatever fails, Setup keeps the account of backup codes: unused rows grow by ten per stored batch |
| `AbuseTheorems.BackupCodeConservation` | twofa/internal/storage/pgstorage/backup_code.go:14-65 | in every run, whatever fails: since the last deletion, accepted codes, unused rows and rows lost to an update that took effect but reported failure add up to ten per stored batch |
| `AbuseTheorems.AcceptedPlusUnused` | twofa/internal/storage/pgstorage/backup_code.go:14-65 | in every run in which no update of a code reports failure after taking effect, accepted codes and unused rows alone add up to ten per stored batch |
| `RateLimitTheorems.RateCheckExact` | twofa/internal/services/twofaService/disable.go:81-88 | the rate check keeps the counter equal to the attempts let through in the current window, up to five, and refuses exactly when there are five |
| `RateLimitTheorems.RefusedExactlyAfterFive` | twofa/internal/services/twofaService/verify.go:59-67 | in every run with a working Redis the next attempt is refused exactly when five were let through in the current window |
| `RateLimitTheorems.ExpiryIsLost` | twofa/internal/storage/redisstorage/rate_limit.go:14-24 | the counter is left without an expiry time exactly when it had none, or a first increment was applied and neither its expiry time set nor the key deleted |
| `RateLimitTheorems.RefusalEnds` | twofa/internal/storage/redisstorage/rate_limit.go:13-26 | in every run, whatever fails: waiting never helps a refused user exactly when the counter has no expiry time and is at the limit, which needs such an increment in the run; otherwise the refusal ends within 300 s |
| `RateLimitTheorems.StuckForEver` | twofa/internal/services/twofaService/disable.go:81-88 | from then on, as long as increments work, every Verify and every Disable is refused |
| `RateLimitTheorems.UserGetsStuck` | twofa/internal/storage/redisstorage/rate_limit.go:14-24 | a run of a new user, with one failing increment, after which the counter is stuck |
| `AuthService.RedisStorage.StoreRefreshToken` | auth/internal/storage/redisstorage/session.go:23-55 | the token, its membership in the family set and the family's in the user set, all three with a new lifetime |
| `AuthService.RedisStorage.GetRefreshToken` | auth/internal/storage/redisstorage/session.go:58-73 | the token's data strictly before its expiry time, else nothing |
| `AuthService.RedisStorage.DeleteRefreshToken` | auth/internal/storage/redisstorage/session.go:76-117 | the token and its set membership are gone, and so is the family entry once its set is empty; a missing token changes nothing |
| `AuthService.RedisStorage.DeleteTokenFamily` | auth/internal/storage/redisstorage/session.go:120-156 | all tokens in the family set, the set, and the user's entry for it are gone |
| `AuthService.RedisStorage.DeleteAllUserTokens` | auth/internal/storage/redisstorage/session.go:161-183 | the script deletes the tokens of every family in the user's set, the family sets and the user set |
| `AuthService.Service.ParseToken` | auth/internal/services/auth_service/jwt.go:80-104 | the claims of a token signed here strictly before its expiry claim, the expiry error from then on, and the other error for every token not signed here |
| `AuthService.Service.GenerateRefreshToken` | auth/internal/services/auth_service/jwt.go:52-77 | a refresh token for user and family whose expiry claim is the time plus the lifetime in whole seconds |
| `AuthService.Service.Login` | auth/internal/services/auth_service/login.go:32-87 | without valid credentials nothing changes; otherwise a new family is opened |
| `AuthService.Service.RefreshTokens` | auth/internal/services/auth_service/refresh_token.go:15-74 | parse, look-up, replay detection and rotation in order, with every failure |
| `AuthService.Service.Rotate` | auth/internal/services/auth_service/refresh_token.go:46-73 | the new token is stored before the old one is deleted; a failed store ends the request, a failed delete does not |
| `AuthService.Service.LogoutOne` | auth/internal/services/auth_service/logout.go:13-29 | an unparsable token changes nothing; otherwise its entry is deleted |
| `AuthService.Service.LogoutEverywhere` | auth/internal/services/auth_service/logout_all.go:12-23 | all tokens of the user are deleted, or the failure is reported |
| `SessionStore.CallKeeps` | auth/internal/storage/redisstorage/session.go:23-183 | every storage call keeps the index invariant |
| `OverlappingSessions.AdvanceKeeps` | auth/internal/services/auth_service/refresh_token.go:25-66 | one step of one request keeps the index invariant and the facts every other waiting request relies on |
| `OverlappingSessions.NextKeeps` | auth/internal/services/auth_service/refresh_token.go:15-74 | so does every event: a request starting, taking its next step with or without failure, or time passing |
| `OverlappingSessions.InterleavedIndex` | auth/internal/storage/redisstorage/session.go:35-114 | in every interleaving of the calls that overlapping Login, Register, RefreshToken, Logout and LogoutAll requests make, assuming only new identifiers, each live token is in its live family set and its family in its one user's live set, with token expiry no later than family-set expiry and that no later than user-set expiry |
| `SerialRequests.AloneIsStep` | auth/internal/services/auth_service/refresh_token.go:15-74 | every whole request is one of the interleavings: its steps as a new thread, with nothing between them but its pauses, end in the state the request leaves |
| `SerialRequests.SerialRunIsInterleaving` | auth/internal/services/auth_service/refresh_token.go:15-74 | and so is every run of whole requests, so that what holds in every interleaving holds in every run |
| `SessionStore.DeleteAllCompleteAndLocal` | auth/internal/storage/redisstorage/session.go:161-183 | deleting all tokens of a user leaves live exactly the tokens of other users, unchanged |
| `SessionStore.DeleteFamilyCompleteAndLocal` | auth/internal/storage/redisstorage/session.go:120-156 | deleting a family leaves live exactly the tokens of other families, unchanged |
| `SessionIndex.CallLeavesNothingOver` | auth/internal/storage/redisstorage/session.go:76-183 | every storage call keeps the sets free of left-overs: a live family set holds only stored tokens of the family, a live user set only families that have a set, and no live set is empty |
| `SessionIndex.NothingLeftOver` | auth/internal/storage/redisstorage/session.go:76-183 | so it is in every interleaving, whatever fails |
| `AuthSessions.StepKeeps` | auth/internal/services/auth_service/refresh_token.go:15-74 | every request, with any failing calls, keeps the index invariant, and live tokens carry the user and family of their claims and outlive the expiry claim |
| `AuthSessions.IssueKeeps` | auth/internal/services/auth_service/register.go:72-87 | signing and then storing a token in a new or own family keeps the invariant, however long it takes |
| `AuthSessions.RunKeeps` | auth/internal/services/auth_service/refresh_token.go:15-74 | so does every run |
| `SessionTheorems.StepLive` | auth/internal/services/auth_service/refresh_token.go:15-74 | a token live after a request was live before, or is the one issued into the family the request opened or rotated |
| `SessionTheorems.RevocationKills` | auth/internal/services/auth_service/refresh_token.go:31-43 | a replay whose family deletion succeeds leaves no live token of the family |
| `SessionTheorems.RevokedFamilyStaysDead` | auth/internal/services/auth_service/refresh_token.go:31-63 | whatever is requested later and whatever fails, no token of a revoked family is live again and no refresh with one succeeds |
| `SessionTheorems.LoggedOutStaysOut` | auth/internal/services/auth_service/logout_all.go:12-23 | in every run, once LogoutAll took effect, whatever is requested later and whatever fails, no refresh token issued to the user before is live again and no refresh with one succeeds |
| `SessionAnswers.LogoutAllAnswers` | auth/internal/services/auth_service/logout_all.go:12-23 | LogoutAll succeeds exactly when the deletion does; afterwards exactly the live tokens of other users are live, unchanged |
| `SessionAnswers.LogoutAnswers` | auth/internal/services/auth_service/logout.go:13-29 | exactly when Logout gives each of its answers |
| `SessionAnswers.LoggedOutTokenStaysOut` | auth/internal/services/auth_service/logout.go:13-29 | in every run, after a Logout answered with success, whatever is requested later and whatever fails, the token presented is never live again, no refresh with it succeeds, and it is answered ErrTokenRevoked exactly while it parses as a refresh token and the look-up works |
| `OverlappingRevocation.RevocationUnderOverlap` | auth/internal/services/auth_service/refresh_token.go:31-43 | a family deletion leaves no live token of the family, also between the steps of other requests |
| `OverlappingRevocation.EventsStayDead` | auth/internal/services/auth_service/refresh_token.go:25-66 | a family without a live token stays so in every interleaving that follows, if no waiting request will store a token into it |
| `OverlappingRevocation.DeadForEver` | auth/internal/services/auth_service/refresh_token.go:25-66 | and exactly then: any waiting rotation can make the family live again |
| `OverlappingRevocation.RevokedFamilyComesBack` | auth/internal/services/auth_service/refresh_token.go:25-66 | a run without any failure in which the deletion of a replay leaves a family without a live token, and a refresh that was under way makes one live again |
| `SessionTheorems.Rotation` | auth/internal/services/auth_service/refresh_token.go:25-66 | in every run whose storage calls succeed at most the last token issued in a family is live, and presenting any other unexpired one gives ErrTokenRevoked and leaves the family without a live token |
| `SessionTheorems.UntouchedStays` | auth/internal/services/auth_service/refresh_token.go:25-66 | a request that does not rotate, revoke or log out a live token leaves it as it is |
| `SessionTheorems.NoFalseAlarm` | auth/internal/services/auth_service/jwt.go:52-67 | in every run a token handed out and never rotated, logged out or revoked is taken for a replay exactly when it parses and its Redis entry expires before the look-up; never when the look-up comes before its expiry claim; and whenever it parses it is in Redis |
| `SessionAnswers.TokensHandedOut` | auth/internal/services/auth_service/jwt.go:25-77 | every request answered with tokens hands out an access token of the user that asks and a refresh token of that user and of the family opened or continued, with claims that end their lifetime after the time of signing, to the second below, and an entry that ends it after the time of storing |
| `SessionAnswers.HandedOutParses` | auth/internal/services/auth_service/jwt.go:25-104 | in every run, whatever follows, both tokens parse to that user, family and kind until a second before their lifetime from signing ends, and no longer than that lifetime |
| `SessionAnswers.RefreshAnswers` | auth/internal/services/auth_service/refresh_token.go:15-74 | exactly when RefreshToken gives each of its answers |
| `SessionAnswers.HandedOutWorks` | auth/internal/services/auth_service/refresh_token.go:15-74 | in every run that does not rotate, log out or revoke a token handed out, the answer to the next refresh with it, exactly, in terms of when it was signed and stored: before its claim, with working storage and a look-up before its entry expires it is exchanged for the tokens drawn, and the new one is live in the same family for the same user |
| `SessionAnswers.LoginAnswers` | auth/internal/services/auth_service/login.go:32-87 | Login of a known user gives tokens exactly when they are stored, the refresh token is then live for the user in the new family, and every other token that lives through the request stays as it is |
| `SessionTheorems.GenuineTokenTakenForReplay` | auth/internal/services/auth_service/refresh_token.go:17-43 | a run without any failure in which a token never used before is taken for a replay |

## Left out

- AES-GCM encryption of share rows on the nodes: a node stores and returns the plain data, as if decryption inverted encryption; `mpc/internal/services/mpcService/encrypt.go` is not part of this model.
- HMAC-SHA1, bcrypt comparison, RSA signatures and uuid generation: arbitrary functions or new values; only the 20-byte length of a digest, determinism and freshness are used. Failures to sign a token are not modelled.
- Zeroing of buffers and constant-time comparison: not visible in values.
- Redis commands inside one storage method and requests of one user that overlap: each storage method is one step; of interleaved calls the index invariant and revocation are proved.
- A failed Redis pipeline or DeleteRefreshToken that took effect in part: a failing storage call has its whole effect or none.
- Lifetimes that are not whole seconds, and a lifetime of zero: the Redis client rounds EXPIRE to seconds and treats zero specially; the client is not part of this model.
- Delayed effects: a failing call has taken effect by the time it returns, if at all.
- AuthService.Service.Login: the outcome of user look-up and password check is a parameter, because the user table, bcrypt and the email and password rules are not part of this model; steps 1 to 6 of Register neither. Register from step 7 on is the same step as Login.
- AuthService.Service.ParseToken: signature, algorithm and issuer checks are one question, whether the token was signed here, because RSA signatures are not part of this model.
- The provisioning URI, the plaintext backup codes and how they are drawn: Setup receives the hashes as input.
- extractSecret of the load-test script: one pattern match on a URI.
- Base32.Base32Decode: which texts decode, and to what, is exact; the character named in the error is the one before toUpperCase for letters outside ASCII, because the full Unicode case tables are not part of this model.
- TwoFAService.Service.constructor: the errors for missing dependencies and the default bcrypt cost are not modelled, because objects here cannot be absent and hashing is an input.
- GetRateLimit and the no-op session storage: the first only reads; the second behaves like a Redis whose calls fail.
- Times before the epoch for the service: `Validation` covers them, the two-factor runs start at or after it.
- gRPC, HTTP, Kafka audit events, metrics, configuration, the gateway and the frontend: plumbing without state of interest.
- A counter accepted at most once in its lifetime: the code compares with the last accepted counter only.
