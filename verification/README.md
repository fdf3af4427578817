# MatrixSSL 1.8.5: verified models of its arithmetic, its ciphers and its protocol

The subject is the TLS library vendored under `packages/libmatrixssl-nothread`, in the configuration its
headers select: 28-bit digits in 64-bit words, Comba multiplication and squaring, long division by digit
estimation, a 32-slot exponentiation table, `SMALL_CODE` for DES, 64-bit hash lengths, and the suites
3DES-CBC with SHA-1 and RC4 with SHA-1 or MD5.

* **Integers** (`Numbers`, `MpCore`, `MpCompare`, `MpAddSub`, `MpShift`, `MpScale`, `MpDiv`, `MpMul`,
  `Congruence`, `MpMontgomery`, `MpExptmod`, `MpInvmod`, `MpPower`, `MpBytes`). A number is an object with a digit
  buffer, a digit count and a sign, and every routine changes it in place, whatever arguments are the same object.
  `Valid` is the representation invariant: digits below 2^28, zeros up to the end of the buffer, no leading zero
  digit, zero positive. Every routine is proved against one line of mathematics, up to `MpDiv.Div` (division
  rounding toward zero for all signs), `MpMontgomery.MontgomeryReduce` and `MpExptmod.ExptmodFast`, which is
  exactly `G^X mod P`.
* **RSA** (`NumberTheory`, `Rsa`). Fermat's little theorem is proved here from the binomial theorem. From it:
  the two-prime branch equals the plain power, the private operation undoes the public one, and decryption
  returns the message that was padded and encrypted, whatever padding was drawn (`Rsa.RoundTrip`).
* **Symmetric primitives** (`Des`, `DesStandard`, `DesBits`, `DesRefinement`, `Hash`, `Arc4`). Substitution boxes and
  compression functions are arbitrary. `DesStandard` is DES as the standard prints it, on strings of bits and with its
  tables; `DesRefinement.DesIsStandard` shows that the masks, rotations and packed key words of the program compute it,
  whatever the boxes hold. 3DES in CBC mode inverts in place over any number of blocks, SHA-1 and MD5 streams equal the
  one-shot hash, each in its byte order, RC4 stays a permutation, is its own inverse and has the trace of the cipher.
* **Protocol** (`Record`, `Keys`, `Handshake`, `HandshakeSafety`, `HandshakeBinding`, `HandshakeStream`,
  `HandshakeAgreement`, `HandshakePromises`, `Connection`, `CipherSuites`, `TalkLimits`, `HandshakeRsa`, with `ByteBits`, `Options` and
  `Splices`). `Handshake` gives the state machine as functions on connection states, hello messages in the form of
  version 2 included. `Connection.Ssl` is the connection object: it holds its two record halves (`Record.Half`) and
  its keys (`Keys.KeyMaterial`), works from the caller's input buffer into the caller's output buffer, and is proved
  equal to those functions on every input, in every state and with any room. `HandshakeSafety.EveryRunIsSafe` speaks
  of every run over arbitrary bytes, `HandshakeBinding.BothHeardTheSame` of two ends with anything between them, `HandshakeStream.FeedIsReceive` of every way to cut the input into pieces,
  `HandshakeAgreement.HandshakeAgrees` of every honest full or resumed handshake, and
  `HandshakeAgreement.ConversationIsHeard` of all that is said after it, which arrives if and only if it fits the
  limit of the cipher. `CipherSuites.BuiltWorldIsGood` and `HandshakeRsa.KeyPairIsHonest` show that the table built
  in and an RSA key pair meet what these theorems assume of ciphers, hashes and public-key operations, and
  `TalkLimits.BuiltTalkIsHeard` is the outcome for that table.

Hashes are arbitrary functions of 16 and 20 bytes, so nothing is assumed of how hard collisions are to find: what MACs,
Finished hashes, master secrets and key blocks protect is stated as agreement or a collision on two strings that are
named (`Record.MacBinds`, `Keys.FinishedBinds`, `Keys.MasterSecretBinds`, `Keys.KeyBlockBinds`).

The standards followed are RFC 6101 (SSL 3.0: section 5.2.3 for records, 5.5 and 5.6 for the handshake, 6.1 and
6.2.2 for keys), RFC 8017 section 5.1.2 and RFC 2313 section 8.1 (RSA), RFC 3174 section 4 and RFC 1321 sections
3.1 and 3.2 (padding of the hashes), FIPS 46-3 (DES).

Clock and random bytes are inputs (`Handshake.Supply`, the padding and key arguments). The certificate step, the
public-key operations and the server's session table are functions of `Handshake.World`; `HandshakeAgreement.Honest`
says what honest ends assume of them.

## Where the code and its promises differ

Each of these is what the code does, and what the members named say.

* `mp_div` says that normalisation makes the top divisor digit at least half the base. It makes it at least a
  quarter and below a half (`MpDiv.BitsNormalize`), and one add-back still suffices (`MpDiv.EstimateDigit`,
  `MpDiv.OneTooMany`).
* `mp_mod` promises a result in `[0, b)`. That holds if and only if `b > 0` (`MpDiv.ModForPositive`).
* `fast_mp_invmod` gives its result the sign of `a`, so that it inverts `a` if and only if `a > 0`
  (`MpInvmod.SignedInverse`). Its loop ends if and only if `b` does not divide `a` (`MpInvmod.RoundsEnd`).
* `mp_exptmod` uses it for negative exponents, whose result therefore inverts `G^|X|` if and only if `G` is not
  negative or `X` is even (`MpPower.PowerInverts`).
* `mp_invmodSSH` reports a zero as invertible exactly when the modulus is a power of two, because a zero does not
  count as even (`MpInvmod.InvmodSsh`, `MpInvmod.OddPartOfPower`). Of a negative odd `a` and an even modulus it does
  not return: its rounds (`MpInvmod.SlowRound`) reach zero if and only if they start from a positive number and a
  modulus that is not zero (`MpInvmod.RoundsEnd`).
* `sslUnpadRSA` accepts seven bytes of padding where its comment asks for eight (`Rsa.UnpadsBlocks`); the comment
  of `sslPadRSA` has the two block types the wrong way round; `ssl_rsa_crypt` lets an input equal to the modulus
  pass (`Rsa.RsaCrypt`).
* `matrixArc4` refuses to go beyond 2^30 bytes, and counts the bytes of calls it refuses, in 32 bits
  (`Arc4.Arc4Context.Process`). Under the RC4 suites what is said after a handshake therefore arrives if and only if
  in each direction the data, a MAC for each record and the Finished message come to no more than that
  (`TalkLimits.BuiltTalkIsHeard`); a gigabyte in one direction does not (`TalkLimits.GigabyteDoesNotFit`).
* `sslEncodeResponse` checks the room beforehand so that a flight is written whole or not at all. That holds for the
  server's full flight and the client's (`HandshakePromises.HelloFlightWhole`, `HandshakePromises.KeyFlightWhole`).
  For the flights of a change of cipher and Finished alone it holds if and only if the room is below the size
  checked, which leaves out MAC and padding, or is enough for all (`HandshakePromises.LastFlightWhole`,
  `HandshakePromises.ResumedFlightWhole`); in between, the cipher is changed and Finished is not sent.
* `matrixSslEncode` takes up to 18432 bytes of data, but the decoder hands out only records of 1 to 16384
  (`HandshakeAgreement.DeliveredExactly`).
* A client compares its session id only with as many bytes as the server sent, and resumes if and only if these are
  the first of its own (`HandshakePromises.ResumedByBeginning`); one byte is enough
  (`HandshakePromises.OneByteResumes`).
* A client accepts the null suite exactly when the server names it (`HandshakePromises.ClientTakesNull`), which a
  server of this kind never does (`HandshakePromises.ServerRefusesNull`); the handshake is then never done
  (`HandshakePromises.NullIsNeverDone`).
* The limit on the padding of a block cipher record applies if and only if the version is exactly 3.0
  (`Record.PaddingAccepted`), while the server takes over any major version of at least 3
  (`Handshake.ReadClientHello`).
* The key block is written in whole 16-byte chunks, which stay inside the 104 bytes kept for it if and only if the
  suite needs at most 96 (`Keys.KeyBlockFits`). 3DES with SHA-1 needs 104 and writes 112
  (`CipherSuites.KeyBlockOfRow`); the model keeps them all.

## Model

| member | source | states |
|---|---|---|
| MpCore.MpInt.Init | packages/libmatrixssl-nothread/src/src/crypto/peersec/mpi.c:245-271 | A new number is zero, clamped, with 64 digits of room |
| MpCore.MpInt.InitSize | packages/libmatrixssl-nothread/src/src/crypto/peersec/mpi.c:3002-3028 | A new zero with more room than asked for |
| MpCore.MpInt.InitCopy | packages/libmatrixssl-nothread/src/src/crypto/peersec/mpi.c:927-935 | A new number equal to another, digit count and sign included |
| MpCore.MpInt.Grow | packages/libmatrixssl-nothread/src/src/crypto/peersec/mpi.c:851-894 | More room never changes the number; the new digits are zero |
| MpCore.MpInt.Clamp | packages/libmatrixssl-nothread/src/src/crypto/peersec/mpi.c:322-337 | Leading zeros go, the value stays, and a zero becomes positive |
| MpCore.MpInt.Zero | packages/libmatrixssl-nothread/src/src/crypto/peersec/mpi.c:428-440 | The number becomes zero and keeps its room |
| MpCore.MpInt.Set | packages/libmatrixssl-nothread/src/src/crypto/peersec/mpi.c:1196-1201 | The number becomes one digit, taken modulo the base |
| MpCore.MpInt.IsOdd | packages/libmatrixssl-nothread/src/src/crypto/peersec/mpi.h:237 | Answers whether the magnitude is odd |
| MpCore.MpInt.IsEven | packages/libmatrixssl-nothread/src/src/crypto/peersec/mpi.h:236 | Answers whether the magnitude is even and not zero: a zero is neither odd nor even |
| MpCore.Copy | packages/libmatrixssl-nothread/src/src/crypto/peersec/mpi.c:1052-1102 | Destination and source are equal afterwards and the source is unchanged, aliased or not |
| MpCore.Exch | packages/libmatrixssl-nothread/src/src/crypto/peersec/mpi.c:1208-1215 | The two numbers change places |
| MpCompare.CmpMag | packages/libmatrixssl-nothread/src/src/crypto/peersec/mpi.c:452-487 | Compares digit counts first; for clamped numbers this is the order of the magnitudes |
| MpCompare.ClampedCompare | packages/libmatrixssl-nothread/src/src/crypto/peersec/mpi.c:457-466 | Comparing lengths before digits is right for clamped numbers |
| MpCompare.Cmp | packages/libmatrixssl-nothread/src/src/crypto/peersec/mpi.c:165-187 | The order of the signed values |
| MpCompare.CmpD | packages/libmatrixssl-nothread/src/src/crypto/peersec/mpi.c:1598-1624 | The order against one digit; every negative number is below it |
| MpAddSub.AddMag | packages/libmatrixssl-nothread/src/src/crypto/peersec/mpi.c:3034-3130 | \|c\| = \|a\| + \|b\| under every aliasing, invariant restored |
| MpAddSub.SubMag | packages/libmatrixssl-nothread/src/src/crypto/peersec/mpi.c:1998-2074 | \|c\| = \|a\| - \|b\| when \|b\| <= \|a\|, under every aliasing; the wrapped top bit is the borrow |
| MpAddSub.DiffEnd | packages/libmatrixssl-nothread/src/src/crypto/peersec/mpi.c:2030-2062 | No borrow is left when the subtrahend is not larger |
| MpAddSub.Add | packages/libmatrixssl-nothread/src/src/crypto/peersec/mpi.c:1558-1592 | c = a + b for all signs and every aliasing |
| MpAddSub.Sub | packages/libmatrixssl-nothread/src/src/crypto/peersec/mpi.c:1845-1885 | c = a - b for all signs; the subtrahend may be an unclamped zero no longer than the minuend |
| MpShift.Lshd | packages/libmatrixssl-nothread/src/src/crypto/peersec/mpi.c:1140-1190 | The magnitude is multiplied by 2^(28b); only a zero comes out unclamped |
| MpShift.Rshd | packages/libmatrixssl-nothread/src/src/crypto/peersec/mpi.c:1935-1992 | The magnitude is divided by 2^(28b), clamped |
| MpScale.Mul2 | packages/libmatrixssl-nothread/src/src/crypto/peersec/mpi.c:2601-2668 | b = 2a, in place or not |
| MpScale.Div2 | packages/libmatrixssl-nothread/src/src/crypto/peersec/mpi.c:1630-1689 | The magnitude is halved and the sign kept, in place or not |
| MpScale.Mul2d | packages/libmatrixssl-nothread/src/src/crypto/peersec/mpi.c:343-422 | The magnitude is multiplied by 2^b, also from an unclamped number |
| MpScale.Div2d | packages/libmatrixssl-nothread/src/src/crypto/peersec/mpi.c:962-1046 | The magnitude is divided by 2^b and the sign kept |
| MpScale.MulD | packages/libmatrixssl-nothread/src/src/crypto/peersec/mpi.c:2674-2748 | The magnitude is multiplied by one digit; column sums fit the 64-bit word |
| MpScale.CountBits | packages/libmatrixssl-nothread/src/src/crypto/peersec/mpi.c:1108-1134 | The result n is the one with 2^(n-1) <= \|a\| < 2^n, and 0 for zero |
| MpScale.TwoExpt | packages/libmatrixssl-nothread/src/src/crypto/peersec/mpi.c:2969-2996 | a = 2^b |
| MpDiv.Div | packages/libmatrixssl-nothread/src/src/crypto/peersec/mpi.c:2176-2388 | For every a and nonzero b: the quotient rounded toward zero and the remainder, either optional, under every aliasing; an error exactly for b = 0, leaving both unchanged |
| MpDiv.TruncIsDivision | packages/libmatrixssl-nothread/src/src/crypto/peersec/mpi.c:2176-2186 | Quotient and remainder satisfy q*b + r = a with \|r\| < \|b\| and r zero or of a's sign |
| MpDiv.TruncDivRem | packages/libmatrixssl-nothread/src/src/crypto/peersec/mpi.c:2176-2186 | Only one pair satisfies these three properties |
| MpDiv.Normalize | packages/libmatrixssl-nothread/src/src/crypto/peersec/mpi.c:2230-2244 | Dividend and divisor are scaled alike until the divisor's top digit is at least 2^26, a quarter of the base |
| MpDiv.BitsNormalize | packages/libmatrixssl-nothread/src/src/crypto/peersec/mpi.c:2231-2244 | A bit length of 27 modulo 28 puts the top digit into [2^26, 2^27) |
| MpDiv.FirstEstimateIsAbove | packages/libmatrixssl-nothread/src/src/crypto/peersec/mpi.c:2283-2294 | The two-by-one estimate is never below the true digit |
| MpDiv.RejectedIsAbove | packages/libmatrixssl-nothread/src/src/crypto/peersec/mpi.c:2302-2324 | A digit the comparison rejects is above the true one |
| MpDiv.AcceptedIsClose | packages/libmatrixssl-nothread/src/src/crypto/peersec/mpi.c:2302-2324 | A digit the comparison accepts, even by the unclamped length rule, is at most one above the true one |
| MpDiv.EstimateDigit | packages/libmatrixssl-nothread/src/src/crypto/peersec/mpi.c:2279-2324 | The digit estimate is the true digit or one more |
| MpDiv.OneTooMany | packages/libmatrixssl-nothread/src/src/crypto/peersec/mpi.c:2326-2356 | One add-back repairs an estimate that is one too large |
| MpDiv.DivStep | packages/libmatrixssl-nothread/src/src/crypto/peersec/mpi.c:2274-2357 | One round stores the true quotient digit and leaves the remainder it goes with |
| MpDiv.SkippedDigit | packages/libmatrixssl-nothread/src/src/crypto/peersec/mpi.c:2275-2277 | When a position is skipped its quotient digit is zero |
| MpDiv.SubtractShifted | packages/libmatrixssl-nothread/src/src/crypto/peersec/mpi.c:2329-2339 | The subtraction is exact also when the product is an unclamped zero |
| MpDiv.DivDigits | packages/libmatrixssl-nothread/src/src/crypto/peersec/mpi.c:2271-2357 | The loop keeps quotient * divisor + remainder and ends with the remainder below the divisor |
| MpDiv.TopDigit | packages/libmatrixssl-nothread/src/src/crypto/peersec/mpi.c:2252-2264 | Repeated subtraction finds the top quotient digit without overflowing it |
| MpDiv.Mod | packages/libmatrixssl-nothread/src/src/crypto/peersec/mpi.c:1247-1270 | The remainder, moved by one modulus when its sign differs from the modulus |
| MpDiv.ModForPositive | packages/libmatrixssl-nothread/src/src/crypto/peersec/mpi.c:1246-1270 | The result lies in [0, b) if and only if b > 0, and then it is a mod b |
| MpMul.ColumnsAreProduct | packages/libmatrixssl-nothread/src/src/crypto/peersec/mpi.c:2496-2595 | The weighted columns of a schoolbook product sum to the product |
| MpMul.AccumulatorFits | packages/libmatrixssl-nothread/src/src/crypto/peersec/mpi.c:2520-2560 | A carry below 2^36 and 256 digit products stay below 2^64, and the next carry is below 2^36 |
| MpMul.MulDigs | packages/libmatrixssl-nothread/src/src/crypto/peersec/mpi.c:2496-2595 | c = a * b when the smaller operand has at most 256 digits and both together fewer than 511, under every aliasing |
| MpMul.Mul | packages/libmatrixssl-nothread/src/src/crypto/peersec/mpi.c:1221-1241 | c = a * b with its sign |
| MpMul.ColumnOfSquare | packages/libmatrixssl-nothread/src/src/crypto/peersec/mpi.c:2853-2930 | A column of a square is twice its lower half plus the middle square |
| MpMul.Sqr | packages/libmatrixssl-nothread/src/src/crypto/peersec/mpi.c:2853-2960 | \|b\| = a * a from half the products, accumulator bound included; agrees with multiplying a by itself |
| MpMul.MulMod | packages/libmatrixssl-nothread/src/src/crypto/peersec/mpi.c:1318-1334 | d = a * b mod c |
| MpMontgomery.FirstGuess | packages/libmatrixssl-nothread/src/src/crypto/peersec/mpi.c:1804-1839 | For an odd digit the first guess is an inverse modulo 16 |
| MpMontgomery.NewtonStep | packages/libmatrixssl-nothread/src/src/crypto/peersec/mpi.c:1804-1839 | A Newton step doubles the number of correct low bits |
| MpMontgomery.MontgomerySetup | packages/libmatrixssl-nothread/src/src/crypto/peersec/mpi.c:1804-1839 | For every odd modulus rho * n0 = -1 mod 2^28; an error exactly for an even one |
| MpMontgomery.CalcNormalization | packages/libmatrixssl-nothread/src/src/crypto/peersec/mpi.c:1279-1312 | R mod b by doublings that stay below b, for a full top digit too; a modulus of one leaves one |
| MpMontgomery.CellFits | packages/libmatrixssl-nothread/src/src/crypto/peersec/mpi.c:1429-1480 | With at most 255 rows neither a column nor a column with its carry reaches 2^64 |
| MpMontgomery.ClearsColumn | packages/libmatrixssl-nothread/src/src/crypto/peersec/mpi.c:1438-1440 | The row multiplier makes its column a multiple of the base |
| MpMontgomery.ReduceRows | packages/libmatrixssl-nothread/src/src/crypto/peersec/mpi.c:1429-1482 | Every row adds a multiple of the modulus and clears one column; columns stay bounded |
| MpMontgomery.CarryColumns | packages/libmatrixssl-nothread/src/src/crypto/peersec/mpi.c:1488-1512 | Carries turn the remaining columns into digits; the cell above them is never read |
| MpMontgomery.MontgomeryReduce | packages/libmatrixssl-nothread/src/src/crypto/peersec/mpi.c:1370-1552 | For x < n*R: the result is in [0, n) and congruent to x / R modulo n |
| MpExptmod.FillTable | packages/libmatrixssl-nothread/src/src/crypto/peersec/mpi.c:674-703 | Slot x of the table holds G^x * R for slot 1 and the slots 2^(w-1) to 2^w - 1 |
| MpExptmod.TakeWindowBit | packages/libmatrixssl-nothread/src/src/crypto/peersec/mpi.c:733-792 | One exponent bit: res and the pending window together hold the bits seen; only filled slots are read |
| MpExptmod.MultiplyWindow | packages/libmatrixssl-nothread/src/src/crypto/peersec/mpi.c:761-786 | A full window squares w times and multiplies by the slot it names |
| MpExptmod.ScanExponent | packages/libmatrixssl-nothread/src/src/crypto/peersec/mpi.c:714-790 | After the scan res and the pending window hold the whole exponent |
| MpExptmod.FinishWindow | packages/libmatrixssl-nothread/src/src/crypto/peersec/mpi.c:794-822 | The unfilled window is worked off bit by bit |
| MpExptmod.FactorRemoved | packages/libmatrixssl-nothread/src/src/crypto/peersec/mpi.c:824-832 | The last reduction removes R and gives G^X mod P exactly |
| MpExptmod.ExptmodFast | packages/libmatrixssl-nothread/src/src/crypto/peersec/mpi.c:565-845 | Y = G^X mod P for every odd P of at most 255 digits and every X >= 0 |
| MpInvmod.RoundsEnd | packages/libmatrixssl-nothread/src/src/crypto/peersec/mpi.c:3190-3285 | The rounds of binary extended Euclid, on a u of either sign, reach zero if and only if u is positive and v is not zero to begin with |
| MpInvmod.SlowRound | packages/libmatrixssl-nothread/src/src/crypto/peersec/mpi.c:3190-3282 | Each round of the loop for even moduli does what such a round does to u and v, for an a of either sign |
| MpInvmod.FastRound | packages/libmatrixssl-nothread/src/src/crypto/peersec/mpi.c:3376-3446 | So does each round of the loop for odd moduli, also when v is zero |
| MpInvmod.HalveCoefficient | packages/libmatrixssl-nothread/src/src/crypto/peersec/mpi.c:3380-3395 | Halving keeps B*y = u modulo an odd modulus |
| MpInvmod.DifferenceInverts | packages/libmatrixssl-nothread/src/src/crypto/peersec/mpi.c:3418-3439 | Subtracting the smaller from the larger keeps both congruences and all common divisors |
| MpInvmod.InvertingEnd | packages/libmatrixssl-nothread/src/src/crypto/peersec/mpi.c:3441-3461 | At u = 0, D inverts y when v = 1, and y has no inverse otherwise |
| MpInvmod.FastInvmod | packages/libmatrixssl-nothread/src/src/crypto/peersec/mpi.c:3332-3475 | For odd b that does not divide a: success exactly when an inverse exists; the magnitude of the result is one, with the sign of a, at most one digit longer than b |
| MpInvmod.SignedInverse | packages/libmatrixssl-nothread/src/src/crypto/peersec/mpi.c:3463-3471 | The result, sign included, inverts a if and only if a > 0 |
| MpInvmod.HalvePair | packages/libmatrixssl-nothread/src/src/crypto/peersec/mpi.c:3192-3245 | For odd x and even y the two coefficients can be halved with u |
| MpInvmod.DifferencePairs | packages/libmatrixssl-nothread/src/src/crypto/peersec/mpi.c:3247-3276 | The subtraction keeps A*x + B*y = u and C*x + D*y = v |
| MpInvmod.InvmodSsh | packages/libmatrixssl-nothread/src/src/crypto/peersec/mpi.c:3137-3321 | The inverse in [0, b) for even b and a > 0, success exactly when it exists; a zero is reported invertible exactly modulo powers of two |
| MpInvmod.OddPartOfPower | packages/libmatrixssl-nothread/src/src/crypto/peersec/mpi.c:3172-3178 | Only a power of two has odd part one, the case in which a zero slips through |
| MpInvmod.RoundShrinksProduct | packages/libmatrixssl-nothread/src/src/crypto/peersec/mpi.c:3376-3446 | Every round after the first halves the product of the two numbers |
| MpInvmod.FewRounds | packages/libmatrixssl-nothread/src/src/crypto/peersec/mpi.c:3376-3446 | So the coefficients never exceed 112 times the modulus's digit count and 6 more moduli |
| MpInvmod.OneDigitLonger | packages/libmatrixssl-nothread/src/src/crypto/peersec/mpi.c:3463-3471 | So the inverse, which is not reduced, is at most one digit longer than the modulus |
| MpPower.AbsCopy | packages/libmatrixssl-nothread/src/src/crypto/peersec/mpi.c:902-921 | b = \|a\|, aliased or not |
| MpPower.Exptmod | packages/libmatrixssl-nothread/src/src/crypto/peersec/mpi.c:498-559 | G^X mod P for X >= 0 and (1/G)^\|X\| mod P for X < 0; an error exactly for a modulus that is not odd and positive, or not prime to a base to be inverted |
| MpPower.PowerOfInverse | packages/libmatrixssl-nothread/src/src/crypto/peersec/mpi.c:511-548 | The result for X < 0 times G^\|X\| is 1, or -1 for negative G and odd X |
| MpPower.PowerInverts | packages/libmatrixssl-nothread/src/src/crypto/peersec/mpi.c:511-548 | So it inverts G^\|X\| if and only if G is not negative or X is even |
| MpBytes.ReadUnsignedBin | packages/libmatrixssl-nothread/src/src/crypto/peersec/mpi.c:122-159 | The big-endian value of any byte string, never outgrowing its digits |
| MpBytes.ToUnsignedBin | packages/libmatrixssl-nothread/src/src/crypto/peersec/mpi.c:193-217 | Writes the shortest byte string of the number and nothing else |
| MpBytes.UnsignedBinSize | packages/libmatrixssl-nothread/src/src/crypto/peersec/mpi.c:307-312 | The length of that string |
| MpBytes.BnReverse | packages/libmatrixssl-nothread/src/src/crypto/peersec/mpi.c:941-955 | Reverses the bytes in place |
| MpBytes.ReadWhatWasWritten | packages/libmatrixssl-nothread/src/src/crypto/peersec/mpi.c:122-217 | Reading what was written gives the number back |
| MpBytes.WriteWhatWasRead | packages/libmatrixssl-nothread/src/src/crypto/peersec/mpi.c:122-217 | Writing what was read gives the string back up to leading zeros |
| NumberTheory.Fermat | packages/libmatrixssl-nothread/src/src/crypto/peersec/rsa.c:103-136 | a^(p-1) = 1 modulo a prime that does not divide a: the reason why the exponents modulo p-1 and q-1 suffice |
| NumberTheory.Garner | packages/libmatrixssl-nothread/src/src/crypto/peersec/rsa.c:115-130 | The recombination gives the one number below p*q with both residues |
| NumberTheory.SamePower | packages/libmatrixssl-nothread/src/src/crypto/peersec/rsa.c:104-114 | Exponents congruent modulo p - 1 give the same power of every base |
| Rsa.RsaKey.constructor | packages/libmatrixssl-nothread/src/src/pki/rsaPki.c:395-442 | A key keeps its numbers, and its size is the byte length of its modulus |
| Rsa.CrtAgrees | packages/libmatrixssl-nothread/src/src/crypto/peersec/rsa.c:103-131 | The two half-size powers recombined are in^d mod N |
| Rsa.CrtPower | packages/libmatrixssl-nothread/src/src/crypto/peersec/rsa.c:104-130 | The in-place branch computes in^d mod N from dP, dQ and qP |
| Rsa.PrivateUndoesPublic | packages/libmatrixssl-nothread/src/src/crypto/peersec/rsa.c:103-145 | Raising to e and then to d returns every residue when e*d = 1 modulo p-1 and q-1 |
| Rsa.PowerOf | packages/libmatrixssl-nothread/src/src/crypto/peersec/rsa.c:103-145 | All branches give the plain power modulo N; refused exactly for a modulus that is not odd |
| Rsa.RsaCrypt | packages/libmatrixssl-nothread/src/src/crypto/peersec/rsa.c:71-183 | The whole primitive: when it accepts, the output as a fixed-width string, and buffers unchanged on refusal |
| Rsa.PadRsa | packages/libmatrixssl-nothread/src/src/crypto/peersec/rsa.c:198-239 | The block 00, type, nonzero padding, 00, data; refused with fewer than 8 padding bytes |
| Rsa.UnpadRsa | packages/libmatrixssl-nothread/src/src/crypto/peersec/rsa.c:294-339 | Accepts exactly the well-formed blocks with the expected amount of data and copies it out |
| Rsa.UnpadsBlocks | packages/libmatrixssl-nothread/src/src/crypto/peersec/rsa.c:294-339 | Unpadding accepts exactly the blocks with seven or more nonzero padding bytes |
| Rsa.BlockBelow | packages/libmatrixssl-nothread/src/src/crypto/peersec/rsa.c:198-239 | A padded block of the key's size is below the modulus |
| Rsa.EncryptPub | packages/libmatrixssl-nothread/src/src/crypto/peersec/rsa.c:271-280 | When it succeeds, and that the output is the encrypted padded block at key size |
| Rsa.DecryptPriv | packages/libmatrixssl-nothread/src/src/crypto/peersec/rsa.c:345-362 | When it succeeds, the data of the decrypted block, and that the input is wiped |
| Rsa.RoundTrip | packages/libmatrixssl-nothread/src/src/crypto/peersec/rsa.c:198-362 | Decrypting what was encrypted for the key gives the message back, whatever nonzero padding was drawn |
| Rsa.DrawsDiffer | packages/libmatrixssl-nothread/src/src/crypto/peersec/rsa.c:198-240 | Different random bytes without zeros give different ciphertexts of the same message |
| Des.FinalUndoesInitial | packages/libmatrixssl-nothread/src/src/crypto/peersec/des3.c:458-567 | The final permutation undoes the initial one with the halves exchanged |
| Des.RoundsCancel | packages/libmatrixssl-nothread/src/src/crypto/peersec/des3.c:505-530 | Each round under the reversed schedule takes one round back, for any boxes |
| Des.DesFunc | packages/libmatrixssl-nothread/src/src/crypto/peersec/des3.c:458-567 | The in-place function is permutation, sixteen rounds, permutation |
| Des.DesInverse | packages/libmatrixssl-nothread/src/src/crypto/peersec/des3.c:458-567 | A block put through the reversed schedule comes back |
| Des.Deskey | packages/libmatrixssl-nothread/src/src/crypto/peersec/des3.c:408-456 | The schedule of a key, word by word, for both directions |
| Des.SchedulesReversed | packages/libmatrixssl-nothread/src/src/crypto/peersec/des3.c:408-456 | The decryption schedule is the encryption schedule with its pairs reversed |
| Des.EcbInverse | packages/libmatrixssl-nothread/src/src/crypto/peersec/des3.c:630-668 | Triple DES decryption undoes encryption of a block |
| Des.CbcInverse | packages/libmatrixssl-nothread/src/src/crypto/peersec/des3.c:276-377 | CBC decryption undoes encryption over any number of blocks |
| Des.CbcInParts | packages/libmatrixssl-nothread/src/src/crypto/peersec/des3.c:276-312 | Two calls with the chaining value carried over equal one call |
| Des.SchedulesOpposite | packages/libmatrixssl-nothread/src/src/crypto/peersec/des3.c:586-610 | The six schedules of a 24-byte key undo each other in pairs |
| Des.Des3Cbc.Init | packages/libmatrixssl-nothread/src/src/crypto/peersec/des3.c:245-268 | Sets up schedules and chaining value; a key of another length is refused |
| Des.Des3Cbc.Encrypt | packages/libmatrixssl-nothread/src/src/crypto/peersec/des3.c:276-312 | CBC encryption, also in place; lengths that are not whole blocks are refused |
| Des.Des3Cbc.Decrypt | packages/libmatrixssl-nothread/src/src/crypto/peersec/des3.c:320-377 | CBC decryption, also in place, with the next chaining value taken before it is overwritten |
| DesRefinement.DesIsStandard | packages/libmatrixssl-nothread/src/src/crypto/peersec/des3.c:408-567 | For every table content, key, direction and block: the in-place permutations, the packed key words and the sixteen rounds on rotated halves are DES as FIPS 46-3 defines it bit by bit, round keys reversed for decryption |
| DesRefinement.OneBox | packages/libmatrixssl-nothread/src/src/crypto/peersec/des3.c:383-406 | With tables that hand through what box b is given, a round adds six bits of the expanded half combined with bits 6b-5 to 6b of the round key, for each of the eight boxes |
| DesRefinement.MixIsStandard | packages/libmatrixssl-nothread/src/src/crypto/peersec/des3.c:505-527 | A round's eight lookups in masked and rotated words are the standard's expansion, key addition and boxes |
| DesRefinement.RoundKeyIs | packages/libmatrixssl-nothread/src/src/crypto/peersec/des3.c:408-456 | The packed key words hold, group by group, the round key made by two selections and shifts by one or two places |
| DesRefinement.KeyHalfAt | packages/libmatrixssl-nothread/src/src/crypto/peersec/des3.c:68-73 | The rotations looked up are the standard's single shifts added up, 28 places in all |
| DesBits.MovedBits | packages/libmatrixssl-nothread/src/src/crypto/peersec/des3.c:466-488 | The four exchanges with masks, two rotations and a swap of every other bit put each of the 64 bits where the initial permutation says |
| DesRefinement.FinalIsStandard | packages/libmatrixssl-nothread/src/src/crypto/peersec/des3.c:529-565 | The exchanges at the end are the final permutation of the two halves in exchanged order |
| DesStandard.RoundFunction | packages/libmatrixssl-nothread/src/src/crypto/peersec/des3.c:506-514 | Boxes that hold the substitutions already permuted add up to the round function as the standard writes it: expand, add the key, substitute, permute |
| DesRefinement.TripleIsStandard | packages/libmatrixssl-nothread/src/src/crypto/peersec/des3.c:630-647 | A block of bytes is enciphered under the first key, deciphered under the second and enciphered under the third |
| DesRefinement.EqualKeys | packages/libmatrixssl-nothread/src/src/crypto/peersec/des3.c:586-647 | With one key three times this is single DES |
| DesRefinement.CbcChains | packages/libmatrixssl-nothread/src/src/crypto/peersec/des3.c:276-312 | Each block of ciphertext is the plaintext block, combined with the ciphertext before it or the initial value, under the cipher |
| Hash.HashState.Update | packages/libmatrixssl-nothread/src/src/crypto/peersec/sha1.c:177-205 | Any bytes are appended to the message absorbed so far |
| Hash.HashState.Final | packages/libmatrixssl-nothread/src/src/crypto/peersec/sha1.c:207-277 | The hash of the whole message whatever the updates were |
| Hash.HashState.PadAndCompress | packages/libmatrixssl-nothread/src/src/crypto/peersec/md5.c:281-351 | Both padding branches leave the state of the message padded once, with its bit length modulo 2^64 |
| Hash.PaddedBlocks | packages/libmatrixssl-nothread/src/src/crypto/peersec/sha1.c:207-270 | The blocks compressed in either branch are the padded message |
| Hash.PaddingUnambiguous | packages/libmatrixssl-nothread/src/src/crypto/peersec/sha1.c:207-270 | Different messages below 2^61 bytes are padded differently |
| Hash.BigEndianVal | packages/libmatrixssl-nothread/src/src/crypto/peersec/sha1.c:255-277 | Stored words read back as the numbers they keep |
| Hash.Sha1Padding | packages/libmatrixssl-nothread/src/src/crypto/peersec/sha1.c:207-270 | SHA-1 pads with a one bit, zeros and the length in bits, most significant byte first |
| Hash.Md5Padding | packages/libmatrixssl-nothread/src/src/crypto/peersec/md5.c:281-345 | MD5 does so with the length least significant byte first |
| Hash.Sha1Output | packages/libmatrixssl-nothread/src/src/crypto/peersec/sha1.c:268-272 | The bytes of a SHA-1 hash are the state words, most significant byte first |
| Hash.Md5Output | packages/libmatrixssl-nothread/src/src/crypto/peersec/md5.c:342-346 | Those of an MD5 hash are the state words, least significant byte first |
| Arc4.SetupIsPermutation | packages/libmatrixssl-nothread/src/src/crypto/peersec/arc4.c:47-72 | The table is a permutation after every round of key setup |
| Arc4.AfterKeepsPermutation | packages/libmatrixssl-nothread/src/src/crypto/peersec/arc4.c:74-105 | It stays one through any number of steps |
| Arc4.CryptTwice | packages/libmatrixssl-nothread/src/src/crypto/peersec/arc4.c:74-105 | From equal states processing twice is the identity |
| Arc4.CryptInParts | packages/libmatrixssl-nothread/src/src/crypto/peersec/arc4.c:74-105 | Processing in chunks equals processing whole |
| Arc4.CallUndone | packages/libmatrixssl-nothread/src/src/crypto/peersec/arc4.c:74-105 | What one end has processed, an end that stood where it did takes back, and both stand alike again |
| Arc4.CallInParts | packages/libmatrixssl-nothread/src/src/crypto/peersec/arc4.c:80-83 | As long as all bytes stay within the limit, two calls are both carried out and do what one does |
| Arc4.Arc4Context.constructor | packages/libmatrixssl-nothread/src/src/crypto/peersec/arc4.c:47-72 | The context after key setup |
| Arc4.Arc4Context.Process | packages/libmatrixssl-nothread/src/src/crypto/peersec/arc4.c:74-105 | One call: the byte limit with its 32-bit count, the output, and the state after it, in place or not |
| Arc4.NextTrace | packages/libmatrixssl-nothread/src/src/crypto/peersec/arc4.c:87-97 | One step as a trace: both indices, the exchange of two entries, and the byte at the sum of the two |
| Arc4.KeyStream | packages/libmatrixssl-nothread/src/src/crypto/peersec/arc4.c:87-101 | Byte i of a message is combined with the byte of step i + 1 |
| Arc4.SetupTrace | packages/libmatrixssl-nothread/src/src/crypto/peersec/arc4.c:57-70 | One round of key setup as a trace: the index moves on by an entry and a key byte, the key being repeated, and two entries are exchanged |
| Record.NextSeqCounts | packages/libmatrixssl-nothread/src/src/sslv3.c:311-321 | The sequence number counts up by one modulo 2^64 |
| Record.MacBinds | packages/libmatrixssl-nothread/src/src/sslv3.c:287-376 | Equal MACs have equal secrets, sequence numbers, kinds and data, unless the hash collides on the strings it is taken over, which are named |
| Record.ReplayRefused | packages/libmatrixssl-nothread/src/src/sslDecode.c:239-262 | A record decrypted to what was sealed is refused as a bad MAC by a reader at another sequence number, kind or secret, unless the hash collides |
| Record.Increment | packages/libmatrixssl-nothread/src/src/sslv3.c:311-321 | The carry loop increments in place |
| Record.FindMac | packages/libmatrixssl-nothread/src/src/sslDecode.c:207-243 | The last padding byte locates the MAC, for block sizes 8 and 1 |
| Record.UnprotectProtected | packages/libmatrixssl-nothread/src/src/sslDecode.c:176-270 | What was protected is recovered, both counters move on together, and the encrypted part is whole blocks |
| Record.SealMoves | packages/libmatrixssl-nothread/src/src/sslEncode.c:445-463 | A direction within the limit of its cipher seals a record if and only if the record's bytes, with MAC and padding, fit what is left of it, and exactly these are then used up |
| Record.SealOpens | packages/libmatrixssl-nothread/src/src/sslDecode.c:76-270 | A sealed record opens as what was sealed, whatever follows it |
| Record.SecondOpenFails | packages/libmatrixssl-nothread/src/src/sslDecode.c:76-270 | On the wire: a record that comes a second time, or with its kind changed, is refused, unless the hash collides |
| Record.WireLayout | packages/libmatrixssl-nothread/src/src/sslEncode.c:387-463 | A record is kind, version, length of what follows and the encrypted part, in that order |
| Record.PaddingAccepted | packages/libmatrixssl-nothread/src/src/sslDecode.c:215-236 | Padding of a block or more, whatever it holds, is accepted if and only if the version is not exactly 3.0 |
| Record.SessionRoundTrip | packages/libmatrixssl-nothread/src/src/sslEncode.c:387-463 | Any sequence of records is read exactly as written, the two ends agreeing after it, if and only if the records fit what is left of the cipher's limit |
| Record.Half.Activate | packages/libmatrixssl-nothread/src/src/matrixSsl.c:399-458 | One direction under a new suite, its sequence number zero |
| Record.Half.WriteRecord | packages/libmatrixssl-nothread/src/src/sslEncode.c:387-463 | Writes exactly one sealed record into the buffer, or nothing when it does not fit; a cipher that refuses is noticed and moves on |
| Record.Half.ReadRecord | packages/libmatrixssl-nothread/src/src/sslDecode.c:76-270 | Decodes the front record in the buffers, of either header form, as the specification does; the direction after every refusal is exact |
| Keys.SlicesMirrored | packages/libmatrixssl-nothread/src/src/sslv3.c:200-218 | Each side writes with what the other reads with; the six pieces lie end to end in the key block |
| Keys.ChunksLength | packages/libmatrixssl-nothread/src/src/sslv3.c:170-198 | Key material comes in whole 16-byte chunks |
| Keys.KeyMaterial.DeriveKeys | packages/libmatrixssl-nothread/src/src/sslv3.c:84-139 | The master secret of a full handshake, a resumed one kept, and the key block's slices |
| Keys.KeyMaterial.CreateKeyBlock | packages/libmatrixssl-nothread/src/src/sslv3.c:153-221 | The key block and its slices, refused when more than ten chunks are needed |
| Keys.KeyBlockFits | packages/libmatrixssl-nothread/src/src/sslv3.c:170-198 | Whole chunks are written: they stay inside the 104 bytes kept for them if and only if the suite needs at most 96 |
| Keys.SaltsSpelled | packages/libmatrixssl-nothread/src/src/sslv3.c:61-74 | The ten salts are the letters A to J, repeated one to ten times |
| Keys.MasterSecretSpelled | packages/libmatrixssl-nothread/src/src/sslv3.c:108-121 | The three chunks of the master secret written out as in the standard |
| Keys.MasterSecretBinds | packages/libmatrixssl-nothread/src/src/sslv3.c:84-139 | Equal master secrets come from equal premaster secrets and random numbers, unless a hash collides in each of the three chunks |
| Keys.KeyBlockStart | packages/libmatrixssl-nothread/src/src/sslv3.c:170-198 | The key block starts as a master secret would whose random numbers are exchanged |
| Keys.KeyBlockBinds | packages/libmatrixssl-nothread/src/src/sslv3.c:153-198 | Equal key blocks come from equal master secrets and equal random numbers in their order, unless a hash collides in every chunk |
| Keys.FinishedBinds | packages/libmatrixssl-nothread/src/src/sslv3.c:229-276 | Equal Finished hashes have equal transcripts, senders and master secrets, unless MD5 and SHA-1 both collide on the strings hashed, which are named |
| Keys.FreeFinishedBinds | packages/libmatrixssl-nothread/src/src/sslv3.c:229-276 | With hashes that hand through their input, equal Finished hashes agree in all three without exception |
| HandshakeSafety.DeriveKeysDerives | packages/libmatrixssl-nothread/src/src/sslv3.c:84-221 | Afterwards the slices are those of the current secret, random numbers and suite |
| HandshakeSafety.Hello2Keeps | packages/libmatrixssl-nothread/src/src/sslDecode.c:792-880 | A hello in the form of version 2, whatever it holds, is refused with an alert or leaves the read side in order |
| HandshakeSafety.BodyKeeps | packages/libmatrixssl-nothread/src/src/sslDecode.c:613-1393 | Every message body is refused with an alert or leaves the read side in order, what was noted before a refusal included; only Finished ends the handshake |
| HandshakeSafety.MessageKeeps | packages/libmatrixssl-nothread/src/src/sslDecode.c:506-1400 | The same for a whole message of a record of any version, the Finished one equal to the hash of the transcript before it |
| HandshakeSafety.ParseKeeps | packages/libmatrixssl-nothread/src/src/sslDecode.c:482-1405 | The same for all messages of a record |
| HandshakeSafety.RespondKeeps | packages/libmatrixssl-nothread/src/src/sslDecode.c:429-463 | Every answer, alert or full buffer keeps the invariant |
| HandshakeSafety.DecodeMoreKeeps | packages/libmatrixssl-nothread/src/src/sslDecode.c:89-427 | Every record keeps the invariant |
| HandshakeSafety.DecodeKeeps | packages/libmatrixssl-nothread/src/src/sslDecode.c:44-463 | Every call of the decoder before the end of the handshake keeps it and hands out no application data |
| HandshakeSafety.StepKeeps | packages/libmatrixssl-nothread/src/src/sslDecode.c:44-463 | Every call of an application keeps the invariant; the call that ends the handshake read a verified Finished |
| HandshakeSafety.RunIsSafe | packages/libmatrixssl-nothread/src/src/sslDecode.c:310-318 | On every run READ_SECURE implies FINISHED or DONE, derived keys and an active suite other than the null suite |
| HandshakeSafety.RunIsVerified | packages/libmatrixssl-nothread/src/src/sslDecode.c:986-1036 | A run that reaches DONE contains a call that verified a Finished, and no result before is application data |
| HandshakeSafety.EveryRunIsSafe | packages/libmatrixssl-nothread/src/src/sslDecode.c:379-384 | All of this for every new connection over arbitrary input |
| HandshakeBinding.AcceptedOfRun | packages/libmatrixssl-nothread/src/src/sslDecode.c:563-571 | Over arbitrary bytes: what a finished connection has accepted is the hash, under the other side's label, of exactly what it had heard |
| HandshakeBinding.FinishedIsSaid | packages/libmatrixssl-nothread/src/src/sslEncode.c:795-846 | A Finished message that is sent holds the hash, under its own label, of all that the sender has heard, and enters the transcript behind it |
| HandshakeBinding.FinishedAuthenticates | packages/libmatrixssl-nothread/src/src/sslDecode.c:986-1020 | Over arbitrary bytes: if some connection sent that Finished message, it is on the other side, has the same master secret and had heard exactly the same, unless both hashes collide |
| HandshakeBinding.BothHeardTheSame | packages/libmatrixssl-nothread/src/src/sslDecode.c:986-1020 | A client and a server with anything between them, each done on a Finished message of the other: each had heard what the other had when it sent the message, so that a changed offer is noticed, unless both hashes collide |
| HandshakeStream.OpenExtends | packages/libmatrixssl-nothread/src/src/sslDecode.c:89-173 | A record that is complete is read the same whatever bytes follow it |
| HandshakeStream.DecodeExtends | packages/libmatrixssl-nothread/src/src/sslDecode.c:89-427 | A call on part of the bytes waits where a call on more goes on, or comes to the same with more left over |
| HandshakeStream.ReceiveExtends | packages/libmatrixssl-nothread/src/src/sslDecode.c:44-427 | Receiving some bytes and then the rest is receiving them at once |
| HandshakeStream.FeedIsReceive | packages/libmatrixssl-nothread/src/src/sslDecode.c:44-427 | However a stream is cut into pieces, the decoder ends in the same state with the same result |
| HandshakeAgreement.DeliverMessage | packages/libmatrixssl-nothread/src/src/sslDecode.c:506-608 | A handshake message sent is heard, entered into both transcripts and read |
| HandshakeAgreement.ClientHelloRead | packages/libmatrixssl-nothread/src/src/sslDecode.c:616-787 | The hello a client writes is accepted with its random number, session and suites |
| HandshakeAgreement.ServerHelloRead | packages/libmatrixssl-nothread/src/src/sslDecode.c:1073-1189 | The hello a server writes is read back |
| HandshakeAgreement.Mirrored | packages/libmatrixssl-nothread/src/src/sslv3.c:200-218 | Two ends with the same secret hold mirrored slices |
| HandshakeAgreement.SpecDelivered | packages/libmatrixssl-nothread/src/src/sslEncode.c:752-787 | Change cipher spec switches one direction on both ends to the same suite, key and counter |
| HandshakeAgreement.FinishedDelivered | packages/libmatrixssl-nothread/src/src/sslv3.c:229-276 | The Finished of one end is the one the other computes |
| HandshakeAgreement.SwitchDelivered | packages/libmatrixssl-nothread/src/src/sslEncode.c:195-210 | Both records of a switch are accepted and end the receiver's handshake |
| HandshakeAgreement.KeyExchangeDelivered | packages/libmatrixssl-nothread/src/src/sslEncode.c:1033-1100 | Both ends derive the same master secret |
| HandshakeAgreement.HandshakeAgrees | packages/libmatrixssl-nothread/src/src/sslEncode.c:119-340 | Over a lossless ordered channel that delivers the bytes in any pieces, every honest handshake, full or resumed, ends with both ends done and in agreement: secret, transcript, mirrored keys, the suite the server settled on, secure directions in step with only Finished encrypted; it is resumed exactly when the server knows the session |
| HandshakeAgreement.DataDelivered | packages/libmatrixssl-nothread/src/src/sslDecode.c:386-420 | After it a record of 1 to 16384 bytes reaches the other side's caller unchanged |
| HandshakeAgreement.DeliveredExactly | packages/libmatrixssl-nothread/src/src/sslEncode.c:71-111 | The encoder takes up to 18432 bytes within the cipher's limit, but what arrives is exactly what of it has 1 to 16384 |
| HandshakeAgreement.TalkIsHeard | packages/libmatrixssl-nothread/src/src/sslEncode.c:71-111 | Any interleaving of records in both directions arrives record by record, in whatever pieces, if and only if each direction's records fit what is left of the cipher's limit |
| HandshakeAgreement.ConversationIsHeard | packages/libmatrixssl-nothread/src/src/sslEncode.c:71-111 | From the first byte of an honest handshake: all said afterwards arrives if and only if each side's records and its Finished stay within the limit of the suite settled on |
| Connection.Ssl.constructor | packages/libmatrixssl-nothread/src/src/matrixSsl.c:132-224 | A new connection, a client's with the session it may resume |
| Connection.Ssl.ActivateReadCipher | packages/libmatrixssl-nothread/src/src/matrixSsl.c:399-428 | The read cipher, MAC key, counter and READ_SECURE flag |
| Connection.Ssl.ActivateWriteCipher | packages/libmatrixssl-nothread/src/src/matrixSsl.c:430-458 | The write side alike |
| Connection.Ssl.DeriveKeys | packages/libmatrixssl-nothread/src/src/sslv3.c:84-139 | Master secret and slices in place |
| Connection.Ssl.ChooseCipher | packages/libmatrixssl-nothread/src/src/sslDecode.c:708-732 | The scan of the suite list, of two or three bytes each, finds the session's suite, or the first one supported |
| Connection.Ssl.ReadClientHello | packages/libmatrixssl-nothread/src/src/sslDecode.c:616-905 | ClientHello in place, in the form of version 3 or 2, every refusal and what is noted before it included |
| Connection.Ssl.ReadHello2 | packages/libmatrixssl-nothread/src/src/sslDecode.c:792-880 | A hello in the form of version 2 in place: its three lengths, suites and challenge |
| Connection.Ssl.ReadServerHello | packages/libmatrixssl-nothread/src/src/sslDecode.c:1073-1189 | ServerHello in place, every refusal and what is noted before it included |
| Connection.Ssl.ReadClientKeyExchange | packages/libmatrixssl-nothread/src/src/sslDecode.c:907-983 | Premaster secret, version check and key derivation in place |
| Connection.Ssl.ReadFinished | packages/libmatrixssl-nothread/src/src/sslDecode.c:986-1051 | Finished in place: read only when secure, of 36 bytes and equal to the hash |
| Connection.Ssl.TakeMessage | packages/libmatrixssl-nothread/src/src/sslDecode.c:506-608 | Header of either version, state check, hash snapshot and transcript of one message |
| Connection.Ssl.ParseHandshake | packages/libmatrixssl-nothread/src/src/sslDecode.c:482-1405 | The loop over the messages of a record is the specification's recursion |
| Connection.Ssl.WriteHandshake | packages/libmatrixssl-nothread/src/src/sslEncode.c:387-463 | One handshake record into the buffer, hashed as it is sent, or nothing if it does not fit |
| Connection.Ssl.EncodeResponse | packages/libmatrixssl-nothread/src/src/sslEncode.c:119-340 | The flight for each state, and the alert for an error, into the buffer: its size checked beforehand, each record checked again |
| Connection.Ssl.DecodeRecord | packages/libmatrixssl-nothread/src/src/sslDecode.c:89-427 | One record from buffer to buffer, and whether decoding goes on |
| Connection.Ssl.Decode | packages/libmatrixssl-nothread/src/src/sslDecode.c:44-463 | The decoder over its buffers is the specification's decoder, on every input, in every state and with any room for output |
| Connection.Ssl.EncodeClientHello | packages/libmatrixssl-nothread/src/src/sslEncode.c:880-1027 | The client's hello into the buffer, with the suite of its session, the one asked for, or all |
| Connection.Ssl.Encode | packages/libmatrixssl-nothread/src/src/sslEncode.c:71-111 | One application record into the buffer |
| HandshakeRsa.SecretRecovered | packages/libmatrixssl-nothread/src/src/sslEncode.c:1070-1088 | The server recovers every premaster secret the client encrypts, whatever padding was drawn |
| HandshakeRsa.KeyPairIsHonest | packages/libmatrixssl-nothread/src/src/sslDecode.c:907-940 | An RSA key pair behind the public-key operations is all the handshake theorem assumes of them |
| CipherSuites.TripleDesIsSound | packages/libmatrixssl-nothread/src/src/cipherSuite.c:92-105 | 3DES-CBC with SHA-1 keeps the two ends of a direction in step without limit, for any boxes and compression |
| CipherSuites.Rc4Counts | packages/libmatrixssl-nothread/src/src/crypto/peersec/arc4.c:80-83 | RC4 under a 32-bit count takes exactly what keeps the count within 2^30, and counts what it refuses |
| CipherSuites.Rc4RowsAreSound | packages/libmatrixssl-nothread/src/src/cipherSuite.c:106-133 | RC4 with either hash keeps the two ends in step up to that limit, and refuses exactly what goes beyond |
| CipherSuites.TableIsSound | packages/libmatrixssl-nothread/src/src/cipherSuite.c:85-180 | Every row of the table built is sound and its keys fit the key block |
| CipherSuites.BuiltWorldIsGood | packages/libmatrixssl-nothread/src/src/cipherSuite.c:189-201 | The table and lookup built in are all the handshake theorems assume of one |
| CipherSuites.KeyBlockOfRow | packages/libmatrixssl-nothread/src/src/cipherSuite.c:86-181 | Of the rows built, 3DES alone has a key block that does not fit the bytes kept for it: 8 bytes too long |
| TalkLimits.LimitOfRow | packages/libmatrixssl-nothread/src/src/crypto/peersec/arc4.c:80-83 | What fits a built-in suite: anything under 3DES; under RC4, per direction, data, a MAC for each record and the Finished message up to 2^30 bytes |
| TalkLimits.BuiltTalkIsHeard | packages/libmatrixssl-nothread/src/src/crypto/peersec/arc4.c:80-83 | From the first byte of an honest handshake under the built-in table: all that is said arrives if and only if it fits the suite settled on |
| TalkLimits.GigabyteDoesNotFit | packages/libmatrixssl-nothread/src/src/crypto/peersec/arc4.c:80-83 | 65536 records of 16384 bytes in one direction do not fit either RC4 suite |
| HandshakePromises.ResumedByBeginning | packages/libmatrixssl-nothread/src/src/sslDecode.c:1107-1137 | A client resumes its session if and only if the id it gets back is a nonempty beginning of its own |
| HandshakePromises.OneByteResumes | packages/libmatrixssl-nothread/src/src/sslDecode.c:1107-1137 | So one byte is enough, which is not the id it asked for |
| HandshakePromises.ServerRefusesNull | packages/libmatrixssl-nothread/src/src/sslDecode.c:734-746 | No hello of any form makes a server settle on the null suite |
| HandshakePromises.ClientTakesNull | packages/libmatrixssl-nothread/src/src/sslDecode.c:1138-1181 | A client not resuming settles on it if and only if the server names it, with no compression, and the table has it |
| HandshakePromises.NullIsNeverDone | packages/libmatrixssl-nothread/src/src/sslDecode.c:986-1000 | But no run of a connection is done under it, whatever bytes arrive |
| HandshakePromises.LastFlightWhole | packages/libmatrixssl-nothread/src/src/sslEncode.c:142-210 | The switch that ends a handshake is written whole or not at all if and only if there is room for less than 51 bytes or for all of it; otherwise the cipher is changed and Finished is not sent |
| HandshakePromises.ResumedFlightWhole | packages/libmatrixssl-nothread/src/src/sslEncode.c:215-245 | The flight that resumes a session likewise, with 130 bytes |
| HandshakePromises.HelloFlightWhole | packages/libmatrixssl-nothread/src/src/sslEncode.c:155-190 | The server's full flight is always written whole or not at all |
| HandshakePromises.KeyFlightWhole | packages/libmatrixssl-nothread/src/src/sslEncode.c:246-340 | So is the client's, if the premaster secret can be encrypted to the size of the key |
| HandshakePromises.FirstKnownIsChosen | packages/libmatrixssl-nothread/src/src/sslDecode.c:714-733 | The suite chosen is that of the first id the table knows, and none if and only if it knows none |
| HandshakePromises.SuiteIdsAt | packages/libmatrixssl-nothread/src/src/sslDecode.c:714-733 | The ids of a list are its pairs of bytes in order, most significant first |
| HandshakePromises.LongIdsAt | packages/libmatrixssl-nothread/src/src/sslDecode.c:832-850 | Those of a version 2 list are its groups of three bytes |
| HandshakePromises.Hello2Accepted | packages/libmatrixssl-nothread/src/src/sslDecode.c:792-880 | A version 2 hello put together byte by byte is accepted, the challenge ending a random number that starts with zeros |
| HandshakePromises.MessageLayout | packages/libmatrixssl-nothread/src/src/sslEncode.c:1149-1180 | A handshake message is its kind, the length of its body in three bytes and the body |
| HandshakePromises.ClientHelloLayout | packages/libmatrixssl-nothread/src/src/sslEncode.c:880-1030 | The client hello field by field |
| HandshakePromises.ServerHelloLayout | packages/libmatrixssl-nothread/src/src/sslEncode.c:470-572 | The server hello field by field |

## Left out

- MpExptmod.ExptmodFast: moduli of at most 255 digits (7140 bits), the range in which the code takes the routines modelled here and their columns fit 64 bits.
- Rsa.RsaCrypt: numbers of at most 255 digits, for the same reason.
- MpInvmod.FastInvmod: an `a` that `b` divides is excluded because the loop does not end (`MpInvmod.RoundsEnd`); the result is not claimed to be below the modulus, which the code does not ensure either.
- MpPower.Exptmod: moduli of at most 255 digits, and of at most 254 for a negative exponent, whose inverted base may be one digit longer; a base that an odd modulus divides is excluded for a negative exponent because the inversion would not end.
- MpInvmod.InvmodSsh: a negative odd `a` with an even modulus, and a multiple of an odd modulus, are excluded because the loops do not end (`MpInvmod.RoundsEnd`).
- Rsa.RsaKey.constructor: the size of a key is that of its modulus, as both key readers set it, so the loop that pads a modulus shorter than the key is never entered.
- Rsa.CrtPower: RSA blinding and the timing-resistant exponentiation are not part of this model.
- Arc4.Arc4Context.Process: calls are of at most 32767 bytes, the range of the loop's short counter.
- Connection.Ssl.ReadServerHello: after a suite that is not known the connection has the null suite here, where the original keeps a null pointer.
- Connection.Ssl.ReadClientHello: after a session id that is too long, or any in the form of version 2, the id noted before is kept, where the original has taken over the new length.
- Connection.Ssl.EncodeResponse: a client that has no certificate to show sends the alert of version 3.0, the only version a client of this library has.
- Connection.Ssl.Decode: of the output buffer the part before the position given and the answer or data are described; that the rest of a refused record is cleared is not.
- HandshakeAgreement.HandshakeAgrees: both ends use the same table and hashes, the client's hello fits one record, certificates and encrypted secrets fit one record, and a new session id differs from the one offered.
- Connection.Ssl.ReadCertificate: what a refused certificate leaves behind in the connection is not part of this model, nor is what an RSA operation that fails leaves of the premaster secret.
- What follows the first completed handshake on the handshake layer (hello requests and further handshakes): the result `NextHandshake` stands for it.
- X.509, ASN.1 and PEM parsing and the certificate callbacks: `World.checkChain` stands for them.
- Client certificates: only the warning a client without one sends is modelled.
- The server's session table with its eviction and its bookkeeping: `World.resume` stands for it.
- DesRefinement.DesIsStandard: the contents of the eight DES tables are arbitrary here, so that they hold the substitutions of the standard is not shown.
- HandshakeBinding.BothHeardTheSame: the two master secrets are taken to have one length, which in the original is always 48 bytes.
- HandshakeBinding.FinishedAuthenticates: likewise, for the two master secrets it compares.
- The contents of the DES boxes and the SHA-1 and MD5 compression functions, which are arbitrary here; MD2.
- Failing allocations, clearing of memory, stack burning and timing.
- Ciphers that fail to start.
- `mp_add_d`, `mp_sub_d`, and code under `USE_SMALL_WORD` and `MP_DIV_SMALL`, which is not built.
- Shell, build and packaging files, the operating-system layer and the user interface.
