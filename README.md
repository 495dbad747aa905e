# Textbook RSA: number theory, text codec and the two screen hooks

A Dafny model of the core of a small teaching application for textbook RSA.
The model covers three source files:

- `src/utils/rsa.ts`. It holds modular exponentiation, the extended Euclidean algorithm, the modular inverse, gcd, trial-division primality, key generation from two primes, and the text codec. The codec writes each UTF-16 code unit, raised to e modulo n, as a zero-padded decimal block whose width is the length of n's decimal string.
- `src/hooks/useEncryption.ts`. This is the state of the encryption screen: key generation, encryption, the example, clearing and manual key entry.
- `src/hooks/useDecryption.ts`. This is the state of the decryption screen: key validation, decryption, the example keys and cipher text, and clearing.

Modules:

- `Wrappers`: Option and Result, in place of `null` returns and thrown exceptions.
- `BigInt`: JavaScript bigint arithmetic. `%` and `/` truncate toward zero (`Rem`, `Div`), and `Pow` is exponentiation.
- `JsString`: strings as sequences of UTF-16 code units, with `trim` and `padStart`. Also bigint `toString` and the `BigInt(string)` conversion: white space is ignored, the empty string reads as 0, an optional sign comes before the digits, and anything else is a SyntaxError.
- `Divisibility`: divisibility, gcd, coprimality and primality, as reference definitions.
- `Rsa`: the number theory of `rsa.ts`. Its loops (`modPow`, `gcd`, `isPrime`, the coprime search of `generateRSAKeys`) are methods proved against functions.
- `Codec`: `encryptTextToNumbers` and `decryptNumbersToText`, with their layout and the round trip.
- `ExampleKeys`: Fermat's little theorem for 11 and 17, worked by computation, plus Chinese remaindering. Together they show that both example exponent pairs undo each other on every code unit below 187.
- `Samples`: the example texts, keys and cipher texts of both screens.
- `Types`: the key and prime records.
- `UseEncryption`, `UseDecryption`: each hook is a class whose fields are the React state. Each callback is a method, proved against a function that says what the callback returns.

A callback that computes something is split in two:

- A module method (`TryGenerateKeys`, `TryEncrypt`, `TryDecrypt`) computes its result against the specification function.
- A class method (`RecordGeneration`, `RecordEncryption`, `RecordDecryption`, `RecordValidation`) applies the state updates.

No callback awaits anything, so React applies all its updates at once. The model records only the final state, in which `isLoading` is false.

Where the code disagrees with the project's design notes or with its own interface text, the model follows the code:

- Primes 17 and 11 give d = 3 and e = 107, not d = 7 and e = 23 as the hint at src/components/KeyGeneration.tsx:158 says. The code searches upward from 2 for the first d coprime to phi = 160, and that is 3 (`UseEncryption.ExampleGeneration`, `Rsa.KeygenExample`). The example key pair (23, 7) that both screens load is nonetheless a valid pair for n = 187 (`Samples.InterfaceKeysRoundTrip`).
- Decryption does not reject a cipher text whose length is not a multiple of the block size. The last block may be short, and "12" decrypts to one character under n = 187 (`Samples.ShortCipherDecrypts`). Non-digit characters are rejected only by `decryptText`, which checks the trimmed text. Inside `decryptNumbersToText`, a block that does not read as a bigint throws a SyntaxError.
- The decryption screen's example cipher text is loaded as written, 072149037072079, although it does not decrypt to "HELLO" under the example keys (see Findings). `UseDecryption.DecryptionHook.LoadExampleCipherText` stores exactly that string; the corrected 183137032032173 appears only in the lemmas that state the intended behaviour.

## Model

| member | source | states |
|---|---|---|
| Rsa.ModPow | src/utils/rsa.ts:4-24 | modPow fails (RangeError of the first `%`) exactly when mod is 0. Otherwise the square-and-multiply loop returns ModPowValue: 0 for mod 1, 1 for an exponent that is not positive, else the truncating remainder of base^exp. The loop invariant is result * baseResult^expResult = base^exp modulo mod |
| Rsa.ModPowIsResidue | src/utils/rsa.ts:9-23 | for non-negative base and exponent and positive modulus, modPow is base^exp mod m and lies in [0, m) |
| Rsa.SquareAndMultiplyStep | src/utils/rsa.ts:16-20 | one round of the loop (multiply on an odd exponent, halve the exponent, square the base) keeps result * base^exp fixed modulo m |
| Rsa.ExtendedGcd | src/utils/rsa.ts:71-79 | the triple (g, x, y) satisfies Bézout's identity a*x + b*y = g; g divides a and b, and g is non-negative for non-negative inputs |
| Rsa.ExtendedGcdIsGcd | src/utils/rsa.ts:71-79 | the first component is a greatest common divisor of a and b |
| Rsa.GcdOneIffCoprime | src/utils/rsa.ts:88-90 | for non-negative a and b, extendedGcd reports 1 exactly when a and b are coprime |
| Rsa.Gcd | src/utils/rsa.ts:98-109 | the Euclidean loop returns the same value as extendedGcd, and it is a greatest common divisor of a and b |
| Rsa.ModInverse | src/utils/rsa.ts:84-93 | it throws (RangeError) only for m = 0 and a = 1. It is null exactly when the gcd is not 1. Otherwise a * result = 1 modulo m, and the result lies in [0, m) for positive m |
| Rsa.ModInverseCharacterised | src/utils/rsa.ts:84-93 | for a >= 0 and m > 0, modInverse does not throw. It returns a value exactly when a and m are coprime, and that value is the only inverse in [0, m) |
| Rsa.IsPrime | src/utils/rsa.ts:114-128 | the result is true exactly when n is prime. Small values and multiples of 2 and 3 are handled first, then trial division by 6k-1 and 6k+1 |
| Rsa.TrialDivision | src/utils/rsa.ts:121-127 | for n > 3 not divisible by 2 or 3, the 6k +/- 1 loop returns whether n is prime |
| Rsa.PrimeIffNoSmallDivisor | src/utils/rsa.ts:114-128 | n is prime exactly when n >= 2 and no k with 2 <= k and k*k <= n divides n |
| Rsa.FirstCoprime | src/utils/rsa.ts:150-154 | the search from `from` stops at the first d whose gcd with phi is 1, or at phi; every candidate before it has a gcd other than 1 |
| Rsa.SearchCoprime | src/utils/rsa.ts:150-154 | the while loop of generateRSAKeys ends on FirstCoprime(phi, 2) |
| Rsa.Keygen | src/utils/rsa.ts:138-159 | the key numbers exist only for two primes |
| Rsa.KeygenCorrect | src/utils/rsa.ts:133-171 | generation fails (null) exactly when p or q is not prime, or phi <= 2. Otherwise: n = p*q and phi = (p-1)(q-1); d is the least number from 2 coprime to phi and lies below phi; e is in (0, phi) with e*d = 1 modulo phi |
| Rsa.CoprimeBelow | src/utils/rsa.ts:150-154 | for phi >= 3 the search stops below phi, on a d coprime to phi, and no c in [2, d) is coprime to phi |
| Rsa.InverseBelow | src/utils/rsa.ts:156-159 | for that d, modInverse returns an e in (0, phi) with e*d = 1 modulo phi, so the `!e` check passes |
| Rsa.SmallPhiFails | src/utils/rsa.ts:156-159 | for phi of 1 or 2, modInverse of the d found is null or 0, so generation throws and returns null |
| Rsa.GenerateRsaKeys | src/utils/rsa.ts:133-171 | returns null when p or q is not a bigint; otherwise it returns the decimal strings of Keygen(p, q), or null when Keygen fails |
| Rsa.GenerateKeyNumbers | src/utils/rsa.ts:138-159 | the body of the try block returns Keygen(p, q) |
| Rsa.Render | src/utils/rsa.ts:161-166 | a key record is produced exactly when there are key numbers |
| Rsa.RenderParses | src/utils/rsa.ts:161-166 | each of the strings n, d, e and phi reads back as its number |
| Rsa.KeygenExample | src/utils/rsa.ts:133-171 | primes 17 and 11 give n = 187, d = 3, e = 107 and phi = 160 |
| Rsa.ExampleGcds | src/utils/rsa.ts:150-156 | gcd(2, 160) is 2 and extendedGcd(3, 160) is (1, -53, 1), so d = 3 and e = 107 |
| JsString.TrimEmpty | src/hooks/useEncryption.ts:98 | `trim()` gives the empty string exactly when every code unit is white space |
| JsString.TrimSlice | src/hooks/useDecryption.ts:86 | `trim()` keeps a slice s[lo..hi] that neither starts nor ends with white space; only white space lies outside it |
| JsString.PadStartValue | src/utils/rsa.ts:39 | `padStart(width, '0')` is at least `width` long and ends in the string; a digit string stays all digits and keeps its value |
| JsString.LeadingZerosValue | src/utils/rsa.ts:39 | leading zeros do not change the value of a digit string |
| JsString.DecimalValue | src/utils/rsa.ts:39 | the decimal string of a natural number reads back as that number |
| JsString.ParseBigInt | src/utils/rsa.ts:5-7 | a failing conversion is the SyntaxError of the string given |
| JsString.ParseToString | src/utils/rsa.ts:161-166 | `BigInt(x.toString())` is x for every bigint x |
| JsString.ParseDigits | src/utils/rsa.ts:60 | a non-empty string of digits reads as its decimal value |
| JsString.ParsePaddedSlice | src/utils/rsa.ts:57-60 | in a string that is digits between white space, every slice reads as a bigint |
| Codec.BlockSize | src/utils/rsa.ts:33 | the block width is at least 1 and at least the number of digits of abs(n) |
| Codec.ToUint16 | src/utils/rsa.ts:62 | `String.fromCharCode(Number(x))` keeps x modulo 65536, and keeps x itself when it fits in 16 bits |
| Codec.Block | src/utils/rsa.ts:39 | a block is at least `width` characters long |
| Codec.BlockValue | src/utils/rsa.ts:39 | a value with at most `width` digits gives a block of exactly `width` digits that reads back as the value |
| Codec.CipherValuesFit | src/utils/rsa.ts:36-39 | every encrypted value of the text is non-negative and has at most BlockSize(n) digits |
| Codec.BlockFits | src/utils/rsa.ts:38-39 | an encrypted value lies in [0, abs(n)] and has at most BlockSize(n) digits, so padding never truncates |
| Codec.Encrypted | src/utils/rsa.ts:36-43 | the encryption loop fails exactly when n is 0 and the text is not empty, and then with a RangeError |
| Codec.EncryptedLayout | src/utils/rsa.ts:33-43 | the cipher text has BlockSize(n) digits per code unit and is all digits. Block i is BlockSize(n) digits whose value is modPow(text[i], e, n) |
| Codec.EncryptUnits | src/utils/rsa.ts:36-43 | the loop that appends one padded block per code unit computes Encrypted |
| Codec.EncryptTextToNumbers | src/utils/rsa.ts:29-44 | a SyntaxError for e, then for n, propagates; otherwise the result is Encrypted on their values |
| Codec.Cut | src/utils/rsa.ts:56-58 | the slices taken with step blockSize are never empty, so the `continue` is never taken |
| Codec.CutLength | src/utils/rsa.ts:56-57 | there are as many blocks as the cipher length divided by blockSize, rounded up |
| Codec.CutBlockAt | src/utils/rsa.ts:56-57 | block i is the slice from i*blockSize to min((i+1)*blockSize, length); the last block may be short |
| Codec.Decrypted | src/utils/rsa.ts:56-63 | on success the text has one code unit per block |
| Codec.DecryptedChar | src/utils/rsa.ts:60-62 | code unit i is ToUint16(modPow(BigInt(block i), d, n)) |
| Codec.DecryptedSucceeds | src/utils/rsa.ts:56-63 | decryption succeeds exactly when n is not 0 and every block reads as a bigint |
| Codec.DecryptedFailsAt | src/utils/rsa.ts:56-60 | when block i is the first that is not a bigint, decryption fails with that block's SyntaxError |
| Codec.DigitsDecrypt | src/utils/rsa.ts:56-63 | a cipher text of digits always decrypts when n is not 0, whatever its length |
| Codec.PaddedDecrypts | src/utils/rsa.ts:56-63 | a cipher text that is digits between white space always decrypts when n is not 0 |
| Codec.DecryptOutcomeSucceeds | src/utils/rsa.ts:49-63 | decryptNumbersToText returns a text exactly when d and n are bigints and the cipher text is empty, or n is not 0 and every block is a bigint |
| Codec.DecryptBlocks | src/utils/rsa.ts:53-65 | the loop that slices, converts and decrypts block by block computes Decrypted, including the first failure |
| Codec.DecryptNumbersToText | src/utils/rsa.ts:49-66 | the whole function computes DecryptOutcome |
| Codec.CutConcat | src/utils/rsa.ts:40 | cutting concatenated blocks of one width gives back the blocks |
| Codec.RoundTrip | src/utils/rsa.ts:29-66 | when d undoes e on each code unit modulo n, decryption of the encryption gives the text back |
| ExampleKeys.PowerFixes187 | src/hooks/useEncryption.ts:87-88 | c^k = c modulo 187 for every c < 187 whenever k = 1 modulo 80 |
| ExampleKeys.ExampleRoundTrip | src/hooks/useEncryption.ts:87-88 | for a code unit below 187 and e*d = 1 modulo 80, decrypting the encrypted unit gives it back |
| Samples.ParseExampleKeys | src/hooks/useEncryption.ts:87-88 | the strings "23", "187" and "7" read as 23, 187 and 7 |
| Samples.InterfaceKeysRoundTrip | src/hooks/useEncryption.ts:87-88 | under (23, 187) and (7, 187), every text of code units below 187 encrypts and decrypts back to itself |
| Samples.GeneratedKeysRoundTrip | src/utils/rsa.ts:133-171 | the same holds for the keys that 17 and 11 generate, (107, 187) and (3, 187) |
| Samples.HelloRsaRoundTrip | src/hooks/useEncryption.ts:92 | "HELLO RSA" survives the round trip under both key pairs |
| Samples.SampleCipherAsWrittenDecrypts | src/hooks/useDecryption.ts:142 | the example cipher text as written decrypts to the code units 30, 140, 181, 30, 139, not to "HELLO" |
| Samples.SampleCipherDecrypts | src/hooks/useDecryption.ts:142-144 | the cipher text 183137032032173 decrypts to "HELLO" under (7, 187) |
| Samples.ShortCipherDecrypts | src/utils/rsa.ts:56-63 | "12", shorter than one block, is accepted and gives one character |
| UseEncryption.KeyGenerationUnparsable | src/hooks/useEncryption.ts:31-33 | generateKeys reports a conversion error exactly when p or q is not a bigint, naming p's SyntaxError first, then q's |
| UseEncryption.KeyGenerationFrom | src/hooks/useEncryption.ts:35-51 | each of "P not prime", "Q not prime" and "same primes" is reported exactly when it applies, in that order; success implies two distinct primes |
| UseEncryption.TryGenerateKeys | src/hooks/useEncryption.ts:31-62 | the try block of generateKeys computes KeyGeneration |
| UseEncryption.CheckAndGenerate | src/hooks/useEncryption.ts:35-62 | the prime checks, then generateRSAKeys on the original strings, compute KeyGenerationFrom |
| UseEncryption.KeyGenerationSucceeds | src/hooks/useEncryption.ts:28-83 | generation succeeds exactly for two bigints that are distinct primes and not the pair 2 and 3 |
| UseEncryption.GeneratedKeyPair | src/hooks/useEncryption.ts:53-62 | a generated key pair shares n = p*q between its halves. d is the least number from 2 coprime to phi, and e is its inverse in (0, phi) |
| UseEncryption.ExampleGeneration | src/hooks/useEncryption.ts:47 | primes reading as 17 and 11 give n = 187, d = 3 and e = 107 |
| UseEncryption.ExamplePrimeStrings | src/components/KeyGeneration.tsx:94-95 | "17" and "11" read as 17 and 11 |
| UseEncryption.TryEncrypt | src/hooks/useEncryption.ts:98-115 | the checks and the call of encryptText compute Encryption |
| UseEncryption.EncryptionCorrect | src/hooks/useEncryption.ts:97-135 | encryption succeeds exactly for a text that is not blank, under an e and n that are non-empty bigints with n not 0. The result is then Encrypted on their values: BlockSize(n) digits per code unit, non-empty, all digits |
| UseEncryption.EncryptionHook.GenerateKeys | src/hooks/useEncryption.ts:28-83 | returns KeyGeneration; the keys change only on success; the outcome is reported; the texts are kept and isLoading ends false |
| UseEncryption.EncryptionHook.LoadExample | src/hooks/useEncryption.ts:85-95 | keys (23, 187) and (7, 187), text "HELLO RSA", cipher text cleared, example reported |
| UseEncryption.EncryptionHook.EncryptText | src/hooks/useEncryption.ts:97-135 | returns Encryption for the current keys. A blank text or a missing key changes nothing; success stores the cipher text; a throw is reported. The keys and the text are kept, and isLoading ends false |
| UseEncryption.EncryptionHook.ClearAll | src/hooks/useEncryption.ts:137-141 | both texts emptied and "cleared" reported; the keys are kept |
| UseEncryption.EncryptionHook.UpdateKeys | src/hooks/useEncryption.ts:143-146 | the keys are replaced without any check, and the manual update is reported |
| UseDecryption.ValidateKeysCases | src/hooks/useDecryption.ts:27-63 | validation succeeds exactly for a private key whose d and n are non-empty bigints with 0 < d < n. Each error (missing, not numbers, not positive, d not below n) is reported exactly when it applies, in the source's order |
| UseDecryption.TryDecrypt | src/hooks/useDecryption.ts:79-108 | the checks and the call of decryptText compute Decryption |
| UseDecryption.DecryptionCorrect | src/hooks/useDecryption.ts:78-129 | decryption succeeds exactly when the trimmed text is non-empty and all digits and the key validates; after those checks it never throws. The result is Decrypted of the untrimmed text, one code unit per block |
| UseDecryption.ExampleRoundTrip | src/hooks/useDecryption.ts:131-139 | a non-blank text below 187 unit by unit, encrypted on one screen with the example public key, decrypts on the other with the example private key back to itself |
| UseDecryption.ExampleKeyPairNumbers | src/hooks/useDecryption.ts:132-135 | the loaded example strings read as (23, 187) and (7, 187) |
| UseDecryption.ExampleCipherAsWrittenDecryption | src/hooks/useDecryption.ts:141-144 | the example cipher text as loaded decrypts under keys reading as the example pair, to 30, 140, 181, 30, 139 and not to "HELLO" |
| UseDecryption.ExampleCipherDecryption | src/hooks/useDecryption.ts:141-144 | the corrected example cipher text (see Findings) decrypts to "HELLO" under keys reading as the example pair |
| UseDecryption.DecryptionHook.UpdateKeys | src/hooks/useDecryption.ts:65-76 | returns ValidateKeys; the keys are replaced only when validation succeeds; the outcome is reported; the texts and isLoading are kept |
| UseDecryption.DecryptionHook.DecryptText | src/hooks/useDecryption.ts:78-129 | returns Decryption for the current keys. The three early refusals change nothing; success stores the plain text; a throw is reported. The keys and the cipher field are kept, and isLoading ends false |
| UseDecryption.DecryptionHook.LoadExampleKeys | src/hooks/useDecryption.ts:131-139 | keys (23, 187) and (7, 187) set and reported; the texts are kept |
| UseDecryption.DecryptionHook.LoadExampleCipherText | src/hooks/useDecryption.ts:141-145 | the cipher text field holds the example cipher text as written, which `ExampleCipherAsWrittenDecryption` shows does not decrypt to "HELLO"; the load is reported and the rest is kept |
| UseDecryption.DecryptionHook.ClearAll | src/hooks/useDecryption.ts:147-151 | both texts emptied and "cleared" reported; the keys are kept |

## Left out

- `copyToClipboard` in `useDecryption.ts`: browser clipboard I/O.
- The `setPlainText` and `setEncryptedText` setters, the hooks' return objects and every page and component: presentation, not logic.
- Messages: `lastOperation` and the errors are datatypes with one constructor per message, not the Portuguese strings. `console.error` in generateRSAKeys is left out.
- Asynchrony and React batching. A callback's `setIsLoading(true)` is never observable, because no callback awaits; only the final `isLoading = false` is modelled. `useCallback` memoisation and stale closures are not modelled: each method reads the current keys.
- `BigInt(string)`: hexadecimal, octal and binary prefixes (`0x`, `0o`, `0b`), which the model treats as a SyntaxError. `BigInt` on a number or a bigint is the identity in the model, since every caller here passes integers.
- `Number(decryptedChar)`: double precision is not modelled. The value goes straight to the 16-bit conversion of `fromCharCode`, which agrees with the source for every value below 2^53.
- Strings are UTF-16 code units. A plain text code unit of at least n does not survive the round trip, which is a limitation of the scheme. The round-trip lemmas therefore require code units below 187.
- RSA correctness for a general n: it is proved for n = 187 (both example key pairs), and in general for every key pair that undoes itself on each code unit (`Codec.RoundTrip`). Euler's theorem for general n is not part of this model.
- JsString.ParseBigInt: its own contract names only the exception. What it computes is stated by the lemmas beside it (`ParseToString`, `ParseDigits`, `ParsePaddedSlice`).
- Codec.Decrypted: its own contract states only the length. The value of each character is stated by `DecryptedChar`, when it succeeds by `DecryptedSucceeds`, and the error by `DecryptedFailsAt`.
- Rsa.Keygen: its own contract states only that p and q are prime. The rest is in `KeygenCorrect`.

## Findings

| source | as written | input that shows it | evidently intended | confidence | as-written member | corrected member |
|---|---|---|---|---|---|---|
| src/hooks/useDecryption.ts:142 | the example cipher text 072149037072079, reported as "HELLO", is loaded | decrypting it with d = 7, n = 187 gives the code units 30, 140, 181, 30, 139 | a cipher text that decrypts to "HELLO" under the example keys, 183137032032173 | not executed | Samples.SampleCipherAsWrittenDecrypts | Samples.SampleCipherDecrypts |
