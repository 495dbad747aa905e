/** The state of the encryption screen (the useEncryption hook): the current
    keys, the text typed in, the last cipher text, a loading flag and a
    report of the last operation. Each hook callback is a method of
    `EncryptionHook`; what a callback returns is given by a function of its
    inputs and the state it reads. */
module UseEncryption {
  import opened Wrappers
  import opened BigInt
  import opened JsString
  import opened Divisibility
  import opened Rsa
  import opened Codec
  import opened Types
  import opened Samples

  /** Why key generation failed: each is an Error thrown and caught inside
      `generateKeys`. */
  datatype KeyGenError =
    | Unparsable(error: JsError)  // `BigInt(p)` or `BigInt(q)` threw
    | PNotPrime(p: Str)
    | QNotPrime(q: Str)
    | SamePrimes
    | GenerationFailed            // `generateRSAKeys` returned null

  /** Why encryption failed. */
  datatype EncryptError =
    | BlankText
    | MissingKeys
    | Thrown(error: JsError)      // `encryptTextToNumbers` threw

  /** The report kept in `lastOperation`, one constructor per message. */
  datatype Operation =
    | NoOperation
    | KeysGenerated(p: Str, q: Str)
    | GenerationError(reason: KeyGenError)
    | ExampleLoaded
    | TextEncrypted(text: Str)
    | EncryptionError(error: JsError)
    | DataCleared
    | KeysUpdatedManually

  /** The key record built from what `generateRSAKeys` returns. */
  function KeysFrom(g: GeneratedKeys): RsaKeys
  {
    RsaKeys(PublicKey(g.e, g.n), PrivateKey(g.d, g.n))
  }

  /** What `generateKeys(primes)` returns. */
  function KeyGeneration(primes: PrimeNumbers): (r: Result<RsaKeys, KeyGenError>)
    ensures ParseBigInt(primes.p).Failure? ==> r == Failure(Unparsable(SyntaxError(primes.p)))
    ensures ParseBigInt(primes.p).Success? && ParseBigInt(primes.q).Failure? ==>
              r == Failure(Unparsable(SyntaxError(primes.q)))
  {
    var p, q := ParseBigInt(primes.p), ParseBigInt(primes.q);
    if p.Failure? then Failure(Unparsable(p.error))
    else if q.Failure? then Failure(Unparsable(q.error))
    else KeyGenerationFrom(primes, p.value, q.value)
  }

  /** generateKeys reports a parse error exactly when one of the two prime
      strings is not a bigint, and then it names the first such string. */
  lemma KeyGenerationUnparsable(primes: PrimeNumbers)
    ensures KeyGeneration(primes).Failure? && KeyGeneration(primes).error.Unparsable? <==>
              ParseBigInt(primes.p).Failure? || ParseBigInt(primes.q).Failure?
    ensures ParseBigInt(primes.p).Failure? ==>
              KeyGeneration(primes) == Failure(Unparsable(SyntaxError(primes.p)))
    ensures ParseBigInt(primes.p).Success? && ParseBigInt(primes.q).Failure? ==>
              KeyGeneration(primes) == Failure(Unparsable(SyntaxError(primes.q)))
  {
  }

  /** The part of `generateKeys` after both primes are bigints. */
  function KeyGenerationFrom(primes: PrimeNumbers, p: int, q: int): (r: Result<RsaKeys, KeyGenError>)
    ensures r.Success? ==> Prime(p) && Prime(q) && p != q
    ensures r.Failure? ==> !r.error.Unparsable?
    ensures r == Failure(PNotPrime(primes.p)) <==> !Prime(p)
    ensures r == Failure(QNotPrime(primes.q)) <==> Prime(p) && !Prime(q)
    ensures r == Failure(SamePrimes) <==> Prime(p) && Prime(q) && p == q
  {
    if !Prime(p) then Failure(PNotPrime(primes.p))
    else if !Prime(q) then Failure(QNotPrime(primes.q))
    else if p == q then Failure(SamePrimes)
    else
      match Render(Keygen(p, q))
      case None => Failure(GenerationFailed)
      case Some(g) => Success(KeysFrom(g))
  }

  /** The try block of `generateKeys`: converting both primes, checking them
      and calling `generateRSAKeys`; every throw becomes a failure. */
  method TryGenerateKeys(primes: PrimeNumbers) returns (r: Result<RsaKeys, KeyGenError>)
    ensures r == KeyGeneration(primes)
  {
    var pParsed := ParseBigInt(primes.p);
    var qParsed := ParseBigInt(primes.q);
    if pParsed.Failure? {
      return Failure(Unparsable(pParsed.error));
    }
    if qParsed.Failure? {
      return Failure(Unparsable(qParsed.error));
    }
    r := CheckAndGenerate(primes, pParsed.value, qParsed.value);
  }

  /** The prime checks of `generateKeys`, then `generateRSAKeys` on the
      original strings. */
  method CheckAndGenerate(primes: PrimeNumbers, p: int, q: int) returns (r: Result<RsaKeys, KeyGenError>)
    requires ParseBigInt(primes.p) == Success(p) && ParseBigInt(primes.q) == Success(q)
    ensures r == KeyGenerationFrom(primes, p, q)
  {
    var pPrime := IsPrime(p);
    if !pPrime {
      return Failure(PNotPrime(primes.p));
    }
    var qPrime := IsPrime(q);
    if !qPrime {
      return Failure(QNotPrime(primes.q));
    }
    if p == q {
      return Failure(SamePrimes);
    }
    var generated := GenerateRsaKeys(primes.p, primes.q);
    if generated.None? {
      return Failure(GenerationFailed);
    }
    return Success(KeysFrom(generated.value));
  }

  /** Key generation succeeds exactly for two distinct primes other than the
      pair 2 and 3, whose phi of 2 leaves no d to pick. */
  lemma KeyGenerationSucceeds(primes: PrimeNumbers)
    ensures KeyGeneration(primes).Success? <==>
              && ParseBigInt(primes.p).Success? && ParseBigInt(primes.q).Success?
              && Prime(ParseBigInt(primes.p).value) && Prime(ParseBigInt(primes.q).value)
              && ParseBigInt(primes.p).value != ParseBigInt(primes.q).value
              && !(ParseBigInt(primes.p).value == 2 && ParseBigInt(primes.q).value == 3)
              && !(ParseBigInt(primes.p).value == 3 && ParseBigInt(primes.q).value == 2)
  {
    var p, q := ParseBigInt(primes.p), ParseBigInt(primes.q);
    if p.Success? && q.Success? {
      KeyGenerationFromSucceeds(primes, p.value, q.value);
    }
  }

  lemma KeyGenerationFromSucceeds(primes: PrimeNumbers, p: int, q: int)
    ensures KeyGenerationFrom(primes, p, q).Success? <==>
              Prime(p) && Prime(q) && p != q && !(p == 2 && q == 3) && !(p == 3 && q == 2)
  {
    if Prime(p) && Prime(q) && p != q {
      KeygenCorrect(p, q);
      SmallPhi(p, q);
    }
  }

  /** For distinct primes, phi is at most 2 only for 2 and 3. */
  lemma SmallPhi(p: int, q: int)
    requires Prime(p) && Prime(q) && p != q
    ensures (p - 1) * (q - 1) <= 2 <==> (p == 2 && q == 3) || (p == 3 && q == 2)
  {
    if p >= 4 {
      MulMonotone(3, p - 1, q - 1);
    } else if q >= 4 {
      MulMonotone(3, q - 1, p - 1);
      assert (q - 1) * (p - 1) == (p - 1) * (q - 1);
    }
  }

  /** A successful key generation gives a consistent key pair: both halves
      share n = p * q, d is the least number from 2 up coprime to
      phi = (p - 1) * (q - 1), and e is the inverse of d modulo phi. */
  lemma GeneratedKeyPair(primes: PrimeNumbers)
    requires KeyGeneration(primes).Success?
    ensures var k := KeyGeneration(primes).value;
            var p, q := ParseBigInt(primes.p).value, ParseBigInt(primes.q).value;
            && k.publicKey.n == k.privateKey.n
            && ParseBigInt(k.publicKey.n) == Success(p * q)
            && ParseBigInt(k.privateKey.d).Success? && ParseBigInt(k.publicKey.e).Success?
            && ValidExponents(p, q, ParseBigInt(k.privateKey.d).value, ParseBigInt(k.publicKey.e).value)
  {
    var p, q := ParseBigInt(primes.p).value, ParseBigInt(primes.q).value;
    var kn := GeneratedNumbers(primes, p, q);
    RenderParses(kn);
  }

  /** d is the least number from 2 up coprime to phi = (p - 1) * (q - 1),
      and e is the inverse of d modulo phi. */
  ghost predicate ValidExponents(p: int, q: int, d: int, e: int)
  {
    var phi := (p - 1) * (q - 1);
    && 2 <= d < phi && Coprime(d, phi)
    && (forall c | 2 <= c < d :: !Coprime(c, phi))
    && 0 < e < phi && (e * d) % phi == 1
  }

  /** The key numbers behind a successful generation from p and q. */
  lemma GeneratedNumbers(primes: PrimeNumbers, p: int, q: int) returns (kn: KeyNumbers)
    requires KeyGenerationFrom(primes, p, q).Success?
    ensures KeyGenerationFrom(primes, p, q).value == KeysFrom(Render(Some(kn)).value)
    ensures kn.n == p * q && ValidExponents(p, q, kn.d, kn.e)
  {
    KeygenCorrect(p, q);
    kn := Keygen(p, q).value;
  }

  /** The example primes 17 and 11 give n = 187, d = 3 and e = 107, not the
      example key pair (23, 7) that `loadExample` sets. */
  lemma ExampleGeneration(primes: PrimeNumbers)
    requires ParseBigInt(primes.p) == Success(17) && ParseBigInt(primes.q) == Success(11)
    ensures KeyGeneration(primes).Success?
    ensures var k := KeyGeneration(primes).value;
            && ParseBigInt(k.publicKey.n) == Success(187)
            && ParseBigInt(k.privateKey.d) == Success(3)
            && ParseBigInt(k.publicKey.e) == Success(107)
  {
    var kn := ExampleNumbers(primes);
    RenderParses(kn);
  }

  /** "17" and "11", the example primes of the key generation screen. */
  const ExampleP: Str := [49, 55]
  const ExampleQ: Str := [49, 49]

  /** The example prime strings read as 17 and 11. */
  lemma ExamplePrimeStrings(p: Str, q: Str)
    requires p == ExampleP && q == ExampleQ
    ensures ParseBigInt(p) == Success(17) && ParseBigInt(q) == Success(11)
  {
    ParseExampleP(p);
    ParseExampleQ(q);
  }

  lemma ParseExampleP(p: Str)
    requires p == ExampleP
    ensures ParseBigInt(p) == Success(17)
  {
    ParseShortDigits(p, 17);
  }

  lemma ParseExampleQ(q: Str)
    requires q == ExampleQ
    ensures ParseBigInt(q) == Success(11)
  {
    ParseShortDigits(q, 11);
  }

  lemma ExampleNumbers(primes: PrimeNumbers) returns (kn: KeyNumbers)
    requires ParseBigInt(primes.p) == Success(17) && ParseBigInt(primes.q) == Success(11)
    ensures KeyGeneration(primes) == Success(KeysFrom(Render(Some(kn)).value))
    ensures kn == KeyNumbers(187, 3, 107, 160)
  {
    KeygenExample();
    ExamplePrimes();
    kn := KeyNumbers(187, 3, 107, 160);
  }

  /** What `encryptText(text)` returns for the current keys. */
  function Encryption(text: Str, keys: RsaKeys): Result<Str, EncryptError>
  {
    if Trim(text) == [] then Failure(BlankText)
    else if keys.publicKey.e == [] || keys.publicKey.n == [] then Failure(MissingKeys)
    else
      match EncryptOutcome(text, keys.publicKey.e, keys.publicKey.n)
      case Failure(err) => Failure(Thrown(err))
      case Success(cipher) => Success(cipher)
  }

  /** The body of `encryptText` without its state updates: the checks on the
      text and the public key, then `encryptTextToNumbers`. Both checks and
      the encryption are pure, so the hook can decide on the outcome before
      it raises the loading flag. */
  method TryEncrypt(text: Str, keys: RsaKeys) returns (r: Result<Str, EncryptError>)
    ensures r == Encryption(text, keys)
  {
    if Trim(text) == [] {
      return Failure(BlankText);
    }
    if keys.publicKey.e == [] || keys.publicKey.n == [] {
      return Failure(MissingKeys);
    }
    var encrypted := EncryptTextToNumbers(text, keys.publicKey.e, keys.publicKey.n);
    if encrypted.Success? {
      return Success(encrypted.value);
    }
    return Failure(Thrown(encrypted.error));
  }

  /** Encryption succeeds exactly for a text that is not blank under keys
      whose e and n are integers with n not 0; the cipher text is then the
      digit string of `encryptTextToNumbers`, one block of BlockSize(n)
      digits per code unit. */
  lemma EncryptionCorrect(text: Str, keys: RsaKeys)
    ensures Encryption(text, keys).Success? <==>
              && Trim(text) != [] && keys.publicKey.e != [] && keys.publicKey.n != []
              && ParseBigInt(keys.publicKey.e).Success? && ParseBigInt(keys.publicKey.n).Success?
              && ParseBigInt(keys.publicKey.n).value != 0
    ensures Encryption(text, keys).Success? ==>
              var e, n := ParseBigInt(keys.publicKey.e).value, ParseBigInt(keys.publicKey.n).value;
              && Encrypted(text, e, n) == Success(Encryption(text, keys).value)
              && |Encryption(text, keys).value| == BlockSize(n) * |text|
              && Encryption(text, keys).value != []
              && AllDigits(Encryption(text, keys).value)
  {
    var r := Encryption(text, keys);
    if Trim(text) != [] {
      assert text != [];
    }
    if r.Success? {
      var e, n := ParseBigInt(keys.publicKey.e).value, ParseBigInt(keys.publicKey.n).value;
      EncryptedLayout(text, e, n, 0);
      MulAtLeast(|text|, BlockSize(n));
      assert |text| * BlockSize(n) == BlockSize(n) * |text|;
    }
  }

  class EncryptionHook {
    var keys: RsaKeys
    var plainText: Str
    var encryptedText: Str
    var isLoading: bool
    var lastOperation: Operation

    /** The initial state: no keys, no text, nothing reported. */
    constructor()
      ensures keys == NoKeys && plainText == [] && encryptedText == []
      ensures !isLoading && lastOperation == NoOperation
    {
      keys := NoKeys;
      plainText := [];
      encryptedText := [];
      isLoading := false;
      lastOperation := NoOperation;
    }

    /** `generateKeys(primes)`: the checks of both primes, then
        `generateRSAKeys`; the keys change only on success, and the loading
        flag is cleared whatever happens. */
    method GenerateKeys(primes: PrimeNumbers) returns (r: Result<RsaKeys, KeyGenError>)
      modifies this
      ensures r == KeyGeneration(primes)
      ensures keys == if r.Success? then r.value else old(keys)
      ensures lastOperation == if r.Success? then KeysGenerated(primes.p, primes.q) else GenerationError(r.error)
      ensures plainText == old(plainText) && encryptedText == old(encryptedText) && !isLoading
    {
      r := TryGenerateKeys(primes);
      RecordGeneration(primes, r);
    }

    /** The state updates at the end of `generateKeys`. The callback never
        awaits, so React applies them together with the loading flag raised
        at its start: that flag is seen cleared. */
    method RecordGeneration(primes: PrimeNumbers, r: Result<RsaKeys, KeyGenError>)
      modifies this
      ensures keys == if r.Success? then r.value else old(keys)
      ensures lastOperation == if r.Success? then KeysGenerated(primes.p, primes.q) else GenerationError(r.error)
      ensures plainText == old(plainText) && encryptedText == old(encryptedText) && !isLoading
    {
      if r.Success? {
        keys, lastOperation, isLoading := r.value, KeysGenerated(primes.p, primes.q), false;
      } else {
        lastOperation, isLoading := GenerationError(r.error), false;
      }
    }

    /** `loadExample()`: the example key pair and text, and no cipher text. */
    method LoadExample()
      modifies this
      ensures keys == ExampleKeyPair && plainText == HelloRsa && encryptedText == []
      ensures lastOperation == ExampleLoaded && isLoading == old(isLoading)
    {
      keys := ExampleKeyPair;
      plainText := HelloRsa;
      encryptedText := [];
      lastOperation := ExampleLoaded;
    }

    /** `encryptText(text)`: a blank text or missing public key is refused
        before any state changes; otherwise the cipher text is stored on
        success, the error reported on failure, and the loading flag
        cleared. */
    method EncryptText(text: Str) returns (r: Result<Str, EncryptError>)
      modifies this
      ensures r == Encryption(text, old(keys))
      ensures keys == old(keys) && plainText == old(plainText)
      ensures r == Failure(BlankText) || r == Failure(MissingKeys) ==>
                encryptedText == old(encryptedText) && lastOperation == old(lastOperation) && isLoading == old(isLoading)
      ensures r.Success? ==> encryptedText == r.value && lastOperation == TextEncrypted(text) && !isLoading
      ensures r.Failure? && r.error.Thrown? ==>
                encryptedText == old(encryptedText) && lastOperation == EncryptionError(r.error.error) && !isLoading
    {
      r := TryEncrypt(text, keys);
      if r == Failure(BlankText) || r == Failure(MissingKeys) {
        return;
      }
      RecordEncryption(text, r);
    }

    /** The state updates at the end of `encryptText`, applied together as in
        RecordGeneration. */
    method RecordEncryption(text: Str, r: Result<Str, EncryptError>)
      requires r.Success? || r.error.Thrown?
      modifies this
      ensures keys == old(keys) && plainText == old(plainText) && !isLoading
      ensures r.Success? ==> encryptedText == r.value && lastOperation == TextEncrypted(text)
      ensures r.Failure? ==> encryptedText == old(encryptedText) && lastOperation == EncryptionError(r.error.error)
    {
      if r.Success? {
        encryptedText, lastOperation, isLoading := r.value, TextEncrypted(text), false;
      } else {
        lastOperation, isLoading := EncryptionError(r.error.error), false;
      }
    }

    /** `clearAll()`: both texts emptied; the keys stay. */
    method ClearAll()
      modifies this
      ensures plainText == [] && encryptedText == [] && lastOperation == DataCleared
      ensures keys == old(keys) && isLoading == old(isLoading)
    {
      plainText := [];
      encryptedText := [];
      lastOperation := DataCleared;
    }

    /** `updateKeys(newKeys)`: the keys are replaced without any check. */
    method UpdateKeys(newKeys: RsaKeys)
      modifies this
      ensures keys == newKeys && lastOperation == KeysUpdatedManually
      ensures plainText == old(plainText) && encryptedText == old(encryptedText) && isLoading == old(isLoading)
    {
      keys := newKeys;
      lastOperation := KeysUpdatedManually;
    }
  }
}
