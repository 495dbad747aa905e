/** The state of the decryption screen (the useDecryption hook): the keys in
    use, the cipher text shown, the last plain text, a loading flag and a
    report of the last operation. As in UseEncryption, each callback is a
    method of `DecryptionHook`, and what it returns is a function of its
    inputs and of the state it reads. */
module UseDecryption {
  import opened Wrappers
  import opened BigInt
  import opened JsString
  import opened Codec
  import opened Types
  import opened Samples
  import UseEncryption

  /** Why `validateKeys` refused a key pair. */
  datatype KeyError =
    | MissingKey   // d or n is the empty string
    | NotPositive  // d or n is not above 0
    | DNotBelowN   // d is not below n
    | NotNumbers   // `BigInt(d)` or `BigInt(n)` threw

  /** Why `decryptText` failed. */
  datatype DecryptError =
    | BlankCipher
    | NotDigits
    | InvalidKeys(reason: KeyError)
    | Thrown(error: JsError)       // `decryptNumbersToText` threw

  /** The report kept in `lastOperation`, one constructor per message. */
  datatype Operation =
    | NoOperation
    | KeysValidated
    | ValidationError(reason: KeyError)
    | TextDecrypted(text: Str)
    | DecryptionError(error: JsError)
    | ExampleKeysLoaded
    | ExampleCipherLoaded
    | DataCleared

  /** `validateKeys(keys)`: only the private key is looked at. */
  function ValidateKeys(keys: RsaKeys): Result<(), KeyError>
  {
    var d, n := keys.privateKey.d, keys.privateKey.n;
    if d == [] || n == [] then Failure(MissingKey)
    else
      match ParseBigInt(d)
      case Failure(_) => Failure(NotNumbers)
      case Success(dBig) =>
        match ParseBigInt(n)
        case Failure(_) => Failure(NotNumbers)
        case Success(nBig) =>
          if dBig <= 0 || nBig <= 0 then Failure(NotPositive)
          else if dBig >= nBig then Failure(DNotBelowN)
          else Success(())
  }

  /** A private key that `validateKeys` accepts: both strings non-empty,
      both bigints, and 0 < d < n. */
  predicate UsableKey(key: PrivateKey)
  {
    && key.d != [] && key.n != []
    && ParseBigInt(key.d).Success? && ParseBigInt(key.n).Success?
    && 0 < ParseBigInt(key.d).value < ParseBigInt(key.n).value
  }

  /** Each way `validateKeys` can answer, and exactly when. */
  lemma ValidateKeysCases(keys: RsaKeys)
    ensures ValidateKeys(keys).Success? <==> UsableKey(keys.privateKey)
    ensures ValidateKeys(keys) == Failure(MissingKey) <==> keys.privateKey.d == [] || keys.privateKey.n == []
    ensures ValidateKeys(keys) == Failure(NotNumbers) <==>
              && keys.privateKey.d != [] && keys.privateKey.n != []
              && (ParseBigInt(keys.privateKey.d).Failure? || ParseBigInt(keys.privateKey.n).Failure?)
    ensures ValidateKeys(keys) == Failure(NotPositive) <==>
              && keys.privateKey.d != [] && keys.privateKey.n != []
              && ParseBigInt(keys.privateKey.d).Success? && ParseBigInt(keys.privateKey.n).Success?
              && (ParseBigInt(keys.privateKey.d).value <= 0 || ParseBigInt(keys.privateKey.n).value <= 0)
    ensures ValidateKeys(keys) == Failure(DNotBelowN) <==>
              && keys.privateKey.d != [] && keys.privateKey.n != []
              && ParseBigInt(keys.privateKey.d).Success? && ParseBigInt(keys.privateKey.n).Success?
              && 0 < ParseBigInt(keys.privateKey.n).value <= ParseBigInt(keys.privateKey.d).value
  {
  }

  /** What `decryptText(cipher)` returns for the current keys. The checks
      look at the trimmed text, but the untrimmed text is what gets
      decrypted. */
  function Decryption(cipher: Str, keys: RsaKeys): Result<Str, DecryptError>
  {
    if Trim(cipher) == [] then Failure(BlankCipher)
    else if !AllDigits(Trim(cipher)) then Failure(NotDigits)
    else
      match ValidateKeys(keys)
      case Failure(reason) => Failure(InvalidKeys(reason))
      case Success(_) =>
        match DecryptOutcome(cipher, keys.privateKey.d, keys.privateKey.n)
        case Failure(err) => Failure(Thrown(err))
        case Success(text) => Success(text)
  }

  /** The body of `decryptText` without its state updates: the checks on the
      text and the keys, then `decryptNumbersToText`. */
  method TryDecrypt(cipher: Str, keys: RsaKeys) returns (r: Result<Str, DecryptError>)
    ensures r == Decryption(cipher, keys)
  {
    var trimmed := Trim(cipher);
    if trimmed == [] {
      return Failure(BlankCipher);
    }
    if !AllDigits(trimmed) {
      return Failure(NotDigits);
    }
    var validation := ValidateKeys(keys);
    if validation.Failure? {
      return Failure(InvalidKeys(validation.error));
    }
    var decrypted := DecryptNumbersToText(cipher, keys.privateKey.d, keys.privateKey.n);
    if decrypted.Success? {
      return Success(decrypted.value);
    }
    return Failure(Thrown(decrypted.error));
  }

  /** Once the text and the keys pass the checks, decryption cannot throw:
      it succeeds exactly then, with the text `decryptNumbersToText` gives
      on d and n, one code unit per block of BlockSize(n) characters of the
      untrimmed text (CutLength counts the blocks). */
  lemma DecryptionCorrect(cipher: Str, keys: RsaKeys)
    ensures Decryption(cipher, keys).Success? <==>
              Trim(cipher) != [] && AllDigits(Trim(cipher)) && UsableKey(keys.privateKey)
    ensures Decryption(cipher, keys).Failure? ==> !Decryption(cipher, keys).error.Thrown?
    ensures Decryption(cipher, keys).Success? ==>
              var d, n := ParseBigInt(keys.privateKey.d).value, ParseBigInt(keys.privateKey.n).value;
              && Decrypted(cipher, d, n) == Success(Decryption(cipher, keys).value)
              && |Decryption(cipher, keys).value| == |Cut(cipher, BlockSize(n))|
  {
    if Trim(cipher) != [] && AllDigits(Trim(cipher)) && UsableKey(keys.privateKey) {
      var d, n := ParseBigInt(keys.privateKey.d).value, ParseBigInt(keys.privateKey.n).value;
      DecryptionSucceeds(cipher, keys, d, n);
    } else {
      DecryptionRefuses(cipher, keys);
    }
  }

  lemma DecryptionSucceeds(cipher: Str, keys: RsaKeys, d: int, n: int)
    requires Trim(cipher) != [] && AllDigits(Trim(cipher)) && UsableKey(keys.privateKey)
    requires d == ParseBigInt(keys.privateKey.d).value && n == ParseBigInt(keys.privateKey.n).value
    ensures Decrypted(cipher, d, n).Success?
    ensures Decryption(cipher, keys) == Success(Decrypted(cipher, d, n).value)
  {
    KeyAccepted(keys);
    PaddedDecrypts(cipher, d, n);
  }

  lemma KeyAccepted(keys: RsaKeys)
    requires UsableKey(keys.privateKey)
    ensures ValidateKeys(keys) == Success(())
  {
  }

  lemma DecryptionRefuses(cipher: Str, keys: RsaKeys)
    requires !(Trim(cipher) != [] && AllDigits(Trim(cipher)) && UsableKey(keys.privateKey))
    ensures Decryption(cipher, keys).Failure? && !Decryption(cipher, keys).error.Thrown?
  {
    if Trim(cipher) != [] && AllDigits(Trim(cipher)) {
      ValidateKeysCases(keys);
    }
  }

  /** Keys whose strings read as the example pair (23, 187) and (7, 187):
      they pass validation. */
  predicate ExampleNumbers(keys: RsaKeys)
  {
    && ParseBigInt(keys.publicKey.e) == Success(23) && ParseBigInt(keys.publicKey.n) == Success(187)
    && ParseBigInt(keys.privateKey.d) == Success(7) && ParseBigInt(keys.privateKey.n) == Success(187)
  }

  /** The loaded example key pair reads as (23, 187) and (7, 187). */
  lemma ExampleKeyPairNumbers(keys: RsaKeys)
    requires keys == ExampleKeyPair
    ensures ExampleNumbers(keys)
  {
    ParseExampleKeys(keys.publicKey.e, keys.publicKey.n, keys.privateKey.d);
  }

  /** A cipher text of digits that `decryptNumbersToText` turns into plain
      is what `decryptText` gives under the example keys. */
  lemma ExampleDecryption(cipher: Str, keys: RsaKeys, plain: Str)
    requires ExampleNumbers(keys) && cipher != [] && AllDigits(cipher)
    requires Decrypted(cipher, 7, 187) == Success(plain)
    ensures Decryption(cipher, keys) == Success(plain)
  {
    EmptyParsesToZero(keys.privateKey.d);
    EmptyParsesToZero(keys.privateKey.n);
    assert !IsWhiteSpace(cipher[0]) && !IsWhiteSpace(cipher[|cipher| - 1]);
    TrimNoWhiteSpace(cipher);
  }

  /** `BigInt("")` is 0, so a string read as a non-zero number is not empty. */
  lemma EmptyParsesToZero(s: Str)
    requires ParseBigInt(s).Success? && ParseBigInt(s).value != 0
    ensures s != []
  {
  }

  /** Across the two screens: a non-blank text below 187 code unit by code
      unit, encrypted with the example public key and decrypted with the
      example private key, comes back unchanged. */
  lemma ExampleRoundTrip(text: Str, keys: RsaKeys)
    requires ExampleNumbers(keys) && Trim(text) != []
    requires forall i | 0 <= i < |text| :: text[i] < 187
    ensures UseEncryption.Encryption(text, keys).Success?
    ensures Decryption(UseEncryption.Encryption(text, keys).value, keys) == Success(text)
  {
    EmptyParsesToZero(keys.publicKey.e);
    EmptyParsesToZero(keys.publicKey.n);
    UseEncryption.EncryptionCorrect(text, keys);
    BlockSizeOfExample();
    InterfaceKeysRoundTrip(text);
    ExampleDecryption(UseEncryption.Encryption(text, keys).value, keys, text);
  }

  /** The example cipher text `loadExampleCipherText` loads decrypts under
      the example keys, but to the code units 30, 140, 181, 30, 139 and not
      to "HELLO". */
  lemma ExampleCipherAsWrittenDecryption(cipher: Str, keys: RsaKeys)
    requires cipher == SampleCipherAsWritten && ExampleNumbers(keys)
    ensures Decryption(cipher, keys) == Success([30, 140, 181, 30, 139])
    ensures Decryption(cipher, keys) != Success(Hello)
  {
    SampleCipherAsWrittenDecrypts(cipher);
    AsWrittenDigits(cipher, [72, 149, 37, 72, 79]);
    ExampleDecryption(cipher, keys, [30, 140, 181, 30, 139]);
  }

  /** The example cipher text `loadExampleCipherText` is meant to load
      decrypts to "HELLO" under the example keys. */
  lemma ExampleCipherDecryption(cipher: Str, keys: RsaKeys)
    requires cipher == SampleCipher && ExampleNumbers(keys)
    ensures Decryption(cipher, keys) == Success(Hello)
  {
    SampleCipherDecrypts(cipher);
    HelloDigits(cipher, [183, 137, 32, 32, 173]);
    ExampleDecryption(cipher, keys, Hello);
  }

  class DecryptionHook {
    var keys: RsaKeys
    var encryptedText: Str
    var decryptedText: Str
    var isLoading: bool
    var lastOperation: Operation

    /** The initial state: no keys, no text, nothing reported. */
    constructor()
      ensures keys == NoKeys && encryptedText == [] && decryptedText == []
      ensures !isLoading && lastOperation == NoOperation
    {
      keys := NoKeys;
      encryptedText := [];
      decryptedText := [];
      isLoading := false;
      lastOperation := NoOperation;
    }

    /** `updateKeys(newKeys)`: the keys are replaced only when they pass
        validation; the outcome is reported either way. */
    method UpdateKeys(newKeys: RsaKeys) returns (r: Result<(), KeyError>)
      modifies this
      ensures r == ValidateKeys(newKeys)
      ensures keys == if r.Success? then newKeys else old(keys)
      ensures lastOperation == if r.Success? then KeysValidated else ValidationError(r.error)
      ensures encryptedText == old(encryptedText) && decryptedText == old(decryptedText)
      ensures isLoading == old(isLoading)
    {
      r := ValidateKeys(newKeys);
      RecordValidation(newKeys, r);
    }

    /** The state updates of `updateKeys`. */
    method RecordValidation(newKeys: RsaKeys, r: Result<(), KeyError>)
      modifies this
      ensures keys == if r.Success? then newKeys else old(keys)
      ensures lastOperation == if r.Success? then KeysValidated else ValidationError(r.error)
      ensures encryptedText == old(encryptedText) && decryptedText == old(decryptedText)
      ensures isLoading == old(isLoading)
    {
      if r.Success? {
        keys, lastOperation := newKeys, KeysValidated;
      } else {
        lastOperation := ValidationError(r.error);
      }
    }

    /** `decryptText(cipher)`: a blank or non-numeric text and invalid keys
        are refused before any state changes; otherwise the plain text is
        stored on success, the error reported on failure, and the loading
        flag cleared. The cipher text field itself is left alone. */
    method DecryptText(cipher: Str) returns (r: Result<Str, DecryptError>)
      modifies this
      ensures r == Decryption(cipher, old(keys))
      ensures keys == old(keys) && encryptedText == old(encryptedText)
      ensures r.Failure? && !r.error.Thrown? ==>
                decryptedText == old(decryptedText) && lastOperation == old(lastOperation) && isLoading == old(isLoading)
      ensures r.Success? ==> decryptedText == r.value && lastOperation == TextDecrypted(r.value) && !isLoading
      ensures r.Failure? && r.error.Thrown? ==>
                decryptedText == old(decryptedText) && lastOperation == DecryptionError(r.error.error) && !isLoading
    {
      r := TryDecrypt(cipher, keys);
      if r.Failure? && !r.error.Thrown? {
        return;
      }
      RecordDecryption(r);
    }

    /** The state updates at the end of `decryptText`. The callback is async
        but never awaits, so React applies them together with the loading
        flag raised before the decryption: that flag is seen cleared. */
    method RecordDecryption(r: Result<Str, DecryptError>)
      requires r.Success? || r.error.Thrown?
      modifies this
      ensures keys == old(keys) && encryptedText == old(encryptedText) && !isLoading
      ensures r.Success? ==> decryptedText == r.value && lastOperation == TextDecrypted(r.value)
      ensures r.Failure? ==> decryptedText == old(decryptedText) && lastOperation == DecryptionError(r.error.error)
    {
      if r.Success? {
        decryptedText, lastOperation, isLoading := r.value, TextDecrypted(r.value), false;
      } else {
        lastOperation, isLoading := DecryptionError(r.error.error), false;
      }
    }

    /** `loadExampleKeys()`: the example key pair (23, 187) and (7, 187). */
    method LoadExampleKeys()
      modifies this
      ensures keys == ExampleKeyPair && lastOperation == ExampleKeysLoaded
      ensures encryptedText == old(encryptedText) && decryptedText == old(decryptedText)
      ensures isLoading == old(isLoading)
    {
      keys := ExampleKeyPair;
      lastOperation := ExampleKeysLoaded;
    }

    /** `loadExampleCipherText()`: the example cipher text as written, which
        the message calls HELLO but which does not decrypt to it
        (ExampleCipherAsWrittenDecryption). */
    method LoadExampleCipherText()
      modifies this
      ensures encryptedText == SampleCipherAsWritten && lastOperation == ExampleCipherLoaded
      ensures keys == old(keys) && decryptedText == old(decryptedText) && isLoading == old(isLoading)
    {
      encryptedText := SampleCipherAsWritten;
      lastOperation := ExampleCipherLoaded;
    }

    /** `clearAll()`: both texts emptied; the keys stay. */
    method ClearAll()
      modifies this
      ensures encryptedText == [] && decryptedText == [] && lastOperation == DataCleared
      ensures keys == old(keys) && isLoading == old(isLoading)
    {
      encryptedText := [];
      decryptedText := [];
      lastOperation := DataCleared;
    }
  }
}
