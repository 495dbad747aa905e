/** The example data of the application worked through: the sample text of
    the encryption screen, the sample cipher text of the decryption screen,
    and the key pairs that go with primes 17 and 11. Strings are written as
    their code units, with the text in a comment. */
module Samples {
  import opened Wrappers
  import opened BigInt
  import opened JsString
  import opened Rsa
  import opened Codec
  import opened ExampleKeys
  import opened Types

  /** "HELLO RSA", the sample text of the encryption screen. */
  const HelloRsa: Str := [72, 69, 76, 76, 79, 32, 82, 83, 65]

  /** "HELLO" */
  const Hello: Str := [72, 69, 76, 76, 79]

  /** "23", "187" and "7": the example exponents and modulus. */
  const ExampleE: Str := [50, 51]
  const ExampleN: Str := [49, 56, 55]
  const ExampleD: Str := [55]

  /** The example key pair both screens load: e = 23, d = 7, n = 187. */
  const ExampleKeyPair: RsaKeys := RsaKeys(PublicKey(ExampleE, ExampleN), PrivateKey(ExampleD, ExampleN))

  lemma ParseExampleE(e: Str)
    requires e == ExampleE
    ensures ParseBigInt(e) == Success(23)
  {
    ParseShortDigits(e, 23);
  }

  lemma ParseExampleN(n: Str)
    requires n == ExampleN
    ensures ParseBigInt(n) == Success(187)
  {
    ParseShortDigits(n, 187);
  }

  lemma ParseExampleD(d: Str)
    requires d == ExampleD
    ensures ParseBigInt(d) == Success(7)
  {
    ParseShortDigits(d, 7);
  }

  /** The example key strings read as the numbers 23, 187 and 7. */
  lemma ParseExampleKeys(e: Str, n: Str, d: Str)
    requires e == ExampleE && n == ExampleN && d == ExampleD
    ensures ParseBigInt(e) == Success(23) && ParseBigInt(n) == Success(187) && ParseBigInt(d) == Success(7)
  {
    ParseExampleE(e);
    ParseExampleN(n);
    ParseExampleD(d);
  }

  /** "072149037072079", the sample cipher text of the decryption screen as
      written; the screen labels it as the encryption of HELLO. */
  const SampleCipherAsWritten: Str := [48, 55, 50, 49, 52, 57, 48, 51, 55, 48, 55, 50, 48, 55, 57]

  /** "183137032032173", the encryption of HELLO under e = 23, n = 187. */
  const SampleCipher: Str := [49, 56, 51, 49, 51, 55, 48, 51, 50, 48, 51, 50, 49, 55, 51]

  /** Every code unit below 187 survives encryption with (e, n) = (23, 187)
      and decryption with d = 7: the keys the interface presents. */
  lemma InterfaceKeysRoundTrip(text: Str)
    requires forall i | 0 <= i < |text| :: text[i] < 187
    ensures Encrypted(text, 23, 187).Success?
    ensures Decrypted(Encrypted(text, 23, 187).value, 7, 187) == Success(text)
  {
    forall i | 0 <= i < |text| ensures ModPowValue(ModPowValue(text[i], 23, 187), 7, 187) == text[i] {
      ExampleRoundTrip(text[i], 23, 7);
    }
    RoundTrip(text, 23, 7, 187);
  }

  /** The same for the key pair that key generation actually derives from
      17 and 11: (e, d) = (107, 3). */
  lemma GeneratedKeysRoundTrip(text: Str)
    requires forall i | 0 <= i < |text| :: text[i] < 187
    ensures Encrypted(text, 107, 187).Success?
    ensures Decrypted(Encrypted(text, 107, 187).value, 3, 187) == Success(text)
  {
    forall i | 0 <= i < |text| ensures ModPowValue(ModPowValue(text[i], 107, 187), 3, 187) == text[i] {
      ExampleRoundTrip(text[i], 107, 3);
    }
    RoundTrip(text, 107, 3, 187);
  }

  /** Every code unit of the sample text is below 187. */
  lemma HelloRsaBelowModulus(text: Str)
    requires text == HelloRsa
    ensures forall i | 0 <= i < |text| :: text[i] < 187
  {
  }

  /** The sample text round-trips under both key pairs. */
  lemma HelloRsaRoundTrip(text: Str)
    requires text == HelloRsa
    ensures Encrypted(text, 23, 187).Success? && Encrypted(text, 107, 187).Success?
    ensures Decrypted(Encrypted(text, 23, 187).value, 7, 187) == Success(text)
    ensures Decrypted(Encrypted(text, 107, 187).value, 3, 187) == Success(text)
  {
    HelloRsaBelowModulus(text);
    InterfaceKeysRoundTrip(text);
    GeneratedKeysRoundTrip(text);
  }

  /** Block i of a cipher text cut into blocks of three. */
  lemma ThreeUnitBlock(cipher: Str, i: nat)
    requires 3 * i + 3 <= |cipher|
    ensures i < |Cut(cipher, 3)|
    ensures Cut(cipher, 3)[i] == [cipher[3 * i], cipher[3 * i + 1], cipher[3 * i + 2]]
  {
    OffsetIsProduct(i, 3);
    CutCovers(cipher, 3, i);
    CutBlock(cipher, 3, i);
    assert Min(3 * i + 3, |cipher|) == 3 * i + 3;
  }

  /** The value of block i, when it is made of three digits. */
  lemma ThreeDigitBlock(cipher: Str, i: nat)
    requires 3 * i + 3 <= |cipher|
    requires IsDigit(cipher[3 * i]) && IsDigit(cipher[3 * i + 1]) && IsDigit(cipher[3 * i + 2])
    ensures i < |Cut(cipher, 3)| && AllDigits(Cut(cipher, 3)[i])
    ensures DigitsValue(Cut(cipher, 3)[i])
         == 100 * (cipher[3 * i] - Zero) + 10 * (cipher[3 * i + 1] - Zero) + (cipher[3 * i + 2] - Zero)
  {
    ThreeUnitBlock(cipher, i);
    ThreeDigits(cipher[3 * i], cipher[3 * i + 1], cipher[3 * i + 2]);
  }

  /** Decryption of a digit string whose block values are known. */
  lemma DecryptsTo(cipher: Str, d: int, n: int, values: seq<int>, plain: Str)
    requires n != 0 && AllDigits(cipher)
    requires |Cut(cipher, BlockSize(n))| == |plain| == |values|
    requires forall i | 0 <= i < |plain| ::
               AllDigits(Cut(cipher, BlockSize(n))[i]) && DigitsValue(Cut(cipher, BlockSize(n))[i]) == values[i]
    requires forall i | 0 <= i < |plain| :: ToUint16(ModPowValue(values[i], d, n)) == plain[i]
    ensures Decrypted(cipher, d, n) == Success(plain)
  {
    DigitsDecrypt(cipher, d, n);
    var blocks := Cut(cipher, BlockSize(n));
    var r := Decrypted(cipher, d, n).value;
    forall i | 0 <= i < |plain| ensures r[i] == plain[i] {
      DecryptedChar(cipher, d, n, i);
      ParseDigits(blocks[i]);
    }
    assert r == plain;
  }

  /** The five blocks of a 15-digit cipher text of width-3 blocks. */
  lemma FiveBlocks(cipher: Str, values: seq<int>)
    requires |cipher| == 15 && AllDigits(cipher) && |values| == 5
    requires forall k | 0 <= k < 5 ::
               values[k] == 100 * (cipher[3 * k] - Zero) + 10 * (cipher[3 * k + 1] - Zero) + (cipher[3 * k + 2] - Zero)
    ensures |Cut(cipher, 3)| == 5
    ensures forall k | 0 <= k < 5 :: AllDigits(Cut(cipher, 3)[k]) && DigitsValue(Cut(cipher, 3)[k]) == values[k]
  {
    CutLength(cipher, 3);
    forall k | 0 <= k < 5 ensures AllDigits(Cut(cipher, 3)[k]) && DigitsValue(Cut(cipher, 3)[k]) == values[k] {
      ThreeDigitBlock(cipher, k);
    }
  }

  /** modPow(c, 7, 187) from the seventh power of c. */
  lemma SeventhPower(c: int, p: int, r: int)
    requires c >= 0 && p == Pow(c, 7) && p % 187 == r
    ensures ModPowValue(c, 7, 187) == r
  {
    PowNonNegative(c, 7);
    RemProperties(p, 187);
  }

  /** modPow with d = 7, n = 187 of the blocks of the sample cipher text as
      written. */
  lemma AsWrittenUnits()
    ensures ModPowValue(72, 7, 187) == 30 && ModPowValue(149, 7, 187) == 140
    ensures ModPowValue(37, 7, 187) == 181 && ModPowValue(79, 7, 187) == 139
  {
    SeventhPower(72, 10030613004288, 30);
    SeventhPower(149, 1630436461403549, 140);
    SeventhPower(37, 94931877133, 181);
    SeventhPower(79, 19203908986159, 139);
  }

  /** modPow with d = 7, n = 187 of the blocks of the encryption of HELLO. */
  lemma HelloUnits()
    ensures ModPowValue(183, 7, 187) == 72 && ModPowValue(137, 7, 187) == 69
    ensures ModPowValue(32, 7, 187) == 76 && ModPowValue(173, 7, 187) == 79
  {
    SeventhPower(183, 6873178582377927, 72);
    SeventhPower(137, 905824306333433, 69);
    SeventhPower(32, 34359738368, 76);
    SeventhPower(173, 4637914326451397, 79);
  }

  /** Keys with n = 187 cut cipher texts into blocks of three digits. */
  lemma BlockSizeOfExample()
    ensures BlockSize(187) == 3
  {
    assert Decimal(187) == Decimal(18) + [55];
  }

  /** Decryption with d = 7, n = 187 of 15 digits whose five blocks of three
      have known values, each of which modPow maps to a known code unit. */
  lemma DecryptsFiveBlocks(cipher: Str, values: seq<int>, plain: Str)
    requires |cipher| == 15 && AllDigits(cipher) && |values| == 5 && |plain| == 5
    requires forall k | 0 <= k < 5 ::
               values[k] == 100 * (cipher[3 * k] - Zero) + 10 * (cipher[3 * k + 1] - Zero) + (cipher[3 * k + 2] - Zero)
    requires forall k | 0 <= k < 5 :: ToUint16(ModPowValue(values[k], 7, 187)) == plain[k]
    ensures Decrypted(cipher, 7, 187) == Success(plain)
  {
    BlockSizeOfExample();
    FiveBlocks(cipher, values);
    DecryptsTo(cipher, 7, 187, values, plain);
  }

  /** The blocks of the sample cipher text as written: 072 149 037 072 079. */
  lemma AsWrittenDigits(cipher: Str, values: seq<int>)
    requires cipher == SampleCipherAsWritten && values == [72, 149, 37, 72, 79]
    ensures |cipher| == 15 && AllDigits(cipher) && |values| == 5
    ensures forall k | 0 <= k < 5 ::
              values[k] == 100 * (cipher[3 * k] - Zero) + 10 * (cipher[3 * k + 1] - Zero) + (cipher[3 * k + 2] - Zero)
  {
  }

  /** The blocks of the encryption of HELLO: 183 137 032 032 173. */
  lemma HelloDigits(cipher: Str, values: seq<int>)
    requires cipher == SampleCipher && values == [183, 137, 32, 32, 173]
    ensures |cipher| == 15 && AllDigits(cipher) && |values| == 5
    ensures forall k | 0 <= k < 5 ::
              values[k] == 100 * (cipher[3 * k] - Zero) + 10 * (cipher[3 * k + 1] - Zero) + (cipher[3 * k + 2] - Zero)
  {
  }

  lemma AsWrittenPlain(values: seq<int>, plain: Str)
    requires values == [72, 149, 37, 72, 79] && plain == [30, 140, 181, 30, 139]
    ensures forall i | 0 <= i < 5 :: ToUint16(ModPowValue(values[i], 7, 187)) == plain[i]
  {
    AsWrittenUnits();
  }

  lemma HelloPlain(values: seq<int>, plain: Str)
    requires values == [183, 137, 32, 32, 173] && plain == Hello
    ensures forall i | 0 <= i < 5 :: ToUint16(ModPowValue(values[i], 7, 187)) == plain[i]
  {
    HelloUnits();
  }

  /** The sample cipher text as written decrypts with d = 7, n = 187 to
      code units 30, 140, 181, 30, 139, not to HELLO. */
  lemma SampleCipherAsWrittenDecrypts(cipher: Str)
    requires cipher == SampleCipherAsWritten
    ensures Decrypted(cipher, 7, 187) == Success([30, 140, 181, 30, 139])
    ensures Decrypted(cipher, 7, 187) != Success(Hello)
  {
    var values, plain := [72, 149, 37, 72, 79], [30, 140, 181, 30, 139];
    AsWrittenDigits(cipher, values);
    AsWrittenPlain(values, plain);
    DecryptsFiveBlocks(cipher, values, plain);
    assert plain[0] != Hello[0];
  }

  /** The corrected sample cipher text decrypts with d = 7, n = 187 to HELLO. */
  lemma SampleCipherDecrypts(cipher: Str)
    requires cipher == SampleCipher
    ensures Decrypted(cipher, 7, 187) == Success(Hello)
  {
    var values := [183, 137, 32, 32, 173];
    HelloDigits(cipher, values);
    HelloPlain(values, Hello);
    DecryptsFiveBlocks(cipher, values, Hello);
  }

  /** "12" is shorter than one block for n = 187, yet it decrypts: the last
      block may be short and no length check is made. */
  lemma ShortCipherDecrypts(cipher: Str)
    requires cipher == [49, 50]
    ensures |cipher| % BlockSize(187) != 0
    ensures Decrypted(cipher, 7, 187).Success? && |Decrypted(cipher, 7, 187).value| == 1
  {
    BlockSizeOfExample();
    DigitsDecrypt(cipher, 7, 187);
    CutLength(cipher, 3);
  }
}
