/** The text codec of src/utils/rsa.ts: every UTF-16 code unit of the text is
    raised to e modulo n and written as a zero-padded decimal block whose
    width is the number of characters of n; decryption cuts the cipher text
    into blocks of that width and maps each back with d.

    The formatting (blocks of numbers) and the arithmetic (modPow of each
    code unit) are stated separately and joined in `Encrypted` and
    `Decrypted`. */
module Codec {
  import opened Wrappers
  import opened BigInt
  import opened JsString
  import opened Rsa

  /** `nBig.toString().length`: the width of every block, a minus sign included. */
  function BlockSize(n: int): (r: nat)
    ensures r >= 1
    ensures r >= |Decimal(Abs(n))|
  {
    |BigIntToString(n)|
  }

  /** `String.fromCharCode(Number(x))`: the number taken modulo 2^16 (ToUint16). */
  function ToUint16(x: int): (r: CodeUnit)
    ensures (r - x) % 0x1_0000 == 0
    ensures 0 <= x < 0x1_0000 ==> r == x
  {
    ModOfMultiple(0, x % 0x1_0000, 0x1_0000);
    x % 0x1_0000
  }

  function Min(a: int, b: int): (r: int)
    ensures r <= a && r <= b && (r == a || r == b)
  {
    if a < b then a else b
  }

  lemma MulSucc(w: int, k: int)
    ensures w * (k + 1) == w * k + w
  {
  }

  // ---------------------------------------------------------------------
  // Blocks of numbers

  /** `v.toString().padStart(width, '0')`. */
  function Block(v: int, width: nat): (r: Str)
    ensures |r| >= width
  {
    PadStart(BigIntToString(v), width)
  }

  /** A number that fits reads back from its block. */
  lemma BlockValue(v: int, width: nat)
    requires 0 <= v && |Decimal(v)| <= width
    ensures |Block(v, width)| == width && AllDigits(Block(v, width))
    ensures DigitsValue(Block(v, width)) == v
  {
    DecimalValue(v);
    LeadingZerosValue(width - |Decimal(v)|, Decimal(v));
  }

  /** Every value is non-negative and has at most `width` digits, so that no
      block is wider than `width`. */
  predicate Fits(values: seq<int>, width: nat)
  {
    forall i | 0 <= i < |values| :: 0 <= values[i] && |Decimal(values[i])| <= width
  }

  /** The block of each number. */
  function Blocks(values: seq<int>, width: nat): (r: seq<Str>)
    ensures |r| == |values|
  {
    seq(|values|, i requires 0 <= i < |values| => Block(values[i], width))
  }

  /** Every block has exactly `width` characters. */
  predicate Uniform(blocks: seq<Str>, width: nat)
  {
    forall i | 0 <= i < |blocks| :: |blocks[i]| == width
  }

  /** Blocks of numbers that fit are `width` digits wide and read back as
      those numbers. */
  lemma BlocksFit(values: seq<int>, width: nat)
    requires Fits(values, width)
    ensures Uniform(Blocks(values, width), width)
    ensures forall i | 0 <= i < |values| ::
              AllDigits(Blocks(values, width)[i]) && DigitsValue(Blocks(values, width)[i]) == values[i]
  {
    forall i | 0 <= i < |values| {
      BlockValue(values[i], width);
    }
  }

  /** The blocks written one after the other. */
  function Concat(blocks: seq<Str>): Str
  {
    if blocks == [] then [] else blocks[0] + Concat(blocks[1..])
  }

  /** Appending a block: the step of the encryption loop. */
  lemma {:induction false} ConcatAppend(blocks: seq<Str>, b: Str)
    ensures Concat(blocks + [b]) == Concat(blocks) + b
    decreases |blocks|
  {
    if blocks != [] {
      assert (blocks + [b])[1..] == blocks[1..] + [b];
      ConcatAppend(blocks[1..], b);
    } else {
      assert [b][1..] == [];
    }
  }

  lemma {:induction false} ConcatLength(blocks: seq<Str>, width: nat)
    requires Uniform(blocks, width)
    ensures |Concat(blocks)| == width * |blocks|
    decreases |blocks|
  {
    if blocks != [] {
      ConcatLength(blocks[1..], width);
      MulSucc(width, |blocks| - 1);
    }
  }

  lemma {:induction false} ConcatDigits(blocks: seq<Str>)
    requires forall i | 0 <= i < |blocks| :: AllDigits(blocks[i])
    ensures AllDigits(Concat(blocks))
    decreases |blocks|
  {
    if blocks != [] {
      ConcatDigits(blocks[1..]);
      AllDigitsAppend(blocks[0], Concat(blocks[1..]));
    }
  }

  /** The blocks before i, block i, and the blocks after it. */
  lemma {:induction false} ConcatSplit(blocks: seq<Str>, i: nat)
    requires i < |blocks|
    ensures Concat(blocks) == Concat(blocks[..i]) + blocks[i] + Concat(blocks[i + 1..])
    decreases i
  {
    if i > 0 {
      var rest := blocks[1..];
      ConcatSplit(rest, i - 1);
      assert rest[..i - 1] == blocks[1..i];
      assert rest[i..] == blocks[i + 1..];
      assert rest[i - 1] == blocks[i];
      assert blocks[..i][1..] == blocks[1..i];
      assert Concat(blocks[..i]) == blocks[0] + Concat(blocks[1..i]);
    }
  }

  /** Block i of blocks of one width occupies [i * width, (i + 1) * width). */
  lemma ConcatLayout(blocks: seq<Str>, width: nat, i: nat)
    requires Uniform(blocks, width) && i < |blocks|
    ensures 0 <= i * width && i * width + width <= |Concat(blocks)|
    ensures Concat(blocks)[i * width..i * width + width] == blocks[i]
  {
    var before, after := Concat(blocks[..i]), Concat(blocks[i + 1..]);
    ConcatSplit(blocks, i);
    assert Uniform(blocks[..i], width);
    ConcatLength(blocks[..i], width);
    ConcatLength(blocks, width);
    MulSucc(width, i);
    MulMonotone(i + 1, |blocks|, width);
    MulMonotone(0, i, width);
    BlockInMiddle(before, blocks[i], after);
  }

  /** Encoding one more number appends its block. */
  lemma EncodingAppend(values: seq<int>, v: int, width: nat)
    ensures Concat(Blocks(values + [v], width)) == Concat(Blocks(values, width)) + Block(v, width)
  {
    assert Blocks(values + [v], width) == Blocks(values, width) + [Block(v, width)];
    ConcatAppend(Blocks(values, width), Block(v, width));
  }

  /** The blocks of numbers that fit, concatenated: `width` digits per
      number, number i readable at [i * width, i * width + width). */
  lemma EncodingLayout(values: seq<int>, width: nat, i: nat)
    requires Fits(values, width) && i < |values|
    ensures |Concat(Blocks(values, width))| == width * |values|
    ensures AllDigits(Concat(Blocks(values, width)))
    ensures 0 <= i * width && i * width + width <= |Concat(Blocks(values, width))|
    ensures var block := Concat(Blocks(values, width))[i * width..i * width + width];
            AllDigits(block) && DigitsValue(block) == values[i]
  {
    var blocks := Blocks(values, width);
    BlocksFit(values, width);
    ConcatLength(blocks, width);
    ConcatDigits(blocks);
    ConcatLayout(blocks, width, i);
  }

  lemma BlockInMiddle(a: Str, b: Str, c: Str)
    ensures (a + b + c)[|a|..|a| + |b|] == b
  {
  }

  // ---------------------------------------------------------------------
  // encryptTextToNumbers

  /** modPow of each code unit of the text, the numbers the blocks show. */
  function CipherValues(text: Str, e: int, n: int): (r: seq<int>)
    requires n != 0
    ensures |r| == |text|
    ensures forall i | 0 <= i < |text| :: r[i] == ModPowValue(text[i], e, n)
  {
    seq(|text|, i requires 0 <= i < |text| => ModPowValue(text[i], e, n))
  }

  /** modPow of a code unit is a non-negative number no larger than |n|, so
      its decimal form fits in a block: the padding never has to truncate. */
  lemma BlockFits(c: CodeUnit, e: int, n: int)
    requires n != 0
    ensures 0 <= ModPowValue(c, e, n) <= Abs(n)
    ensures |Decimal(ModPowValue(c, e, n))| <= BlockSize(n)
  {
    if n != 1 && e > 0 {
      PowNonNegative(c, e);
      RemProperties(Pow(c, e), n);
    }
    DecimalLengthMonotonic(ModPowValue(c, e, n), Abs(n));
  }

  /** The values of one more code unit. */
  lemma CipherValuesAppend(text: Str, i: nat, e: int, n: int)
    requires n != 0 && i < |text|
    ensures CipherValues(text[..i + 1], e, n) == CipherValues(text[..i], e, n) + [ModPowValue(text[i], e, n)]
  {
  }

  lemma CipherValuesFit(text: Str, e: int, n: int)
    requires n != 0
    ensures Fits(CipherValues(text, e, n), BlockSize(n))
  {
    forall i | 0 <= i < |text| {
      BlockFits(text[i], e, n);
    }
  }

  /** What `encryptTextToNumbers` computes from the parsed exponent and
      modulus: the empty text gives the empty string; otherwise a modulus of
      0 throws a RangeError, and any other gives one block per code unit. */
  function Encrypted(text: Str, e: int, n: int): (r: Result<Str, JsError>)
    ensures r.Failure? <==> n == 0 && text != []
    ensures r.Failure? ==> r.error == RangeError
  {
    if text == [] then Success([])
    else if n == 0 then Failure(RangeError)
    else Success(Concat(Blocks(CipherValues(text, e, n), BlockSize(n))))
  }

  /** The shape of a successful encryption: |text| blocks of BlockSize(n)
      digits, block i holding modPow of code unit i. */
  lemma EncryptedLayout(text: Str, e: int, n: int, i: nat)
    requires Encrypted(text, e, n).Success? && i < |text|
    ensures |Encrypted(text, e, n).value| == BlockSize(n) * |text|
    ensures AllDigits(Encrypted(text, e, n).value)
    ensures 0 <= i * BlockSize(n) && i * BlockSize(n) + BlockSize(n) <= |Encrypted(text, e, n).value|
    ensures var block := Encrypted(text, e, n).value[i * BlockSize(n)..i * BlockSize(n) + BlockSize(n)];
            AllDigits(block) && DigitsValue(block) == ModPowValue(text[i], e, n)
  {
    var w, values := BlockSize(n), CipherValues(text, e, n);
    assert Encrypted(text, e, n).value == Concat(Blocks(values, w));
    CipherValuesFit(text, e, n);
    EncodingLayout(values, w, i);
  }

  /** `encryptTextToNumbers(plainText, e, n)` on string keys, the way the
      hooks call it: the keys are converted with `BigInt` first. */
  function EncryptOutcome(plainText: Str, e: Str, n: Str): Result<Str, JsError>
  {
    match ParseBigInt(e)
    case Failure(err) => Failure(err)
    case Success(eBig) =>
      match ParseBigInt(n)
      case Failure(err) => Failure(err)
      case Success(nBig) => Encrypted(plainText, eBig, nBig)
  }

  /** `encryptTextToNumbers`: one block per code unit, appended in order. */
  method EncryptTextToNumbers(plainText: Str, e: Str, n: Str) returns (r: Result<Str, JsError>)
    ensures r == EncryptOutcome(plainText, e, n)
  {
    var eParsed := ParseBigInt(e);
    if eParsed.Failure? {
      return Failure(eParsed.error);
    }
    var nParsed := ParseBigInt(n);
    if nParsed.Failure? {
      return Failure(nParsed.error);
    }
    r := EncryptUnits(plainText, eParsed.value, nParsed.value);
  }

  /** The loop of `encryptTextToNumbers` once e and n are bigints. */
  method EncryptUnits(plainText: Str, eBig: int, nBig: int) returns (r: Result<Str, JsError>)
    ensures r == Encrypted(plainText, eBig, nBig)
  {
    var blockSize := |BigIntToString(nBig)|;
    var output: Str := [];
    ghost var values: seq<int> := [];
    for i := 0 to |plainText|
      invariant nBig != 0 || i == 0
      invariant nBig != 0 ==> values == CipherValues(plainText[..i], eBig, nBig)
      invariant nBig == 0 ==> values == []
      invariant output == Concat(Blocks(values, blockSize))
    {
      var charCode := plainText[i];
      var encryptedChar := ModPow(charCode, eBig, nBig);
      if encryptedChar.Failure? {
        return Failure(encryptedChar.error);
      }
      var numStr := PadStart(BigIntToString(encryptedChar.value), blockSize);
      CipherValuesAppend(plainText, i, eBig, nBig);
      EncodingAppend(values, encryptedChar.value, blockSize);
      values := values + [encryptedChar.value];
      output := output + numStr;
    }
    assert blockSize == BlockSize(nBig);
    if plainText == [] {
      assert Blocks(values, blockSize) == [];
    } else {
      assert plainText[..|plainText|] == plainText;
    }
    return Success(output);
  }

  // ---------------------------------------------------------------------
  // decryptNumbersToText

  /** The slices `cipherText.slice(i, i + width)` for i = 0, width, 2 * width,
      ... below the length: full blocks and a possibly shorter last one. */
  function Cut(cipher: Str, width: nat): (r: seq<Str>)
    requires width >= 1
    ensures forall i | 0 <= i < |r| :: r[i] != []
    decreases |cipher|
  {
    if cipher == [] then []
    else
      var len := Min(|cipher|, width);
      [cipher[..len]] + Cut(cipher[len..], width)
  }

  /** There are |cipher| / width blocks, rounded up. */
  lemma {:induction false} CutLength(cipher: Str, width: nat)
    requires width >= 1
    ensures |Cut(cipher, width)| == (|cipher| + width - 1) / width
    decreases |cipher|
  {
    if cipher != [] {
      CutLength(cipher[Min(|cipher|, width)..], width);
      CeilStep(|cipher|, width);
    } else {
      ModOfMultiple(0, width - 1, width);
    }
  }

  /** One more block of the ceiling division. */
  lemma CeilStep(len: nat, width: nat)
    requires len >= 1 && width >= 1
    ensures 1 + (len - Min(len, width) + width - 1) / width == (len + width - 1) / width
  {
    if len <= width {
      ModOfMultiple(1, len - 1, width);
      ModOfMultiple(0, len - 1, width);
    } else {
      var q, r := (len - 1) / width, (len - 1) % width;
      assert len - 1 == q * width + r;
      assert len + width - 1 == (q + 1) * width + r;
      assert len - width + width - 1 == q * width + r;
      ModOfMultiple(q + 1, r, width);
      ModOfMultiple(q, r, width);
    }
  }

  /** i * width, counted out one block at a time. */
  function Offset(i: nat, width: nat): (r: nat)
  {
    if i == 0 then 0 else Offset(i - 1, width) + width
  }

  lemma {:induction false} OffsetIsProduct(i: nat, width: nat)
    ensures Offset(i, width) == i * width
  {
    if i > 0 {
      OffsetIsProduct(i - 1, width);
      MulSucc(width, i - 1);
    }
  }

  /** Every offset inside the cipher text starts a block. */
  lemma {:induction false} CutCovers(cipher: Str, width: nat, i: nat)
    requires width >= 1 && Offset(i, width) < |cipher|
    ensures i < |Cut(cipher, width)|
    decreases i
  {
    var len := Min(|cipher|, width);
    assert Cut(cipher, width) == [cipher[..len]] + Cut(cipher[len..], width);
    if i > 0 {
      CutCovers(cipher[len..], width, i - 1);
    }
  }

  /** Block i is cipher[i * width .. min(i * width + width, |cipher|)]. */
  lemma {:induction false} CutBlock(cipher: Str, width: nat, i: nat)
    requires width >= 1 && i < |Cut(cipher, width)|
    ensures i * width < |cipher|
    ensures Cut(cipher, width)[i] == cipher[i * width..Min(i * width + width, |cipher|)]
  {
    CutBlockAt(cipher, width, i);
    OffsetIsProduct(i, width);
  }

  lemma {:induction false} CutBlockAt(cipher: Str, width: nat, i: nat)
    requires width >= 1 && i < |Cut(cipher, width)|
    ensures Offset(i, width) < |cipher|
    ensures Cut(cipher, width)[i] == cipher[Offset(i, width)..Min(Offset(i, width) + width, |cipher|)]
    decreases i, 1
  {
    if i == 0 {
      var len := Min(|cipher|, width);
      assert Cut(cipher, width)[0] == cipher[..len];
      assert cipher[0..Min(0 + width, |cipher|)] == cipher[..len];
    } else {
      CutLaterBlock(cipher, width, i);
    }
  }

  /** Block i > 0 is block i - 1 of the text after the first block. */
  lemma {:induction false} CutLaterBlock(cipher: Str, width: nat, i: nat)
    requires width >= 1 && 0 < i < |Cut(cipher, width)|
    ensures Offset(i, width) < |cipher|
    ensures Cut(cipher, width)[i] == cipher[Offset(i, width)..Min(Offset(i, width) + width, |cipher|)]
    decreases i, 0
  {
    var rest := CutTail(cipher, width, i);
    CutBlockAt(rest, width, i - 1);
    ShiftedBlock(cipher, rest, width, Offset(i - 1, width), Offset(i, width));
  }

  /** Past the first block, the blocks are those of the rest of the text. */
  lemma CutTail(cipher: Str, width: nat, i: nat) returns (rest: Str)
    requires width >= 1 && 0 < i < |Cut(cipher, width)|
    ensures width < |cipher| && rest == cipher[width..]
    ensures i - 1 < |Cut(rest, width)| && Cut(cipher, width)[i] == Cut(rest, width)[i - 1]
  {
    var len := Min(|cipher|, width);
    rest := cipher[len..];
    assert Cut(cipher, width) == [cipher[..len]] + Cut(rest, width);
    assert rest != [];
  }

  /** A block of the text after the first `width` units is a block of the
      whole text, `width` further on. */
  lemma ShiftedBlock(cipher: Str, rest: Str, width: nat, start: nat, offset: nat)
    requires width <= |cipher| && rest == cipher[width..] && start < |rest| && offset == start + width
    ensures rest[start..Min(start + width, |rest|)] == cipher[offset..Min(offset + width, |cipher|)]
  {
    assert width + Min(start + width, |rest|) == Min(offset + width, |cipher|);
    SliceOfSuffix(cipher, width, start, Min(start + width, |rest|));
  }

  lemma SliceOfSuffix(s: Str, k: nat, a: nat, b: nat)
    requires k <= |s| && a <= b <= |s| - k
    ensures s[k..][a..b] == s[k + a..k + b]
  {
  }

  /** Chaining a result after a decoded prefix. */
  function Prepend(prefix: Str, rest: Result<Str, JsError>): (r: Result<Str, JsError>)
    ensures r.Success? <==> rest.Success?
    ensures r.Failure? ==> r == rest
    ensures r.Success? ==> r.value == prefix + rest.value
  {
    if rest.Success? then Success(prefix + rest.value) else rest
  }

  /** One block of `decryptNumbersToText`: `BigInt(block)` (a SyntaxError
      when it is not an integer), then modPow with d and n (a RangeError
      when n is 0), then one code unit from the result. */
  function DecodeBlock(block: Str, d: int, n: int): (r: Result<CodeUnit, JsError>)
    ensures r.Success? <==> ParseBigInt(block).Success? && n != 0
    ensures ParseBigInt(block).Failure? ==> r == Failure(SyntaxError(block))
    ensures ParseBigInt(block).Success? && n == 0 ==> r == Failure(RangeError)
  {
    match ParseBigInt(block)
    case Failure(err) => Failure(err)
    case Success(v) => if n == 0 then Failure(RangeError) else Success(ToUint16(ModPowValue(v, d, n)))
  }

  lemma DecodeParsedBlock(block: Str, v: int, d: int, n: int)
    requires ParseBigInt(block) == Success(v)
    ensures Decoder(d, n)(block) == if n == 0 then Failure(RangeError) else Success(ToUint16(ModPowValue(v, d, n)))
  {
  }

  /** The block decoder for one key, as a function value. */
  function Decoder(d: int, n: int): Str -> Result<CodeUnit, JsError>
  {
    block => DecodeBlock(block, d, n)
  }

  /** Decodes the blocks in order, stopping at the first error. */
  function DecodeAll(blocks: seq<Str>, decode: Str -> Result<CodeUnit, JsError>): (r: Result<Str, JsError>)
    ensures r.Success? ==> |r.value| == |blocks|
  {
    if blocks == [] then Success([])
    else
      match decode(blocks[0])
      case Failure(err) => Failure(err)
      case Success(c) => Prepend([c], DecodeAll(blocks[1..], decode))
  }

  /** Character i of a decoding is the decoding of block i. */
  lemma {:induction false} DecodeAllChar(blocks: seq<Str>, decode: Str -> Result<CodeUnit, JsError>, i: nat)
    requires DecodeAll(blocks, decode).Success? && i < |blocks|
    ensures decode(blocks[i]).Success?
    ensures DecodeAll(blocks, decode).value[i] == decode(blocks[i]).value
    decreases i
  {
    if i > 0 {
      DecodeAllChar(blocks[1..], decode, i - 1);
      assert blocks[1..][i - 1] == blocks[i];
    }
  }

  /** A decoding succeeds exactly when every block decodes. */
  lemma {:induction false} DecodeAllSucceeds(blocks: seq<Str>, decode: Str -> Result<CodeUnit, JsError>)
    ensures DecodeAll(blocks, decode).Success? <==>
              forall i | 0 <= i < |blocks| :: decode(blocks[i]).Success?
    decreases |blocks|
  {
    if blocks != [] {
      DecodeAllSucceeds(blocks[1..], decode);
      assert forall i | 0 < i < |blocks| :: blocks[i] == blocks[1..][i - 1];
    }
  }

  /** A failed decoding reports the error of the first block that fails. */
  lemma {:induction false} DecodeAllFails(blocks: seq<Str>, decode: Str -> Result<CodeUnit, JsError>, i: nat)
    requires i < |blocks| && decode(blocks[i]).Failure?
    requires forall j | 0 <= j < i :: decode(blocks[j]).Success?
    ensures DecodeAll(blocks, decode) == Failure(decode(blocks[i]).error)
    decreases i
  {
    if i > 0 {
      assert forall j | 0 <= j < i - 1 :: blocks[1..][j] == blocks[j + 1];
      DecodeAllFails(blocks[1..], decode, i - 1);
    }
  }

  /** Decoding from position i takes the block at i, then goes on after it. */
  lemma DecodeStep(cipher: Str, i: nat, width: nat, decode: Str -> Result<CodeUnit, JsError>)
    requires width >= 1 && i < |cipher|
    ensures DecodeAll(Cut(cipher[i..], width), decode)
         == match decode(cipher[i..Min(i + width, |cipher|)])
            case Failure(err) => Failure(err)
            case Success(c) => Prepend([c], DecodeAll(Cut(cipher[Min(i + width, |cipher|)..], width), decode))
  {
    var tail, end := cipher[i..], Min(i + width, |cipher|);
    assert tail[..Min(|tail|, width)] == cipher[i..end];
    assert tail[Min(|tail|, width)..] == cipher[end..];
  }

  lemma PrependEmpty(rest: Result<Str, JsError>)
    ensures Prepend([], rest) == rest
  {
    if rest.Success? {
      assert [] + rest.value == rest.value;
    }
  }

  lemma PrependTwice(a: Str, b: Str, rest: Result<Str, JsError>)
    ensures Prepend(a, Prepend(b, rest)) == Prepend(a + b, rest)
  {
    if rest.Success? {
      assert a + (b + rest.value) == a + b + rest.value;
    }
  }

  /** What `decryptNumbersToText` computes from the parsed exponent and
      modulus. */
  function Decrypted(cipher: Str, d: int, n: int): (r: Result<Str, JsError>)
    ensures r.Success? ==> |r.value| == |Cut(cipher, BlockSize(n))|
  {
    DecodeAll(Cut(cipher, BlockSize(n)), Decoder(d, n))
  }

  /** When block i is the first block that is not a bigint, decryption fails
      with the SyntaxError of that block: the `BigInt(block)` of the loop
      throws there. */
  lemma DecryptedFailsAt(cipher: Str, d: int, n: int, i: nat)
    requires n != 0 && i < |Cut(cipher, BlockSize(n))|
    requires ParseBigInt(Cut(cipher, BlockSize(n))[i]).Failure?
    requires forall j | 0 <= j < i :: ParseBigInt(Cut(cipher, BlockSize(n))[j]).Success?
    ensures Decrypted(cipher, d, n) == Failure(SyntaxError(Cut(cipher, BlockSize(n))[i]))
  {
    var blocks := Cut(cipher, BlockSize(n));
    forall j | 0 <= j < i ensures Decoder(d, n)(blocks[j]).Success? {
      DecoderApply(blocks[j], d, n);
    }
    DecoderApply(blocks[i], d, n);
    DecodeAllFails(blocks, Decoder(d, n), i);
  }

  /** Character i of a decryption is modPow of block i with d and n. */
  lemma DecryptedChar(cipher: Str, d: int, n: int, i: nat)
    requires Decrypted(cipher, d, n).Success? && i < |Cut(cipher, BlockSize(n))|
    ensures n != 0 && ParseBigInt(Cut(cipher, BlockSize(n))[i]).Success?
    ensures Decrypted(cipher, d, n).value[i]
         == ToUint16(ModPowValue(ParseBigInt(Cut(cipher, BlockSize(n))[i]).value, d, n))
  {
    DecodeAllChar(Cut(cipher, BlockSize(n)), Decoder(d, n), i);
  }

  /** Decryption succeeds exactly when n is not 0 and every block is an
      integer (or the cipher text is empty), and otherwise reports the first
      block that is not an integer, or a RangeError when n is 0. */
  lemma DecryptedSucceeds(cipher: Str, d: int, n: int)
    ensures Decrypted(cipher, d, n).Success? <==>
              cipher == [] || (n != 0 && forall i | 0 <= i < |Cut(cipher, BlockSize(n))| ::
                                            ParseBigInt(Cut(cipher, BlockSize(n))[i]).Success?)
  {
    var blocks := Cut(cipher, BlockSize(n));
    DecodeAllSucceeds(blocks, Decoder(d, n));
    DecodersSucceed(blocks, d, n);
    CutEmpty(cipher, BlockSize(n));
  }

  /** The decoder succeeds on every block exactly when there are no blocks,
      or n is not 0 and every block is an integer. */
  lemma DecodersSucceed(blocks: seq<Str>, d: int, n: int)
    ensures (forall i | 0 <= i < |blocks| :: Decoder(d, n)(blocks[i]).Success?) <==>
              blocks == [] || (n != 0 && forall i | 0 <= i < |blocks| :: ParseBigInt(blocks[i]).Success?)
  {
    forall i | 0 <= i < |blocks|
      ensures Decoder(d, n)(blocks[i]).Success? <==> ParseBigInt(blocks[i]).Success? && n != 0
    {
      DecoderApply(blocks[i], d, n);
    }
    if blocks != [] && Decoder(d, n)(blocks[0]).Success? {
      assert n != 0;
    }
  }

  lemma DecoderApply(block: Str, d: int, n: int)
    ensures Decoder(d, n)(block) == DecodeBlock(block, d, n)
  {
  }

  /** Only the empty text has no blocks. */
  lemma CutEmpty(cipher: Str, width: nat)
    requires width >= 1
    ensures Cut(cipher, width) == [] <==> cipher == []
  {
  }

  /** A cipher text of digits only decrypts without error under any
      non-zero modulus. */
  lemma DigitsDecrypt(cipher: Str, d: int, n: int)
    requires n != 0 && AllDigits(cipher)
    ensures Decrypted(cipher, d, n).Success?
  {
    var w := BlockSize(n);
    var blocks := Cut(cipher, w);
    forall i | 0 <= i < |blocks| ensures ParseBigInt(blocks[i]).Success? {
      DigitBlock(cipher, w, i);
      ParseDigits(blocks[i]);
    }
    DecryptedSucceeds(cipher, d, n);
  }

  /** The blocks of a string of digits are strings of digits. */
  lemma DigitBlock(cipher: Str, width: nat, i: nat)
    requires width >= 1 && AllDigits(cipher) && i < |Cut(cipher, width)|
    ensures Cut(cipher, width)[i] != [] && AllDigits(Cut(cipher, width)[i])
  {
    CutBlockAt(cipher, width, i);
  }

  /** Digits between white space (what passes the `/^\d+$/` test once
      trimmed) always decrypt: every block, white space and all, parses. */
  lemma PaddedDecrypts(cipher: Str, d: int, n: int)
    requires n != 0 && AllDigits(Trim(cipher))
    ensures Decrypted(cipher, d, n).Success?
  {
    var w := BlockSize(n);
    var blocks := Cut(cipher, w);
    forall i | 0 <= i < |blocks| ensures ParseBigInt(blocks[i]).Success? {
      PaddedBlock(cipher, w, i);
    }
    DecryptedSucceeds(cipher, d, n);
  }

  lemma PaddedBlock(cipher: Str, width: nat, i: nat)
    requires width >= 1 && AllDigits(Trim(cipher)) && i < |Cut(cipher, width)|
    ensures ParseBigInt(Cut(cipher, width)[i]).Success?
  {
    CutBlockAt(cipher, width, i);
    var a, b := Offset(i, width), Min(Offset(i, width) + width, |cipher|);
    ParsePaddedSlice(cipher, a, b, Cut(cipher, width)[i]);
  }

  /** What `decryptNumbersToText(cipherText, d, n)` returns on string keys. */
  function DecryptOutcome(cipherText: Str, d: Str, n: Str): (r: Result<Str, JsError>)
    ensures ParseBigInt(d).Failure? ==> r == Failure(SyntaxError(d))
    ensures ParseBigInt(d).Success? && ParseBigInt(n).Failure? ==> r == Failure(SyntaxError(n))
    ensures ParseBigInt(d).Success? && ParseBigInt(n).Success? ==>
              r == Decrypted(cipherText, ParseBigInt(d).value, ParseBigInt(n).value)
  {
    match ParseBigInt(d)
    case Failure(err) => Failure(err)
    case Success(dBig) =>
      match ParseBigInt(n)
      case Failure(err) => Failure(err)
      case Success(nBig) => Decrypted(cipherText, dBig, nBig)
  }

  /** decryptNumbersToText on string keys returns a text exactly when both
      keys are bigints and either there is nothing to decrypt or n is not 0
      and every block of the cipher text is a bigint. */
  lemma DecryptOutcomeSucceeds(cipherText: Str, d: Str, n: Str)
    ensures DecryptOutcome(cipherText, d, n).Success? <==>
              && ParseBigInt(d).Success? && ParseBigInt(n).Success?
              && (cipherText == [] || AllBlocksParse(cipherText, ParseBigInt(n).value))
  {
    var pd, pn := ParseBigInt(d), ParseBigInt(n);
    if pd.Success? && pn.Success? {
      DecryptedParses(cipherText, pd.value, pn.value);
    }
  }

  lemma DecryptedParses(cipherText: Str, d: int, n: int)
    ensures Decrypted(cipherText, d, n).Success? <==> cipherText == [] || AllBlocksParse(cipherText, n)
  {
    DecryptedSucceeds(cipherText, d, n);
    var blocks := Cut(cipherText, BlockSize(n));
    assert AllBlocksParse(cipherText, n) <==>
             n != 0 && forall i | 0 <= i < |blocks| :: ParseBigInt(blocks[i]).Success?;
  }

  /** n is not 0 and every block of the cipher text for n is a bigint. */
  predicate AllBlocksParse(cipherText: Str, n: int)
  {
    n != 0 && forall i | 0 <= i < |Cut(cipherText, BlockSize(n))| ::
                ParseBigInt(Cut(cipherText, BlockSize(n))[i]).Success?
  }

  /** The body of the decryption loop for one block: `BigInt(block)`, then
      `modPow` with d and n, then `String.fromCharCode`. */
  method DecodeBlockOf(block: Str, d: int, n: int) returns (r: Result<CodeUnit, JsError>)
    ensures r == Decoder(d, n)(block)
  {
    var cipherNum := ParseBigInt(block);
    if cipherNum.Failure? {
      return Failure(cipherNum.error);
    }
    var decryptedChar := ModPow(cipherNum.value, d, n);
    DecodeParsedBlock(block, cipherNum.value, d, n);
    if decryptedChar.Failure? {
      return Failure(decryptedChar.error);
    }
    return Success(ToUint16(decryptedChar.value));
  }

  /** `decryptNumbersToText`: steps through the cipher text one block at a time. */
  method DecryptNumbersToText(cipherText: Str, d: Str, n: Str) returns (r: Result<Str, JsError>)
    ensures r == DecryptOutcome(cipherText, d, n)
  {
    var dParsed := ParseBigInt(d);
    if dParsed.Failure? {
      return Failure(dParsed.error);
    }
    var nParsed := ParseBigInt(n);
    if nParsed.Failure? {
      return Failure(nParsed.error);
    }
    r := DecryptBlocks(cipherText, dParsed.value, nParsed.value);
  }

  /** The loop of `decryptNumbersToText` once d and n are bigints. */
  method DecryptBlocks(cipherText: Str, dBig: int, nBig: int) returns (r: Result<Str, JsError>)
    ensures r == Decrypted(cipherText, dBig, nBig)
  {
    var blockSize := |BigIntToString(nBig)|;
    var result: Str := [];
    var i := 0;
    assert blockSize == BlockSize(nBig);
    assert cipherText[0..] == cipherText;
    ghost var decode := Decoder(dBig, nBig);
    ghost var whole := Decrypted(cipherText, dBig, nBig);
    // The position the loop has reached, which is i until i steps past the end.
    ghost var pos := 0;
    PrependEmpty(whole);
    while i < |cipherText|
      invariant 0 <= i && pos == Min(i, |cipherText|)
      invariant Prepend(result, DecodeAll(Cut(cipherText[pos..], blockSize), decode)) == whole
      decreases |cipherText| - i
    {
      var end := Min(i + blockSize, |cipherText|);
      var block := cipherText[i..end];
      // `if (!block) continue` never fires: the loop condition keeps the block non-empty.
      assert block != [];
      var decoded := DecodeBlockOf(block, dBig, nBig);
      assert decoded == decode(cipherText[i..end]);
      if decoded.Failure? {
        DecodeLoopFails(cipherText, i, end, blockSize, decode, result, whole);
        assert whole == Failure(decoded.error);
        return Failure(decoded.error);
      }
      DecodeLoopStep(cipherText, i, end, blockSize, decode, result, decoded.value, whole);
      result := result + [decoded.value];
      i := i + blockSize;
      pos := end;
    }
    assert cipherText[pos..] == [];
    assert result + [] == result;
    return Success(result);
  }

  /** One round of the decryption loop: the decoded block joins the result. */
  lemma DecodeLoopStep(cipher: Str, i: nat, end: nat, width: nat, decode: Str -> Result<CodeUnit, JsError>,
                       result: Str, c: CodeUnit, whole: Result<Str, JsError>)
    requires width >= 1 && i < |cipher| && end == Min(i + width, |cipher|)
    requires Prepend(result, DecodeAll(Cut(cipher[Min(i, |cipher|)..], width), decode)) == whole
    requires decode(cipher[i..end]) == Success(c)
    ensures Prepend(result + [c], DecodeAll(Cut(cipher[end..], width), decode)) == whole
  {
    assert Min(i, |cipher|) == i;
    DecodeStep(cipher, i, width, decode);
    PrependTwice(result, [c], DecodeAll(Cut(cipher[end..], width), decode));
  }

  /** A block that fails to decode ends the loop with its error. */
  lemma DecodeLoopFails(cipher: Str, i: nat, end: nat, width: nat, decode: Str -> Result<CodeUnit, JsError>,
                        result: Str, whole: Result<Str, JsError>)
    requires width >= 1 && i < |cipher| && end == Min(i + width, |cipher|)
    requires Prepend(result, DecodeAll(Cut(cipher[Min(i, |cipher|)..], width), decode)) == whole
    requires decode(cipher[i..end]).Failure?
    ensures whole == Failure(decode(cipher[i..end]).error)
  {
    assert Min(i, |cipher|) == i;
    DecodeStep(cipher, i, width, decode);
  }

  // ---------------------------------------------------------------------
  // Round trip

  /** Cutting concatenated blocks of one width gives the blocks back. */
  lemma {:induction false} CutConcat(blocks: seq<Str>, width: nat)
    requires width >= 1 && Uniform(blocks, width)
    ensures Cut(Concat(blocks), width) == blocks
    decreases |blocks|
  {
    if blocks != [] {
      var rest := Concat(blocks[1..]);
      assert Uniform(blocks[1..], width);
      CutConcat(blocks[1..], width);
      assert (blocks[0] + rest)[..width] == blocks[0];
      assert (blocks[0] + rest)[width..] == rest;
    }
  }

  /** Decoding the concatenated blocks of some numbers decodes each block. */
  lemma DecodeConcat(values: seq<int>, width: nat, decode: Str -> Result<CodeUnit, JsError>, text: Str)
    requires width >= 1 && Fits(values, width) && |values| == |text|
    requires forall i | 0 <= i < |values| :: decode(Block(values[i], width)) == Success(text[i])
    ensures DecodeAll(Cut(Concat(Blocks(values, width)), width), decode) == Success(text)
  {
    var blocks := Blocks(values, width);
    BlocksFit(values, width);
    CutConcat(blocks, width);
    DecodeAllSucceeds(blocks, decode);
    var r := DecodeAll(blocks, decode).value;
    forall i | 0 <= i < |text| ensures r[i] == text[i] {
      DecodeAllChar(blocks, decode, i);
    }
    assert r == text;
  }

  /** The block of an encrypted code unit decodes to the code unit when d
      undoes e on it. */
  lemma DecodeEncryptedUnit(c: CodeUnit, e: int, d: int, n: int)
    requires n != 0 && ModPowValue(ModPowValue(c, e, n), d, n) == c
    ensures DecodeBlock(Block(ModPowValue(c, e, n), BlockSize(n)), d, n) == Success(c)
  {
    var v := ModPowValue(c, e, n);
    BlockFits(c, e, n);
    BlockValue(v, BlockSize(n));
    ParseDigits(Block(v, BlockSize(n)));
  }

  /** Decrypting an encryption gives the text back whenever d undoes e on
      each of its code units. */
  lemma RoundTrip(text: Str, e: int, d: int, n: int)
    requires n != 0
    requires forall i | 0 <= i < |text| :: ModPowValue(ModPowValue(text[i], e, n), d, n) == text[i]
    ensures Encrypted(text, e, n).Success?
    ensures Decrypted(Encrypted(text, e, n).value, d, n) == Success(text)
  {
    var values := CipherValues(text, e, n);
    forall i | 0 <= i < |text| ensures Decoder(d, n)(Block(values[i], BlockSize(n))) == Success(text[i]) {
      DecodeEncryptedUnit(text[i], e, d, n);
    }
    CipherValuesFit(text, e, n);
    DecodeConcat(values, BlockSize(n), Decoder(d, n), text);
  }
}
