/** JavaScript strings as sequences of UTF-16 code units, and the string
    operations the RSA utilities and hooks rely on: `trim`, `padStart`,
    bigint `toString` and the `BigInt(string)` conversion. */
module JsString {
  import opened Wrappers
  import opened BigInt

  /** A UTF-16 code unit, what `charCodeAt` returns. */
  type CodeUnit = x: int | 0 <= x < 0x1_0000

  type Str = seq<CodeUnit>

  const Zero: CodeUnit := 48
  const Minus: CodeUnit := 45
  const Plus: CodeUnit := 43

  /** The exceptions the modelled code can raise. */
  datatype JsError =
    | SyntaxError(input: Str)  // `BigInt(s)` on a string that is not an integer
    | RangeError               // bigint division or remainder by zero

  /** WhiteSpace and LineTerminator code units, which `trim` and
      `BigInt(string)` both strip (section 12.2 and 12.3 of ECMA-262). */
  predicate IsWhiteSpace(c: CodeUnit)
  {
    if c <= 0x20 then c == 0x20 || 0x09 <= c <= 0x0D  // tab, LF, VT, FF, CR and space
    else if c < 0xA0 then false
    else
      || c == 0xA0 || c == 0x1680 || (0x2000 <= c <= 0x200A) || c == 0x2028 || c == 0x2029
      || c == 0x202F || c == 0x205F || c == 0x3000 || c == 0xFEFF
  }

  function TrimStart(s: Str): (r: Str)
    ensures |r| <= |s| && r == s[|s| - |r|..]
    ensures r == [] || !IsWhiteSpace(r[0])
    ensures forall i | 0 <= i < |s| - |r| :: IsWhiteSpace(s[i])
  {
    if s != [] && IsWhiteSpace(s[0]) then TrimStart(s[1..]) else s
  }

  function TrimEnd(s: Str): (r: Str)
    ensures |r| <= |s| && r == s[..|r|]
    ensures r == [] || !IsWhiteSpace(r[|r| - 1])
    ensures forall i | |r| <= i < |s| :: IsWhiteSpace(s[i])
  {
    if s != [] && IsWhiteSpace(s[|s| - 1]) then TrimEnd(s[..|s| - 1]) else s
  }

  /** `String.prototype.trim`. */
  function Trim(s: Str): Str
  {
    TrimEnd(TrimStart(s))
  }

  /** `trim` leaves nothing exactly when the string is all white space. */
  lemma TrimEmpty(s: Str)
    ensures Trim(s) == [] <==> forall i | 0 <= i < |s| :: IsWhiteSpace(s[i])
  {
    var t := TrimStart(s);
    assert Trim(s) == [] ==> t == [];
    if t != [] {
      assert s[|s| - |t|] == t[0];
    }
  }

  /** `trim` of a string that has no white space at either end is the string. */
  lemma TrimNoWhiteSpace(s: Str)
    requires s == [] || (!IsWhiteSpace(s[0]) && !IsWhiteSpace(s[|s| - 1]))
    ensures Trim(s) == s
  {
  }

  /** Only white space lies outside s[lo..hi]. */
  predicate WhiteOutside(s: Str, lo: nat, hi: nat)
    requires lo <= hi <= |s|
  {
    forall k | 0 <= k < |s| && !(lo <= k < hi) :: IsWhiteSpace(s[k])
  }

  /** `trim` keeps a slice of the string: only white space lies before and
      after it, and it neither starts nor ends with white space. */
  lemma TrimSlice(s: Str) returns (lo: nat, hi: nat)
    ensures lo <= hi <= |s| && Trim(s) == s[lo..hi]
    ensures lo < hi ==> !IsWhiteSpace(s[lo]) && !IsWhiteSpace(s[hi - 1])
    ensures WhiteOutside(s, lo, hi)
  {
    lo := StartSlice(s);
    hi := EndOfSuffix(s, lo);
  }

  /** `trimStart` drops the white space before position lo. */
  lemma StartSlice(s: Str) returns (lo: nat)
    ensures lo <= |s| && TrimStart(s) == s[lo..]
    ensures lo < |s| ==> !IsWhiteSpace(s[lo])
    ensures forall k | 0 <= k < lo :: IsWhiteSpace(s[k])
  {
    lo := |s| - |TrimStart(s)|;
  }

  /** `trimEnd` of the suffix from lo keeps s[lo..hi]. */
  lemma EndOfSuffix(s: Str, lo: nat) returns (hi: nat)
    requires lo <= |s|
    ensures lo <= hi <= |s| && TrimEnd(s[lo..]) == s[lo..hi]
    ensures lo < hi ==> !IsWhiteSpace(s[hi - 1])
    ensures forall k | hi <= k < |s| :: IsWhiteSpace(s[k])
  {
    var st := s[lo..];
    var len := |TrimEnd(st)|;
    hi := lo + len;
    PrefixOfSuffix(s, lo, len);
    forall k | hi <= k < |s| ensures IsWhiteSpace(s[k]) {
      assert s[k] == st[k - lo];
    }
    if lo < hi {
      assert s[hi - 1] == st[len - 1];
    }
  }

  lemma PrefixOfSuffix(s: Str, lo: nat, len: nat)
    requires lo + len <= |s|
    ensures s[lo..][..len] == s[lo..lo + len]
  {
  }

  predicate IsDigit(c: CodeUnit)
  {
    48 <= c <= 57
  }

  predicate AllDigits(s: Str)
  {
    forall i | 0 <= i < |s| :: IsDigit(s[i])
  }

  lemma AllDigitsAppend(a: Str, b: Str)
    ensures AllDigits(a + b) <==> AllDigits(a) && AllDigits(b)
  {
    if AllDigits(a + b) {
      assert forall i | 0 <= i < |b| :: b[i] == (a + b)[|a| + i];
      assert forall i | 0 <= i < |a| :: a[i] == (a + b)[i];
    }
  }

  /** The value of a string of decimal digits; leading zeros are allowed. */
  function DigitsValue(s: Str): (v: nat)
    requires AllDigits(s)
  {
    if s == [] then 0 else 10 * DigitsValue(s[..|s| - 1]) + (s[|s| - 1] - Zero)
  }

  /** The decimal representation of a natural number, no leading zeros. */
  function Decimal(n: nat): (r: Str)
    ensures |r| >= 1 && AllDigits(r)
    ensures |r| > 1 ==> r[0] != Zero
  {
    if n < 10 then [(Zero + n) as CodeUnit] else Decimal(n / 10) + [(Zero + n % 10) as CodeUnit]
  }

  /** Reading back a decimal representation gives the number. */
  lemma {:induction false} DecimalValue(n: nat)
    ensures DigitsValue(Decimal(n)) == n
  {
    if n >= 10 {
      DecimalValue(n / 10);
      var d := Decimal(n);
      assert d[..|d| - 1] == Decimal(n / 10);
    }
  }

  /** A larger number never has fewer digits. */
  lemma {:induction false} DecimalLengthMonotonic(a: nat, b: nat)
    requires a <= b
    ensures |Decimal(a)| <= |Decimal(b)|
  {
    if a >= 10 {
      DecimalLengthMonotonic(a / 10, b / 10);
    }
  }

  /** `bigint.toString()`. */
  function BigIntToString(x: int): (r: Str)
    ensures |r| >= 1
  {
    if x < 0 then [Minus] + Decimal(-x) else Decimal(x)
  }

  function Zeros(k: nat): (r: Str)
    ensures |r| == k && AllDigits(r)
    ensures forall i | 0 <= i < k :: r[i] == Zero
  {
    if k == 0 then [] else [Zero] + Zeros(k - 1)
  }

  /** `s.padStart(width, '0')`. */
  function PadStart(s: Str, width: nat): (r: Str)
    ensures |r| == if |s| >= width then |s| else width
    ensures r == Zeros(|r| - |s|) + s
  {
    if |s| >= width then s else Zeros(width - |s|) + s
  }

  /** Padding is at least `width` long and ends in the string; a digit string
      stays all digits and keeps its value. */
  lemma PadStartValue(s: Str, width: nat)
    ensures |PadStart(s, width)| >= width && PadStart(s, width)[|PadStart(s, width)| - |s|..] == s
    ensures AllDigits(s) ==> AllDigits(PadStart(s, width)) && DigitsValue(PadStart(s, width)) == DigitsValue(s)
  {
    var r := PadStart(s, width);
    assert r[|r| - |s|..] == s;
    if AllDigits(s) {
      LeadingZerosValue(|r| - |s|, s);
    }
  }

  /** Leading zeros do not change the value of a digit string. */
  lemma {:induction false} LeadingZerosValue(k: nat, s: Str)
    requires AllDigits(s)
    ensures AllDigits(Zeros(k) + s) && DigitsValue(Zeros(k) + s) == DigitsValue(s)
    decreases |s|
  {
    var z := Zeros(k) + s;
    assert AllDigits(z);
    if s == [] {
      assert z == Zeros(k);
      ZerosValue(k);
    } else {
      LeadingZerosValue(k, s[..|s| - 1]);
      assert z[..|z| - 1] == Zeros(k) + s[..|s| - 1];
    }
  }

  lemma {:induction false} ZerosValue(k: nat)
    ensures DigitsValue(Zeros(k)) == 0
  {
    AllZeroValue(Zeros(k));
  }

  lemma {:induction false} AllZeroValue(s: Str)
    requires forall i | 0 <= i < |s| :: s[i] == Zero
    ensures AllDigits(s) && DigitsValue(s) == 0
  {
    if s != [] {
      AllZeroValue(s[..|s| - 1]);
    }
  }

  /** The digit string of a bigint literal, after the optional sign. */
  function SignedDigits(t: Str): Str
  {
    if t != [] && (t[0] == Minus || t[0] == Plus) then t[1..] else t
  }

  /** `BigInt(s)` for a string `s`: surrounding white space is ignored, the
      empty string is 0, and otherwise an optional sign must be followed by
      one or more decimal digits; anything else throws a SyntaxError. */
  function ParseBigInt(s: Str): (r: Result<int, JsError>)
    ensures r.Failure? ==> r.error == SyntaxError(s)
  {
    var t := Trim(s);
    var digits := SignedDigits(t);
    if t == [] then Success(0)
    else if digits == [] || !AllDigits(digits) then Failure(SyntaxError(s))
    else if t[0] == Minus then Success(-(DigitsValue(digits) as int))
    else Success(DigitsValue(digits))
  }

  /** Parsing the string of a bigint gives back the bigint. */
  lemma ParseToString(x: int)
    ensures ParseBigInt(BigIntToString(x)) == Success(x)
  {
    var s := BigIntToString(x);
    var a: nat := if x < 0 then -x else x;
    var d := Decimal(a);
    assert IsDigit(d[0]) && IsDigit(d[|d| - 1]);
    assert s[|s| - 1] == d[|d| - 1];
    assert !IsWhiteSpace(s[0]) && !IsWhiteSpace(s[|s| - 1]);
    TrimNoWhiteSpace(s);
    DecimalValue(a);
    if x < 0 {
      assert s[1..] == d;
      assert SignedDigits(Trim(s)) == d;
    } else {
      assert SignedDigits(Trim(s)) == d;
    }
  }

  /** A non-empty string of digits parses to its digit value. */
  lemma ParseDigits(s: Str)
    requires s != [] && AllDigits(s)
    ensures ParseBigInt(s) == Success(DigitsValue(s))
  {
    TrimNoWhiteSpace(s);
  }

  /** In a string that is digits between white space, every slice parses
      as a bigint: trimmed, it is empty (0) or digits only. */
  lemma ParsePaddedSlice(s: Str, a: nat, b: nat, sub: Str)
    requires AllDigits(Trim(s)) && a <= b <= |s| && sub == s[a..b]
    ensures ParseBigInt(sub).Success?
  {
    var lo, hi := TrimSlice(s);
    var l2, h2 := TrimSlice(sub);
    DigitsBetween(s, lo, hi, a, b, sub, l2, h2);
    ParseTrimmedDigits(sub);
  }

  /** A slice whose ends are not white space, inside a string whose white
      space is all outside a run of digits, is digits only. */
  lemma DigitsBetween(s: Str, lo: nat, hi: nat, a: nat, b: nat, sub: Str, l2: nat, h2: nat)
    requires lo <= hi <= |s| && WhiteOutside(s, lo, hi) && AllDigits(s[lo..hi])
    requires a <= b <= |s| && sub == s[a..b] && l2 <= h2 <= |sub|
    requires l2 < h2 ==> !IsWhiteSpace(sub[l2]) && !IsWhiteSpace(sub[h2 - 1])
    ensures AllDigits(sub[l2..h2])
  {
    if l2 < h2 {
      assert sub[l2] == s[a + l2] && sub[h2 - 1] == s[a + h2 - 1];
      assert lo <= a + l2 && a + h2 <= hi;
      forall k | 0 <= k < h2 - l2 ensures IsDigit(sub[l2..h2][k]) {
        assert sub[l2..h2][k] == s[lo..hi][a + l2 + k - lo];
      }
    }
  }

  /** A string that trims to digits only (or to nothing) parses. */
  lemma ParseTrimmedDigits(s: Str)
    requires AllDigits(Trim(s))
    ensures ParseBigInt(s).Success?
  {
    var t := Trim(s);
    if t != [] {
      assert IsDigit(t[0]);
      assert SignedDigits(t) == t;
    }
  }

  /** The value of a three-digit string. */
  lemma ThreeDigits(a: CodeUnit, b: CodeUnit, c: CodeUnit)
    requires IsDigit(a) && IsDigit(b) && IsDigit(c)
    ensures AllDigits([a, b, c])
    ensures DigitsValue([a, b, c]) == 100 * (a - Zero) + 10 * (b - Zero) + (c - Zero)
  {
    assert [a][..0] == [];
    assert DigitsValue([a]) == a - Zero;
    assert [a, b][..1] == [a];
    assert DigitsValue([a, b]) == 10 * (a - Zero) + (b - Zero);
    assert [a, b, c][..2] == [a, b];
  }

  /** The value of a digit string of one to three digits. */
  lemma ShortDigitsValue(s: Str)
    requires 1 <= |s| <= 3 && AllDigits(s)
    ensures DigitsValue(s) == if |s| == 1 then s[0] - Zero
                              else if |s| == 2 then 10 * (s[0] - Zero) + (s[1] - Zero)
                              else 100 * (s[0] - Zero) + 10 * (s[1] - Zero) + (s[2] - Zero)
  {
    if |s| == 1 {
      assert s[..0] == [];
    } else if |s| == 2 {
      assert s[..1] == [s[0]] && [s[0]][..0] == [];
    } else {
      assert s == [s[0], s[1], s[2]];
      ThreeDigits(s[0], s[1], s[2]);
    }
  }

  /** Short digit strings parse to their value. */
  lemma ParseShortDigits(s: Str, v: nat)
    requires 1 <= |s| <= 3 && AllDigits(s)
    requires v == if |s| == 1 then s[0] - Zero
                  else if |s| == 2 then 10 * (s[0] - Zero) + (s[1] - Zero)
                  else 100 * (s[0] - Zero) + 10 * (s[1] - Zero) + (s[2] - Zero)
    ensures ParseBigInt(s) == Success(v)
  {
    ShortDigitsValue(s);
    ParseDigits(s);
  }
}
