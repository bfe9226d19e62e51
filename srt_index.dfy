/**
 * The index line of a subtitle block: decimal digits only, with a value
 * that fits in 32 unsigned bits.
 */
module SrtIndices {
  import opened Wrappers
  import opened Text

  /** The only characters an index may contain. */
  const PermittedChars: string := "0123456789"

  const U32Max: nat := 4294967295

  type U32 = x: nat | x <= 4294967295

  /**
   * A block's index. Files are expected to number their blocks 1, 2, 3, ...,
   * but nothing at this level checks that.
   */
  datatype SrtIndex = SrtIndex(value: U32)

  datatype SrtIndexError = EmptyIndex | IndexExceedsMaxU32Size | IndexContainsDisallowedChars

  predicate Permitted(s: string) {
    forall x :: x in s ==> x in PermittedChars
  }

  /** The character whitelist is exactly "all characters are decimal digits". */
  lemma PermittedIsDigits(s: string)
    ensures Permitted(s) <==> AllDigits(s)
  {
    if Permitted(s) {
      forall k | 0 <= k < |s| ensures IsDigit(s[k]) {
        assert s[k] in s;
      }
    }
    if AllDigits(s) {
      forall x | x in s ensures x in PermittedChars {
        var k :| 0 <= k < |s| && s[k] == x;
        assert IsDigit(s[k]);
      }
    }
  }

  /** `SrtIndex::from_str`. */
  function Parse(s: string): (r: Result<SrtIndex, SrtIndexError>)
    ensures r == Err(EmptyIndex) <==> s == []
    ensures r == Err(IndexContainsDisallowedChars) <==> s != [] && !AllDigits(s)
    ensures r == Err(IndexExceedsMaxU32Size) <==> s != [] && AllDigits(s) && DecimalValue(s) > U32Max
    ensures r.Ok? ==> s != [] && AllDigits(s) && r.value.value == DecimalValue(s)
  {
    PermittedIsDigits(s);
    if s == [] then Err(EmptyIndex)
    else if !Permitted(s) then Err(IndexContainsDisallowedChars)
    else
      var n := DecimalValue(s);
      if n > U32Max then Err(IndexExceedsMaxU32Size) else Ok(SrtIndex(n))
  }

  /**
   * The parser accepts exactly the decimal renderings of values up to
   * 2^32 - 1, with any number of leading zeros, and returns that value.
   */
  lemma ParseExactly(s: string, n: U32)
    ensures Parse(s) == Ok(SrtIndex(n)) <==> exists k: nat :: s == Zeros(k) + Digits(n)
  {
    if Parse(s) == Ok(SrtIndex(n)) {
      DigitsWithLeadingZeros(s);
      if n == 0 {
        assert s == Zeros(|s| - 1) + Digits(0);
      } else {
        assert s == Zeros(|s| - |Digits(n)|) + Digits(n);
      }
    }
    if exists k: nat :: s == Zeros(k) + Digits(n) {
      var k: nat :| s == Zeros(k) + Digits(n);
      LeadingZeros(k, Digits(n));
    }
  }

  /** A value above 2^32 - 1 is rejected as too large, whatever its padding. */
  lemma ParseTooLarge(k: nat, n: nat)
    requires n > U32Max
    ensures Parse(Zeros(k) + Digits(n)) == Err(IndexExceedsMaxU32Size)
  {
    LeadingZeros(k, Digits(n));
  }

  /** The examples: three accepted indices, one too large, one with a letter. */
  lemma ParseExamples()
    ensures Parse("0") == Ok(SrtIndex(0))
    ensures Parse("42") == Ok(SrtIndex(42))
    ensures Parse("4294967295") == Ok(SrtIndex(4294967295))
    ensures Parse("4294967296") == Err(IndexExceedsMaxU32Size)
    ensures Parse("12a") == Err(IndexContainsDisallowedChars)
  {
    assert !IsDigit("12a"[2]);
    TenDigits("4294967295");
    TenDigits("4294967296");
  }

  /** The value of a ten-digit text, one digit at a time. */
  lemma TenDigits(s: string)
    requires |s| == 10 && AllDigits(s)
    ensures DecimalValue(s) ==
      ((((((((DigitValue(s[0]) * 10 + DigitValue(s[1])) * 10 + DigitValue(s[2])) * 10
      + DigitValue(s[3])) * 10 + DigitValue(s[4])) * 10 + DigitValue(s[5])) * 10
      + DigitValue(s[6])) * 10 + DigitValue(s[7])) * 10 + DigitValue(s[8])) * 10 + DigitValue(s[9])
  {
    DecimalPrefix(s, 0); DecimalPrefix(s, 1); DecimalPrefix(s, 2); DecimalPrefix(s, 3);
    DecimalPrefix(s, 4); DecimalPrefix(s, 5); DecimalPrefix(s, 6); DecimalPrefix(s, 7);
    DecimalPrefix(s, 8); DecimalPrefix(s, 9);
    assert s[..0] == [] && s[..10] == s;
  }

  lemma DecimalPrefix(s: string, k: nat)
    requires 0 <= k < |s| && AllDigits(s)
    ensures AllDigits(s[..k + 1]) && DecimalValue(s[..k + 1]) == 10 * DecimalValue(s[..k]) + DigitValue(s[k])
  {
    assert s[..k + 1][..k] == s[..k];
  }
}
