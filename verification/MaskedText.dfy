/** Masking and UTF-8: no masked value holds a partial character. */
module MaskedText {
  import opened Text
  import opened Classifier
  import opened Maskers
  import opened Utf8

  lemma PrefixedDomain(c: char, d: string)
    requires IsAscii(c)
    ensures Valid([c] + "***@" + d) <==> Valid(d)
    ensures Valid("***@" + d) <==> Valid(d)
  {
    hide Valid;
    AsciiPrefix([c] + "***@", d);
    AsciiPrefix("***@", d);
  }

  /** A masked address is valid exactly when the domain it keeps is. */
  lemma MaskedAddressValidity(v: string)
    requires Addressable(v)
    ensures Valid(MaskEmail(v)) <==> Valid(v[Find(v, '@') + 1..])
  {
    hide Valid;
    PrefixedDomain(if IsAscii(v[0]) then v[0] else '*', v[Find(v, '@') + 1..]);
  }

  lemma MaskedNumberIsAscii(category: PiiCategory, v: string)
    requires category != Email && MaskValue(category, v) != REDACTED
    ensures AllAscii(MaskValue(category, v))
  {
    DigitsAreDigits(v);
    var digits, m := Digits(v), MaskValue(category, v);
    forall i | 0 <= i < |m| ensures IsAscii(m[i]) {
      if i >= |m| - 4 {
        assert m[i] == digits[|digits| - |m| + i];
        assert m[i] in digits;
      }
    }
  }

  /** Masking a valid UTF-8 value gives a valid UTF-8 value, in every category. */
  lemma MaskPreservesUtf8(category: PiiCategory, v: string)
    requires Valid(v)
    ensures Valid(MaskValue(category, v))
  {
    AsciiIsValid(REDACTED);
    match category {
      case Email =>
        if Addressable(v) {
          ValidAfterAscii(v, Find(v, '@'));
          MaskedAddressValidity(v);
        }
      case _ =>
        if MaskValue(category, v) != REDACTED {
          MaskedNumberIsAscii(category, v);
          AsciiIsValid(MaskValue(category, v));
        }
    }
  }
}
