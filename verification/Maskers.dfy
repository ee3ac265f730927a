/** The three byte-level masking rules and what exactly they keep of a value. */
module Maskers {
  import opened Text
  import opened Classifier

  const REDACTED := "***"

  // ---- The rules

  /** Exactly one '@', with something on both sides of it. */
  predicate Addressable(v: string) {
    var at := Find(v, '@');
    0 < at < |v| - 1 && '@' !in v[at + 1..]
  }

  function MaskEmail(v: string): string {
    if !Addressable(v) then REDACTED
    else
      var domain := v[Find(v, '@') + 1..];
      if v[0] >= '\U{80}' then "***@" + domain else [v[0]] + "***@" + domain
  }

  function Digits(v: string): string {
    if v == [] then []
    else
      var c := v[|v| - 1];
      Digits(v[..|v| - 1]) + if IsDigit(c) then [c] else []
  }

  function LastFour(v: string): string
    requires |v| >= 4
  {
    v[|v| - 4..]
  }

  function MaskPhone(v: string): string {
    if |Digits(v)| < 7 then REDACTED else "***" + LastFour(Digits(v))
  }

  predicate CardBytes(v: string) {
    forall c :: c in v ==> IsDigit(c) || c == ' ' || c == '-'
  }

  function MaskCreditCard(v: string): string {
    if !CardBytes(v) || |Digits(v)| < 12 then REDACTED else "****" + LastFour(Digits(v))
  }

  function MaskValue(category: PiiCategory, v: string): string {
    match category
    case Email => MaskEmail(v)
    case Phone => MaskPhone(v)
    case CreditCard => MaskCreditCard(v)
  }

  // ---- The rules as scans over the bytes

  method MaskEmailBytes(v: string) returns (r: string)
    ensures r == MaskEmail(v)
  {
    var atCount, atPos := 0, 0;
    for i := 0 to |v|
      invariant atCount == 0 ==> '@' !in v[..i]
      invariant atCount > 0 ==> atPos < i && v[atPos] == '@' && '@' !in v[atPos + 1..i]
      invariant atCount == 1 ==> '@' !in v[..atPos]
      invariant atCount > 1 ==> exists k :: 0 <= k < atPos && v[k] == '@'
    {
      assert v[..i + 1] == v[..i] + [v[i]];
      if v[i] == '@' {
        atCount := atCount + 1;
        atPos := i;
      } else if atCount > 0 {
        assert v[atPos + 1..i + 1] == v[atPos + 1..i] + [v[i]];
      }
    }
    assert v[..|v|] == v;
    ghost var at := Find(v, '@');
    if atCount == 1 {
      FindAt(v, '@', atPos);
      assert v[atPos + 1..|v|] == v[atPos + 1..];
    } else if atCount > 1 {
      ghost var k :| 0 <= k < atPos && v[k] == '@';
      assert forall i :: 0 <= i < at ==> v[i] == v[..at][i];
      assert at < |v| - 1 && v[at + 1..][atPos - at - 1] == '@';
    }
    if atCount != 1 || atPos == 0 || atPos == |v| - 1 {
      return REDACTED;
    }
    var domain := v[atPos + 1..];
    if v[0] >= '\U{80}' {
      return "***@" + domain;
    }
    r := [v[0]] + "***@" + domain;
  }

  method MaskPhoneBytes(v: string) returns (r: string)
    ensures r == MaskPhone(v)
  {
    var digits := "";
    for i := 0 to |v|
      invariant digits == Digits(v[..i])
    {
      assert v[..i + 1][..i] == v[..i];
      if '0' <= v[i] <= '9' {
        digits := digits + [v[i]];
      }
    }
    assert v[..|v|] == v;
    if |digits| < 7 {
      return REDACTED;
    }
    r := "***" + digits[|digits| - 4..];
  }

  method MaskCreditCardBytes(v: string) returns (r: string)
    ensures r == MaskCreditCard(v)
  {
    var digits := "";
    for i := 0 to |v|
      invariant digits == Digits(v[..i])
      invariant CardBytes(v[..i])
    {
      assert v[..i + 1][..i] == v[..i];
      assert v[..i + 1] == v[..i] + [v[i]];
      if v[i] == ' ' || v[i] == '-' {
        continue;
      }
      if v[i] < '0' || v[i] > '9' {
        assert v[i] in v;
        return REDACTED;
      }
      digits := digits + [v[i]];
    }
    assert v[..|v|] == v;
    if |digits| < 12 {
      return REDACTED;
    }
    r := "****" + digits[|digits| - 4..];
  }

  method MaskBytes(category: PiiCategory, v: string) returns (r: string)
    ensures r == MaskValue(category, v)
  {
    match category
    case Email => r := MaskEmailBytes(v);
    case Phone => r := MaskPhoneBytes(v);
    case CreditCard => r := MaskCreditCardBytes(v);
  }

  // ---- The rules without the scans

  /** v is local@domain, both parts non-empty and without another at-sign. */
  ghost predicate IsAddress(v: string, local: string, domain: string) {
    v == local + "@" + domain && local != "" && domain != "" && '@' !in local && '@' !in domain
  }

  /** An address keeps its domain and, when that is ASCII, its first byte. */
  lemma AddressRule(v: string, local: string, domain: string)
    requires IsAddress(v, local, domain)
    ensures MaskValue(Email, v) ==
      if local[0] as int < 128 then [local[0]] + "***@" + domain else "***@" + domain
  {
    hide Find;
    assert v[..|local|] == local && v[|local| + 1..] == domain;
    FindAt(v, '@', |local|);
    assert Addressable(v);
  }

  /** Anything else in an email column is redacted. */
  lemma NotAddressRule(v: string)
    requires forall local, domain :: !IsAddress(v, local, domain)
    ensures MaskValue(Email, v) == "***"
  {
    if Addressable(v) {
      var at := Find(v, '@');
      assert v == v[..at] + "@" + v[at + 1..];
      assert IsAddress(v, v[..at], v[at + 1..]);
    }
  }

  function DigitIn(c: char): Option<char> {
    if 48 <= c as int <= 57 then Some(c) else None
  }

  lemma {:induction false} DigitsPicked(v: string)
    ensures Picks(v, DigitIn, Digits(v))
  {
    hide Picks;
    if v == [] {
      PicksNothing(DigitIn);
    } else {
      var front, last := v[..|v| - 1], v[|v| - 1];
      DigitsPicked(front);
      PicksSnoc(front, DigitIn, Digits(front), last);
      assert front + [last] == v;
      assert Digits(v) == Digits(front) + if DigitIn(last).Some? then [DigitIn(last).value] else [];
    }
  }

  /** Phones keep the last four of at least 7 digits, cards of at least 12 among digits, spaces and hyphens. */
  lemma NumberRules(v: string) returns (digits: string)
    ensures Picks(v, DigitIn, digits)
    ensures MaskValue(Phone, v) == if |digits| >= 7 then "***" + digits[|digits| - 4..] else "***"
    ensures MaskValue(CreditCard, v) ==
      if |digits| >= 12 && forall i :: 0 <= i < |v| ==> DigitIn(v[i]).Some? || v[i] as int == 32 || v[i] as int == 45
      then "****" + digits[|digits| - 4..] else "***"
  {
    hide Picks, Digits;
    digits := Digits(v);
    DigitsPicked(v);
    forall i | 0 <= i < |v| ensures v[i] in v {}
  }

  // ---- What a masked value reveals: exactly the retained part

  datatype Retained =
    | Nothing
    | Address(first: Option<char>, domain: string)
    | Tail(digits: string)

  function RetainedOf(category: PiiCategory, v: string): Retained {
    match category
    case Email =>
      if Addressable(v)
      then Address(if v[0] < '\U{80}' then Some(v[0]) else None, v[Find(v, '@') + 1..])
      else Nothing
    case Phone =>
      if |Digits(v)| >= 7 then Tail(LastFour(Digits(v))) else Nothing
    case CreditCard =>
      if CardBytes(v) && |Digits(v)| >= 12 then Tail(LastFour(Digits(v))) else Nothing
  }

  /** Two values mask to the same text exactly when their retained parts agree: nothing else leaks, nothing is lost. */
  lemma MaskRevealsRetained(category: PiiCategory, v: string, w: string)
    ensures MaskValue(category, v) == MaskValue(category, w) <==> RetainedOf(category, v) == RetainedOf(category, w)
  {
    var m, m' := MaskValue(category, v), MaskValue(category, w);
    match category {
      case Email =>
        if Addressable(v) && Addressable(w) {
          AddressFromMask(v);
          AddressFromMask(w);
        }
      case _ =>
        if |m| > 3 && |m'| > 3 {
          assert LastFour(m) == LastFour(Digits(v));
          assert LastFour(m') == LastFour(Digits(w));
        }
    }
  }

  /** Reading a masked address back: its first byte if the fifth byte is '@', and what follows that '@'. */
  lemma AddressFromMask(v: string)
    requires Addressable(v)
    ensures var m := MaskEmail(v); var d := v[Find(v, '@') + 1..];
      if v[0] < '\U{80}'
      then |m| >= 5 && m[3] == '*' && m[0] == v[0] && m[5..] == d
      else |m| >= 4 && m[3] == '@' && m[4..] == d
  {
    var d := v[Find(v, '@') + 1..];
    var m := MaskEmail(v);
    if v[0] < '\U{80}' {
      assert m == ([v[0]] + "***@") + d;
    } else {
      assert m == "***@" + d;
    }
  }

  lemma MaskNeverEmpty(category: PiiCategory, v: string)
    ensures MaskValue(category, v) != ""
  {
  }

  // ---- Fixed points and saturation

  /** c***@d with an ASCII c that is not '@' and a non-empty '@'-free d. */
  predicate MaskedAddress(v: string) {
    && |v| > 5
    && v[0] < '\U{80}' && v[0] != '@'
    && v[1..5] == "***@"
    && '@' !in v[5..]
  }

  lemma MaskedAddressIsAddressable(v: string)
    requires MaskedAddress(v)
    ensures Addressable(v) && MaskEmail(v) == v
  {
    assert v[1] == v[1..5][0] && v[2] == v[1..5][1] && v[3] == v[1..5][2] && v[4] == v[1..5][3];
    assert v[..4] == [v[0], v[1], v[2], v[3]];
    FindAt(v, '@', 4);
    assert v == [v[0]] + v[1..5] + v[5..];
  }

  lemma {:induction false} DigitsAreDigits(v: string)
    ensures |Digits(v)| <= |v|
    ensures forall c :: c in Digits(v) ==> IsDigit(c)
    ensures (forall c :: c in v ==> IsDigit(c)) ==> Digits(v) == v
  {
    if v != [] {
      DigitsAreDigits(v[..|v| - 1]);
      assert v == v[..|v| - 1] + [v[|v| - 1]];
    }
  }

  lemma {:induction false} DigitsOfConcat(v: string, w: string)
    ensures Digits(v + w) == Digits(v) + Digits(w)
  {
    if w == [] {
      assert v + w == v;
    } else {
      assert (v + w)[..|v + w| - 1] == v + w[..|w| - 1];
      DigitsOfConcat(v, w[..|w| - 1]);
    }
  }

  lemma DigitsOfRedacted()
    ensures Digits("***") == "" && Digits("****") == ""
  {
    assert Digits("*") == "" by { assert "*"[..0] == ""; }
    DigitsOfConcat("*", "*");
    assert "*" + "*" == "**";
    DigitsOfConcat("**", "*");
    assert "**" + "*" == "***";
    DigitsOfConcat("***", "*");
    assert "***" + "*" == "****";
  }

  /** A masked number keeps four digits, too few to be kept again. */
  lemma MaskedTailIsRedacted(category: PiiCategory, prefix: string, tail: string)
    requires category != Email
    requires prefix == "***" || prefix == "****"
    requires |tail| == 4 && forall c :: c in tail ==> IsDigit(c)
    ensures MaskValue(category, prefix + tail) == REDACTED
  {
    DigitsOfRedacted();
    DigitsOfConcat(prefix, tail);
    DigitsAreDigits(tail);
  }

  lemma RedactedStaysRedacted(category: PiiCategory)
    ensures MaskValue(category, REDACTED) == REDACTED
  {
    DigitsOfRedacted();
    assert '@' !in REDACTED;
    FindAt(REDACTED, '@', 3);
  }

  /** What masking leaves after one pass. */
  lemma MaskForms(category: PiiCategory, v: string)
    ensures var m := MaskValue(category, v);
      || m == REDACTED
      || (category == Email && MaskedAddress(m))
      || (category == Email && Addressable(v) && v[0] >= '\U{80}' && m == "***@" + v[Find(v, '@') + 1..])
      || (category == Phone && exists t :: m == "***" + t && |t| == 4 && forall c :: c in t ==> IsDigit(c))
      || (category == CreditCard && exists t :: m == "****" + t && |t| == 4 && forall c :: c in t ==> IsDigit(c))
  {
    match category {
      case Email =>
        if Addressable(v) && v[0] < '\U{80}' {
          var at := Find(v, '@');
          var d := v[at + 1..];
          var m := MaskEmail(v);
          assert m == ([v[0]] + "***@") + d;
          assert m[1..5] == "***@" && m[5..] == d;
          assert v[..at][0] == v[0];
        }
      case _ =>
        DigitsAreDigits(v);
        if |Digits(v)| >= 7 {
          var t := LastFour(Digits(v));
          assert forall c :: c in t ==> c in Digits(v);
        }
    }
  }

  /** The exact fixed points: every other value changes. */
  lemma MaskFixedPoints(category: PiiCategory, v: string)
    ensures MaskValue(category, v) == v <==> v == REDACTED || (category == Email && MaskedAddress(v))
  {
    RedactedStaysRedacted(category);
    MaskForms(category, v);
    var m := MaskValue(category, v);
    if category == Email {
      if MaskedAddress(v) { MaskedAddressIsAddressable(v); }
    } else if m != REDACTED && m == v {
      var prefix := if category == Phone then "***" else "****";
      var t :| m == prefix + t && |t| == 4 && forall c :: c in t ==> IsDigit(c);
      MaskedTailIsRedacted(category, prefix, t);
    }
  }

  /** An address whose first byte is not ASCII becomes ***@d, which masks once more to ****@d. */
  lemma BareAddressSettles(d: string)
    requires d != "" && '@' !in d
    ensures MaskEmail("***@" + d) == "****@" + d && MaskedAddress("****@" + d)
  {
    var v := "***@" + d;
    assert v[..3] == "***";
    FindAt(v, '@', 3);
    assert v[4..] == d;
    var m := "****@" + d;
    assert [v[0]] + "***@" + d == m;
    assert m[1..5] == "***@" && m[5..] == d;
  }

  /** Masking is not idempotent, but a second pass always reaches a fixed point. */
  lemma MaskSaturates(category: PiiCategory, v: string)
    ensures var two := MaskValue(category, MaskValue(category, v)); MaskValue(category, two) == two
  {
    var one := MaskValue(category, v);
    MaskForms(category, v);
    RedactedStaysRedacted(category);
    if one != REDACTED {
      if category == Email {
        if MaskedAddress(one) {
          MaskedAddressIsAddressable(one);
        } else {
          BareAddressSettles(v[Find(v, '@') + 1..]);
          MaskedAddressIsAddressable(MaskEmail(one));
        }
      } else {
        var prefix := if category == Phone then "***" else "****";
        var t :| one == prefix + t && |t| == 4 && forall c :: c in t ==> IsDigit(c);
        MaskedTailIsRedacted(category, prefix, t);
      }
    }
  }

  /** One pass is already stable exactly for values that are redacted and for addresses with an ASCII first byte. */
  lemma MaskIdempotentExactly(category: PiiCategory, v: string)
    ensures MaskValue(category, MaskValue(category, v)) == MaskValue(category, v)
       <==> RetainedOf(category, v) == Nothing || (category == Email && v[0] < '\U{80}')
  {
    MaskFixedPoints(category, MaskValue(category, v));
    MaskForms(category, v);
    if category == Email && Addressable(v) {
      AddressFromMask(v);
    }
  }
}
