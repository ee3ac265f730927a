/** Decimal digits, printf-style zero padding and the byte order of std::string. */
module Decimal {
  import opened Text

  predicate AllDigits(s: string) {
    forall i :: 0 <= i < |s| ==> IsDigit(s[i])
  }

  function DigitChar(d: nat): (c: char)
    requires d < 10
    ensures IsDigit(c) && DigitValue(c) == d
  {
    '0' + d as char
  }

  function DigitValue(c: char): (d: nat)
    requires IsDigit(c)
    ensures d < 10
  {
    (c - '0') as int
  }

  function Pow10(w: nat): (p: nat)
    ensures p > 0
  {
    if w == 0 then 1 else 10 * Pow10(w - 1)
  }

  function Print(n: nat): (s: string)
    ensures AllDigits(s) && s != ""
  {
    if n < 10 then [DigitChar(n)] else Print(n / 10) + [DigitChar(n % 10)]
  }

  function Value(s: string): nat
    requires AllDigits(s)
  {
    if s == [] then 0 else Value(s[..|s| - 1]) * 10 + DigitValue(s[|s| - 1])
  }

  lemma {:induction false} ValueOfPrint(n: nat)
    ensures Value(Print(n)) == n
  {
    if n < 10 {
      assert [DigitChar(n)][..0] == [];
    } else {
      ValueOfPrint(n / 10);
      assert Print(n)[..|Print(n)| - 1] == Print(n / 10);
    }
  }

  lemma {:induction false} PrintLength(n: nat, w: nat)
    requires w > 0
    ensures n < Pow10(w) <==> |Print(n)| <= w
  {
    if n >= 10 {
      if w > 1 {
        PrintLength(n / 10, w - 1);
      }
    }
  }

  function Zeros(n: nat): (s: string)
    ensures |s| == n && AllDigits(s)
  {
    seq(n, _ => '0')
  }

  function Pad(s: string, w: nat): string {
    if |s| < w then Zeros(w - |s|) + s else s
  }

  lemma {:induction false} LeadingZeros(k: nat, s: string)
    requires AllDigits(s)
    ensures AllDigits(Zeros(k) + s) && Value(Zeros(k) + s) == Value(s)
  {
    if s != [] {
      assert (Zeros(k) + s)[..|Zeros(k) + s| - 1] == Zeros(k) + s[..|s| - 1];
      LeadingZeros(k, s[..|s| - 1]);
    } else {
      assert Zeros(k) + s == Zeros(k);
      if k > 0 {
        assert Zeros(k)[..k - 1] == Zeros(k - 1);
        LeadingZeros(k - 1, s);
        assert Zeros(k - 1) + s == Zeros(k - 1);
      }
    }
  }

  /** printf("%0wd", n): zero-padded to w columns, a minus sign taking one of them. */
  function Printf(w: nat, n: int): string
    requires w > 0
  {
    if n < 0 then "-" + Pad(Print(-n), w - 1) else Pad(Print(n), w)
  }

  lemma PrintfFits(w: nat, n: nat)
    requires w > 0
    ensures AllDigits(Printf(w, n)) && Value(Printf(w, n)) == n
    ensures |Printf(w, n)| >= w
    ensures |Printf(w, n)| == w <==> n < Pow10(w)
  {
    ValueOfPrint(n);
    PrintLength(n, w);
    if |Print(n)| < w {
      LeadingZeros(w - |Print(n)|, Print(n));
    }
  }

  /** A negative number: a minus sign, then its digits, padded as far as the sign leaves room. */
  lemma SignedPrintf(w: nat, n: int)
    requires w > 1 && n < 0
    ensures var s := Printf(w, n);
      && s[0] == '-' && AllDigits(s[1..]) && Value(s[1..]) == -n
      && |s| >= w && (|s| == w <==> -n < Pow10(w - 1))
  {
    hide Pad, Print;
    PrintfFits(w - 1, -n);
    assert Printf(w, n)[1..] == Printf(w - 1, -n);
  }

  // ---- Lexicographic order

  /** std::string's operator<. */
  predicate LexLess(s: string, t: string) {
    t != [] && (s == [] || s[0] < t[0] || (s[0] == t[0] && LexLess(s[1..], t[1..])))
  }

  /** s and t agree on the first k bytes; then s ends or has the smaller byte. */
  ghost predicate FirstDiffersAt(s: string, t: string, k: nat) {
    k <= |s| && k < |t| && s[..k] == t[..k] && (k == |s| || s[k] < t[k])
  }

  /** The order is decided by the first difference. */
  lemma {:induction false} LexLessMeans(s: string, t: string)
    ensures LexLess(s, t) <==> exists k: nat :: FirstDiffersAt(s, t, k)
  {
    forall k: nat | FirstDiffersAt(s, t, k) && k > 0 ensures s != [] && s[0] == t[0] {
      assert s[..k][0] == t[..k][0];
    }
    if s != [] && t != [] && s[0] == t[0] {
      LexLessMeans(s[1..], t[1..]);
      if k: nat :| FirstDiffersAt(s[1..], t[1..], k) {
        assert s[..k + 1] == [s[0]] + s[1..][..k] && t[..k + 1] == [t[0]] + t[1..][..k];
        assert FirstDiffersAt(s, t, k + 1);
      }
      if k: nat :| FirstDiffersAt(s, t, k) {
        assert s[1..][..k - 1] == s[..k][1..] && t[1..][..k - 1] == t[..k][1..];
        assert FirstDiffersAt(s[1..], t[1..], k - 1);
      }
    } else if LexLess(s, t) {
      assert FirstDiffersAt(s, t, 0);
    }
  }

  lemma {:induction false} LexLessExtends(s: string, t: string, x: string, y: string)
    requires |s| == |t| && LexLess(s, t)
    ensures LexLess(s + x, t + y)
  {
    if s != [] && s[0] == t[0] {
      assert (s + x)[1..] == s[1..] + x && (t + y)[1..] == t[1..] + y;
      LexLessExtends(s[1..], t[1..], x, y);
    }
  }

  lemma {:induction false} LexLessAfterPrefix(p: string, x: string, y: string)
    ensures LexLess(p + x, p + y) <==> LexLess(x, y)
  {
    if p == [] {
      assert p + x == x && p + y == y;
    } else {
      assert (p + x)[1..] == p[1..] + x && (p + y)[1..] == p[1..] + y;
      LexLessAfterPrefix(p[1..], x, y);
    }
  }

  lemma {:induction false} LexLessIrreflexive(s: string)
    ensures !LexLess(s, s)
  {
    if s != [] { LexLessIrreflexive(s[1..]); }
  }

  lemma {:induction false} LexLessTotal(s: string, t: string)
    ensures s == t || LexLess(s, t) || LexLess(t, s)
  {
    if s != [] && t != [] && s[0] == t[0] {
      LexLessTotal(s[1..], t[1..]);
      if s[1..] == t[1..] {
        assert s == [s[0]] + s[1..] && t == [t[0]] + t[1..];
      }
    }
  }

  lemma {:induction false} LexLessTransitive(s: string, t: string, u: string)
    requires LexLess(s, t) && LexLess(t, u)
    ensures LexLess(s, u)
  {
    if s != [] && s[0] == t[0] && t[0] == u[0] {
      LexLessTransitive(s[1..], t[1..], u[1..]);
    }
  }

  lemma {:induction false} ValueInjective(s: string, t: string)
    requires AllDigits(s) && AllDigits(t) && |s| == |t| && Value(s) == Value(t)
    ensures s == t
  {
    if s != [] {
      ValueInjective(s[..|s| - 1], t[..|t| - 1]);
      assert s == s[..|s| - 1] + [s[|s| - 1]] && t == t[..|t| - 1] + [t[|t| - 1]];
    }
  }

  /** Digit strings of one length are ordered as the numbers they spell. */
  lemma {:induction false} LexLessByValue(s: string, t: string)
    requires AllDigits(s) && AllDigits(t) && |s| == |t| && Value(s) < Value(t)
    ensures LexLess(s, t)
  {
    var s', t' := s[..|s| - 1], t[..|t| - 1];
    assert s == s' + [s[|s| - 1]] && t == t' + [t[|t| - 1]];
    if Value(s') < Value(t') {
      LexLessByValue(s', t');
      LexLessExtends(s', t', [s[|s| - 1]], [t[|t| - 1]]);
    } else {
      ValueInjective(s', t');
      assert LexLess([s[|s| - 1]], [t[|t| - 1]]);
      LexLessAfterPrefix(s', [s[|s| - 1]], [t[|t| - 1]]);
    }
  }
}
