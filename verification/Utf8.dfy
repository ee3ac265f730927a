/** UTF-8 validity (section 4 of RFC 3629). */
module Utf8 {
  predicate Between(c: char, low: char, high: char) {
    low <= c <= high
  }

  predicate TailByte(c: char) {
    Between(c, '\U{80}', '\U{BF}')
  }

  predicate IsAscii(c: char) {
    c < '\U{80}'
  }

  predicate AllAscii(s: string) {
    forall i :: 0 <= i < |s| ==> IsAscii(s[i])
  }

  /** The length of the character s starts with, or 0 when s starts with none. */
  function CharLength(s: string): (n: nat)
    ensures n <= |s| && n <= 4
    ensures n == 1 <==> s != [] && IsAscii(s[0])
    ensures forall i :: 1 <= i < n ==> TailByte(s[i])
  {
    if |s| >= 1 && IsAscii(s[0]) then 1
    else if |s| >= 2 && Between(s[0], '\U{C2}', '\U{DF}') && TailByte(s[1]) then 2
    else if |s| >= 3 && LeadsThree(s[0], s[1]) && TailByte(s[1]) && TailByte(s[2]) then 3
    else if |s| >= 4 && LeadsFour(s[0], s[1]) && TailByte(s[1]) && TailByte(s[2]) && TailByte(s[3]) then 4
    else 0
  }

  predicate LeadsThree(a: char, b: char) {
    || (a == '\U{E0}' && Between(b, '\U{A0}', '\U{BF}'))
    || Between(a, '\U{E1}', '\U{EC}')
    || (a == '\U{ED}' && Between(b, '\U{80}', '\U{9F}'))
    || Between(a, '\U{EE}', '\U{EF}')
  }

  predicate LeadsFour(a: char, b: char) {
    || (a == '\U{F0}' && Between(b, '\U{90}', '\U{BF}'))
    || Between(a, '\U{F1}', '\U{F3}')
    || (a == '\U{F4}' && Between(b, '\U{80}', '\U{8F}'))
  }

  predicate Valid(s: string) {
    s == [] || (CharLength(s) > 0 && Valid(s[CharLength(s)..]))
  }

  /** An ASCII byte is a character of its own and never inside another. */
  lemma AsciiStandsAlone(s: string, p: nat)
    requires p < |s| && IsAscii(s[p])
    ensures p == 0 ==> CharLength(s) == 1
    ensures p > 0 ==> CharLength(s) <= p
  {
  }

  /** What follows an ASCII byte of a valid text is a valid text: the byte is never inside a character. */
  lemma {:induction false} ValidAfterAscii(s: string, p: nat)
    requires Valid(s) && p < |s| && IsAscii(s[p])
    ensures Valid(s[p + 1..])
  {
    hide LeadsThree, LeadsFour, Between, TailByte;
    var n := CharLength(s);
    AsciiStandsAlone(s, p);
    if p > 0 {
      assert s[p] == s[n..][p - n];
      assert s[n..][p - n + 1..] == s[p + 1..];
      ValidAfterAscii(s[n..], p - n);
    }
  }

  lemma {:induction false} AsciiPrefix(a: string, s: string)
    requires AllAscii(a)
    ensures Valid(a + s) <==> Valid(s)
  {
    if a == [] {
      assert a + s == s;
    } else {
      assert (a + s)[1..] == a[1..] + s;
      AsciiPrefix(a[1..], s);
    }
  }

  lemma AsciiIsValid(a: string)
    requires AllAscii(a)
    ensures Valid(a)
  {
    AsciiPrefix(a, []);
    assert a + [] == a;
  }
}
