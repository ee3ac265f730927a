/** format_utc_timestamp: YYYY-MM-DDTHH:MM:SS.mmmZ (section 5.6 of RFC 3339). */
module Timestamp {
  import opened Text
  import opened Decimal
  import opened Calendar
  import Utf8

  // ---- Fixed layouts of decimal fields, each followed by a separator

  datatype Field = Field(width: nat, separator: char)

  type Layout = seq<Field>

  predicate GoodLayout(layout: Layout) {
    forall i :: 0 <= i < |layout| ==> layout[i].width > 0 && !IsDigit(layout[i].separator)
  }

  function Render(layout: Layout, values: seq<int>): string
    requires |layout| == |values| && GoodLayout(layout)
  {
    if layout == [] then ""
    else Printf(layout[0].width, values[0]) + [layout[0].separator] + Render(layout[1..], values[1..])
  }

  function ReadField(text: string, f: Field): Option<nat> {
    if |text| > f.width && AllDigits(text[..f.width]) && text[f.width] == f.separator
    then Some(Value(text[..f.width]))
    else None
  }

  function Read(layout: Layout, text: string): (r: Option<seq<int>>)
    ensures r.Some? ==> |r.value| == |layout|
  {
    if layout == [] then (if text == "" then Some([]) else None)
    else
      var first := ReadField(text, layout[0]);
      if first.None? then None
      else
        var rest := Read(layout[1..], text[layout[0].width + 1..]);
        if rest.None? then None else Some([first.value] + rest.value)
  }

  predicate Fits(layout: Layout, values: seq<int>)
    requires |layout| == |values|
  {
    forall i :: 0 <= i < |values| ==> 0 <= values[i] < Pow10(layout[i].width)
  }

  lemma FieldRead(f: Field, n: int, rest: string)
    requires f.width > 0 && !IsDigit(f.separator)
    ensures var text := Printf(f.width, n) + [f.separator] + rest;
      if 0 <= n < Pow10(f.width)
      then ReadField(text, f) == Some(n) && text[f.width + 1..] == rest
      else ReadField(text, f) == None
  {
    var p := Printf(f.width, n);
    var text := p + [f.separator] + rest;
    if n >= 0 {
      PrintfFits(f.width, n);
      if n < Pow10(f.width) {
        assert text[..f.width] == p;
      } else {
        assert text[f.width] == p[f.width];
      }
    } else {
      assert text[0] == '-';
      assert |text| > f.width ==> text[..f.width][0] == '-';
    }
  }

  /** Reading a rendered layout gives the values back exactly when every value fits its field; otherwise nothing. */
  lemma {:induction false} RenderedRead(layout: Layout, values: seq<int>)
    requires |layout| == |values| && GoodLayout(layout)
    ensures Read(layout, Render(layout, values)) == if Fits(layout, values) then Some(values) else None
  {
    hide Printf, ReadField, Pow10;
    if layout != [] {
      var f, n := layout[0], values[0];
      FieldRead(f, n, Render(layout[1..], values[1..]));
      RenderedRead(layout[1..], values[1..]);
      assert values == [n] + values[1..];
      assert Fits(layout, values) <==> 0 <= n < Pow10(f.width) && Fits(layout[1..], values[1..]);
    }
  }

  predicate LexBefore(a: seq<int>, b: seq<int>)
    requires |a| == |b|
  {
    a != [] && (a[0] < b[0] || (a[0] == b[0] && LexBefore(a[1..], b[1..])))
  }

  /** Fitting values render in their own lexicographic order. */
  lemma {:induction false} RenderedOrder(layout: Layout, a: seq<int>, b: seq<int>)
    requires |layout| == |a| == |b| && GoodLayout(layout)
    requires Fits(layout, a) && Fits(layout, b) && LexBefore(a, b)
    ensures LexLess(Render(layout, a), Render(layout, b))
  {
    hide Printf, Pow10, LexLess;
    var w := layout[0].width;
    var p, q := Printf(w, a[0]), Printf(w, b[0]);
    var s := [layout[0].separator];
    var x, y := Render(layout[1..], a[1..]), Render(layout[1..], b[1..]);
    PrintfFits(w, a[0]);
    PrintfFits(w, b[0]);
    assert p + s + x == p + (s + x) && q + s + y == q + (s + y);
    if a[0] < b[0] {
      LexLessByValue(p, q);
      LexLessExtends(p, q, s + x, s + y);
    } else {
      RenderedOrder(layout[1..], a[1..], b[1..]);
      LexLessAfterPrefix(s, x, y);
      LexLessAfterPrefix(p, s + x, s + y);
    }
  }

  function Width(layout: Layout): nat {
    if layout == [] then 0 else layout[0].width + 1 + Width(layout[1..])
  }

  lemma {:induction false} RenderedLength(layout: Layout, values: seq<int>)
    requires |layout| == |values| && GoodLayout(layout) && Fits(layout, values)
    ensures |Render(layout, values)| == Width(layout)
  {
    if layout != [] {
      PrintfFits(layout[0].width, values[0]);
      RenderedLength(layout[1..], values[1..]);
    }
  }

  /** Only digits, signs and separators are printed. */
  lemma {:induction false} RenderedBytes(layout: Layout, values: seq<int>, ok: set<char>)
    requires |layout| == |values| && GoodLayout(layout)
    requires '-' in ok && (forall c :: '0' <= c <= '9' ==> c in ok)
    requires forall i :: 0 <= i < |layout| ==> layout[i].separator in ok
    ensures forall i :: 0 <= i < |Render(layout, values)| ==> Render(layout, values)[i] in ok
  {
    if layout != [] {
      RenderedBytes(layout[1..], values[1..], ok);
      PrintfBytes(layout[0].width, values[0]);
    }
  }

  lemma PrintfBytes(w: nat, n: int)
    requires w > 0
    ensures forall i :: 0 <= i < |Printf(w, n)| ==> IsDigit(Printf(w, n)[i]) || Printf(w, n)[i] == '-'
  {
  }

  // ---- The timestamp

  const UTC_LAYOUT: Layout :=
    [Field(4, '-'), Field(2, '-'), Field(2, 'T'), Field(2, ':'), Field(2, ':'), Field(2, '.'), Field(3, 'Z')]

  /** C++ integer division by a positive divisor: toward zero. */
  function TruncDiv(a: int, b: int): int
    requires b > 0
  {
    if a >= 0 then a / b else -(-a / b)
  }

  function Seconds(ms: int): int { TruncDiv(ms, 1000) }

  function Millis(ms: int): int { ms - 1000 * Seconds(ms) }

  /** Year, month, day, hour, minute, second and millisecond, as gmtime_r and the remainder give them. */
  function Fields(ms: int): seq<int> {
    var date := DateOf(Seconds(ms) / 86400);
    var time := Seconds(ms) % 86400;
    [date.year, date.month, date.day, time / 3600, time / 60 % 60, time % 60, Millis(ms)]
  }

  function FormatUtc(ms: int): string {
    Render(UTC_LAYOUT, Fields(ms))
  }

  predicate TimeByte(c: char) {
    IsDigit(c) || c == '-' || c == 'T' || c == ':' || c == '.' || c == 'Z'
  }

  lemma TimeBytes(ms: int)
    ensures forall i :: 0 <= i < |FormatUtc(ms)| ==> TimeByte(FormatUtc(ms)[i])
  {
    hide Render;
    var ok := set c | TimeByte(c);
    RenderedBytes(UTC_LAYOUT, Fields(ms), ok);
  }

  /** Whatever the instant, its text is valid UTF-8. */
  lemma TimestampEncodes(ms: int)
    ensures Utf8.Valid(FormatUtc(ms))
  {
    hide FormatUtc, Utf8.Valid;
    TimeBytes(ms);
    Utf8.AsciiIsValid(FormatUtc(ms));
  }

  function Instant(f: seq<int>): int
    requires |f| == 7 && ValidDate(Date(f[0], f[1], f[2]))
  {
    (DayNumber(Date(f[0], f[1], f[2])) * 86400 + f[3] * 3600 + f[4] * 60 + f[5]) * 1000 + f[6]
  }

  function ParseUtc(text: string): Option<int> {
    var f := Read(UTC_LAYOUT, text);
    if f.Some? && ValidDate(Date(f.value[0], f.value[1], f.value[2]))
       && f.value[3] < 24 && f.value[4] < 60 && f.value[5] < 60
    then Some(Instant(f.value))
    else None
  }

  const FIRST_MS: int := DaysBeforeYear(0) * 86_400_000
  const END_MS: int := DaysBeforeYear(10000) * 86_400_000

  /** Hours, minutes and seconds add up to the second of the day. */
  lemma ClockAddsUp(x: int)
    requires 0 <= x < 86400
    ensures x == 3600 * (x / 3600) + 60 * (x / 60 % 60) + x % 60
    ensures 0 <= x / 3600 < 24
  {
    var m := x / 60;
    assert x == 60 * m + x % 60;
    assert m == 60 * (m / 60) + m % 60;
    assert m / 60 == x / 3600;
  }

  lemma FieldsMeanInstant(ms: int)
    ensures var f := Fields(ms);
      && ValidDate(Date(f[0], f[1], f[2]))
      && 0 <= f[3] < 24 && 0 <= f[4] < 60 && 0 <= f[5] < 60
      && Instant(f) == ms
  {
    hide DateOf, TruncDiv;
    DateOfDay(Seconds(ms) / 86400);
    ClockAddsUp(Seconds(ms) % 86400);
  }

  lemma Powers()
    ensures Pow10(1) == 10 && Pow10(2) == 100 && Pow10(3) == 1000 && Pow10(4) == 10000
  {
    assert Pow10(0) == 1;
    assert Pow10(1) == 10;
    assert Pow10(2) == 100;
  }

  lemma YearInRange(d: Date)
    requires ValidDate(d)
    ensures 0 <= d.year < 10000 <==> DaysBeforeYear(0) <= DayNumber(d) < DaysBeforeYear(10000)
  {
    WithinYear(d);
    if d.year < 0 { YearsMonotone(d.year + 1, 0); } else { YearsMonotone(0, d.year); }
    if d.year < 10000 { YearsMonotone(d.year + 1, 10000); } else { YearsMonotone(10000, d.year); }
  }

  predicate Representable(ms: int) {
    FIRST_MS <= ms < END_MS && (ms >= 0 || ms % 1000 == 0)
  }

  lemma MillisSign(ms: int)
    ensures -1000 < Millis(ms) < 1000
    ensures Millis(ms) >= 0 <==> ms >= 0 || ms % 1000 == 0
    ensures ms >= 0 || ms % 1000 == 0 ==>
      ms == 1000 * Seconds(ms) + Millis(ms) && Seconds(ms) == (ms - ms % 1000) / 1000
  {
    if ms < 0 {
      assert ms == -(-ms);
    }
  }

  lemma FieldsFit(ms: int)
    ensures Fits(UTC_LAYOUT, Fields(ms)) <==> Representable(ms)
  {
    var f := Fields(ms);
    Powers();
    FieldsMeanInstant(ms);
    MillisSign(ms);
    YearInRange(Date(f[0], f[1], f[2]));
    DateOfDay(Seconds(ms) / 86400);
    assert Fits(UTC_LAYOUT, f) <==> 0 <= f[0] < 10000 && 0 <= f[6] < 1000;
  }

  /**
    A formatted instant parses back to itself exactly when its year has four digits and its
    milliseconds print without a sign; every other instant formats to text that does not parse.
   */
  lemma ParsesBackExactly(ms: int)
    ensures ParseUtc(FormatUtc(ms)) == if Representable(ms) then Some(ms) else None
  {
    RenderedRead(UTC_LAYOUT, Fields(ms));
    FieldsFit(ms);
    FieldsMeanInstant(ms);
  }

  lemma UtcWidth()
    ensures Width(UTC_LAYOUT) == 24
  {
    var l := UTC_LAYOUT;
    assert forall k :: 0 <= k < 7 ==> l[k..][1..] == l[k + 1..];
    assert Width(l[7..]) == 0;
    assert Width(l[6..]) == 4;
    assert Width(l[5..]) == 7;
    assert Width(l[4..]) == 10;
    assert Width(l[3..]) == 13;
    assert Width(l[2..]) == 16;
    assert Width(l[1..]) == 19;
  }

  /** Every instant that parses back has the 24 bytes of the fixed form. */
  lemma FixedWidth(ms: int)
    requires Representable(ms)
    ensures |FormatUtc(ms)| == 24
  {
    FieldsFit(ms);
    var layout, fields := UTC_LAYOUT, Fields(ms);
    RenderedLength(layout, fields);
    UtcWidth();
  }

  /** Everything from the epoch to the end of the year 9999 is representable. */
  lemma EpochToYear9999(ms: int)
    requires 0 <= ms < 253_402_300_800_000
    ensures Representable(ms)
  {
  }

  // ---- The text, byte by byte

  /** The decimal digit of a number below ten. */
  function Digit(n: nat): char
    requires n < 10
  {
    "0123456789"[n]
  }

  function TwoDigits(n: nat): string
    requires n < 100
  {
    [Digit(n / 10), Digit(n % 10)]
  }

  function ThreeDigits(n: nat): string
    requires n < 1000
  {
    [Digit(n / 100), Digit(n / 10 % 10), Digit(n % 10)]
  }

  function FourDigits(n: nat): string
    requires n < 10000
  {
    [Digit(n / 1000), Digit(n / 100 % 10), Digit(n / 10 % 10), Digit(n % 10)]
  }

  /** Milliseconds since the epoch of a civil date and time. */
  function MillisOf(y: int, mo: int, d: int, h: int, mi: int, s: int, ms: int): int {
    (((CivilDay(y, mo, d) * 24 + h) * 60 + mi) * 60 + s) * 1000 + ms
  }

  lemma ValueOfDigits(a: nat, b: nat, c: nat, d: nat)
    requires a < 10 && b < 10 && c < 10 && d < 10
    ensures AllDigits([Digit(a), Digit(b)]) && Value([Digit(a), Digit(b)]) == 10 * a + b
    ensures AllDigits([Digit(a), Digit(b), Digit(c)])
    ensures Value([Digit(a), Digit(b), Digit(c)]) == 100 * a + 10 * b + c
    ensures AllDigits([Digit(a), Digit(b), Digit(c), Digit(d)])
    ensures Value([Digit(a), Digit(b), Digit(c), Digit(d)]) == 1000 * a + 100 * b + 10 * c + d
  {
    forall n: nat | n < 10 ensures IsDigit(Digit(n)) && DigitValue(Digit(n)) == n {}
    hide Digit;
    var s := [Digit(a), Digit(b), Digit(c), Digit(d)];
    assert s[..3] == [Digit(a), Digit(b), Digit(c)] && s[..3][..2] == [Digit(a), Digit(b)];
    assert s[..3][..2][..1] == [Digit(a)] && s[..3][..2][..1][..0] == [];
    assert Value([Digit(a)]) == a;
    assert Value([Digit(a), Digit(b)]) == 10 * a + b;
    assert Value([Digit(a), Digit(b), Digit(c)]) == 10 * Value([Digit(a), Digit(b)]) + c;
  }

  lemma DecimalParts(n: nat)
    ensures n == 100 * (n / 100) + 10 * (n / 10 % 10) + n % 10
    ensures n == 1000 * (n / 1000) + 100 * (n / 100 % 10) + 10 * (n / 10 % 10) + n % 10
  {
    var tens, hundreds := n / 10, n / 100;
    assert n == 10 * tens + n % 10;
    assert tens / 10 == hundreds && tens == 10 * hundreds + tens % 10;
    assert hundreds / 10 == n / 1000 && hundreds == 10 * (n / 1000) + hundreds % 10;
  }

  lemma PaddedTwo(n: nat)
    requires n < 100
    ensures Printf(2, n) == TwoDigits(n)
  {
    hide Digit, Printf, Value;
    Powers();
    PrintfFits(2, n);
    ValueOfDigits(n / 10, n % 10, 0, 0);
    ValueInjective(Printf(2, n), TwoDigits(n));
  }

  lemma PaddedThree(n: nat)
    requires n < 1000
    ensures Printf(3, n) == ThreeDigits(n)
  {
    hide Digit, Printf, Value;
    Powers();
    PrintfFits(3, n);
    ValueOfDigits(n / 100, n / 10 % 10, n % 10, 0);
    DecimalParts(n);
    ValueInjective(Printf(3, n), ThreeDigits(n));
  }

  lemma PaddedFour(n: nat)
    requires n < 10000
    ensures Printf(4, n) == FourDigits(n)
  {
    hide Digit, Printf, Value;
    Powers();
    PrintfFits(4, n);
    ValueOfDigits(n / 1000, n / 100 % 10, n / 10 % 10, n % 10);
    DecimalParts(n);
    ValueInjective(Printf(4, n), FourDigits(n));
  }

  /** YYYY-MM-DDTHH:MM:SS.mmmZ. */
  function UtcText(y: nat, mo: nat, d: nat, h: nat, mi: nat, s: nat, ms: nat): string
    requires y < 10000 && mo < 100 && d < 100 && h < 100 && mi < 100 && s < 100 && ms < 1000
  {
    FourDigits(y) + "-" + (TwoDigits(mo) + "-" + (TwoDigits(d) + "T" +
    (TwoDigits(h) + ":" + (TwoDigits(mi) + ":" + (TwoDigits(s) + "." + (ThreeDigits(ms) + "Z"))))))
  }

  lemma FieldsOf(y: int, mo: int, d: int, h: int, mi: int, s: int, ms: int)
    requires CivilDate(y, mo, d) && 0 <= h < 24 && 0 <= mi < 60 && 0 <= s < 60 && 0 <= ms < 1000
    requires MillisOf(y, mo, d, h, mi, s, ms) >= 0 || ms == 0
    ensures Fields(MillisOf(y, mo, d, h, mi, s, ms)) == [y, mo, d, h, mi, s, ms]
  {
    hide CivilDay, DateOf, TruncDiv;
    var all := MillisOf(y, mo, d, h, mi, s, ms);
    var day, second := CivilDay(y, mo, d), (h * 60 + mi) * 60 + s;
    assert all == (day * 86400 + second) * 1000 + ms;
    WholeSeconds(all, day * 86400 + second, ms);
    DayAndSecond(day, second);
    DateOfCivilDay(y, mo, d);
    SecondParts(h, mi, s);
  }

  lemma WholeSeconds(all: int, seconds: int, ms: int)
    requires all == seconds * 1000 + ms && 0 <= ms < 1000 && (all >= 0 || ms == 0)
    ensures Seconds(all) == seconds && Millis(all) == ms
  {
    hide TruncDiv;
    assert all % 1000 == ms;
    MillisSign(all);
  }

  lemma DayAndSecond(day: int, second: int)
    requires 0 <= second < 86400
    ensures (day * 86400 + second) / 86400 == day && (day * 86400 + second) % 86400 == second
  {
  }

  lemma SecondParts(h: int, mi: int, s: int)
    requires 0 <= h < 24 && 0 <= mi < 60 && 0 <= s < 60
    ensures var t := (h * 60 + mi) * 60 + s; t / 3600 == h && t / 60 % 60 == mi && t % 60 == s
  {
    var t := (h * 60 + mi) * 60 + s;
    assert t / 60 == h * 60 + mi;
  }

  /** The text of a civil date and time, for every one it can be printed for: four-digit years, no sign. */
  lemma TimestampText(y: int, mo: int, d: int, h: int, mi: int, s: int, ms: int)
    requires 0 <= y < 10000 && CivilDate(y, mo, d) && 0 <= h < 24 && 0 <= mi < 60 && 0 <= s < 60 && 0 <= ms < 1000
    requires MillisOf(y, mo, d, h, mi, s, ms) >= 0 || ms == 0
    ensures FormatUtc(MillisOf(y, mo, d, h, mi, s, ms)) == UtcText(y, mo, d, h, mi, s, ms)
  {
    hide Printf, FourDigits, TwoDigits, ThreeDigits, MillisOf, Fields;
    FieldsOf(y, mo, d, h, mi, s, ms);
    PaddedFour(y);
    PaddedTwo(mo);
    PaddedTwo(d);
    PaddedTwo(h);
    PaddedTwo(mi);
    PaddedTwo(s);
    PaddedThree(ms);
    RenderSeven([y, mo, d, h, mi, s, ms]);
  }

  lemma RenderSeven(v: seq<int>)
    requires |v| == 7
    ensures Render(UTC_LAYOUT, v) ==
      Printf(4, v[0]) + "-" + (Printf(2, v[1]) + "-" + (Printf(2, v[2]) + "T" +
      (Printf(2, v[3]) + ":" + (Printf(2, v[4]) + ":" + (Printf(2, v[5]) + "." + (Printf(3, v[6]) + "Z"))))))
  {
    hide Printf, Render;
    var l := UTC_LAYOUT;
    RenderClock(v);
    RenderStep(l, v, 2);
    RenderStep(l, v, 1);
    RenderStep(l, v, 0);
    assert l[0..] == l && v[0..] == v;
  }

  lemma RenderClock(v: seq<int>)
    requires |v| == 7
    ensures Render(UTC_LAYOUT[3..], v[3..]) ==
      Printf(2, v[3]) + ":" + (Printf(2, v[4]) + ":" + (Printf(2, v[5]) + "." + (Printf(3, v[6]) + "Z")))
  {
    hide Printf, Render;
    var l := UTC_LAYOUT;
    RenderEnd(v);
    RenderStep(l, v, 5);
    RenderStep(l, v, 4);
    RenderStep(l, v, 3);
  }

  lemma RenderEnd(v: seq<int>)
    requires |v| == 7
    ensures Render(UTC_LAYOUT[6..], v[6..]) == Printf(3, v[6]) + "Z"
  {
    assert UTC_LAYOUT[7..] == [] && v[7..] == [];
    assert Render([], []) == "";
    hide Printf, Render;
    RenderStep(UTC_LAYOUT, v, 6);
  }

  lemma RenderStep(layout: Layout, values: seq<int>, k: nat)
    requires |layout| == |values| && GoodLayout(layout) && k < |layout|
    ensures Render(layout[k..], values[k..]) ==
      Printf(layout[k].width, values[k]) + [layout[k].separator] + Render(layout[k + 1..], values[k + 1..])
  {
    hide Printf;
    assert layout[k..][1..] == layout[k + 1..] && values[k..][1..] == values[k + 1..];
  }

  // ---- Order

  lemma {:induction false} LexBeforeAt(f: seq<int>, g: seq<int>, k: nat)
    requires |f| == |g| && k < |f|
    requires forall i :: 0 <= i < k ==> f[i] == g[i]
    requires f[k] < g[k]
    ensures LexBefore(f, g)
  {
    if k > 0 { LexBeforeAt(f[1..], g[1..], k - 1); }
  }

  /** Within one day, hours, minutes and seconds are ordered as the second of the day. */
  lemma TimeOrder(x: int, y: int)
    requires 0 <= x < y < 86400
    ensures
      || x / 3600 < y / 3600
      || (x / 3600 == y / 3600 && x / 60 % 60 < y / 60 % 60)
      || (x / 3600 == y / 3600 && x / 60 % 60 == y / 60 % 60 && x % 60 < y % 60)
  {
    ClockAddsUp(x);
    ClockAddsUp(y);
    ClockOrder(x / 3600, x / 60 % 60, x % 60, y / 3600, y / 60 % 60, y % 60);
  }

  lemma ClockOrder(h: int, m: int, s: int, h': int, m': int, s': int)
    requires 0 <= m < 60 && 0 <= s < 60 && 0 <= m' < 60 && 0 <= s' < 60
    requires 3600 * h + 60 * m + s < 3600 * h' + 60 * m' + s'
    ensures h < h' || (h == h' && m < m') || (h == h' && m == m' && s < s')
  {
  }

  lemma FieldOrder(a: int, b: int)
    requires Representable(a) && Representable(b) && a < b
    ensures LexBefore(Fields(a), Fields(b))
  {
    var f, g := Fields(a), Fields(b);
    var x, y := Seconds(a), Seconds(b);
    MillisSign(a);
    MillisSign(b);
    if x / 86400 < y / 86400 {
      DateOfDay(x / 86400);
      DateOfDay(y / 86400);
      DateOrder(DateOf(x / 86400), DateOf(y / 86400));
      LexBeforeAt(f, g, if f[0] < g[0] then 0 else if f[1] < g[1] then 1 else 2);
    } else if x < y {
      TimeOrder(x % 86400, y % 86400);
      LexBeforeAt(f, g, if f[3] < g[3] then 3 else if f[4] < g[4] then 4 else 5);
    } else {
      LexBeforeAt(f, g, 6);
    }
  }

  /** Text order is time order. */
  lemma SortsChronologically(a: int, b: int)
    requires Representable(a) && Representable(b)
    ensures LexLess(FormatUtc(a), FormatUtc(b)) <==> a < b
  {
    FieldsFit(a);
    FieldsFit(b);
    if a < b {
      FieldOrder(a, b);
      RenderedOrder(UTC_LAYOUT, Fields(a), Fields(b));
    } else if b < a {
      FieldOrder(b, a);
      RenderedOrder(UTC_LAYOUT, Fields(b), Fields(a));
      LexLessAsymmetric(FormatUtc(b), FormatUtc(a));
    } else {
      LexLessIrreflexive(FormatUtc(a));
    }
  }

  lemma LexLessAsymmetric(s: string, t: string)
    requires LexLess(s, t)
    ensures !LexLess(t, s)
  {
    if LexLess(t, s) {
      LexLessTransitive(s, t, s);
      LexLessIrreflexive(s);
    }
  }
}
