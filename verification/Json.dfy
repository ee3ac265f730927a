/**
  The part of JSON the audit trail uses: objects of strings, non-negative integers, booleans
  and lists of strings, printed compactly as the library's dump() does, and a reader for that
  text.  String escaping follows section 7 of RFC 8259.
 */
module Json {
  import opened Text
  import opened Decimal
  import Utf8

  datatype Value = Str(s: string) | Num(n: nat) | Bool(b: bool) | Strs(items: seq<string>)

  /** Members in the order in which they are printed. */
  type Object = seq<(string, Value)>

  // ---- Strings

  function HexDigit(d: nat): char
    requires d < 16
  {
    if d < 10 then '0' + d as char else 'a' + (d - 10) as char
  }

  function HexValue(c: char): Option<nat> {
    if '0' <= c <= '9' then Some((c - '0') as int)
    else if 'a' <= c <= 'f' then Some((c - 'a') as int + 10)
    else None
  }

  function Escape(c: char): string {
    if c == '\"' then "\\\""
    else if c == '\\' then "\\\\"
    else if c == '\U{08}' then "\\b"
    else if c == '\U{0C}' then "\\f"
    else if c == '\n' then "\\n"
    else if c == '\r' then "\\r"
    else if c == '\t' then "\\t"
    else if c < ' ' then "\\u00" + [HexDigit(c as int / 16), HexDigit(c as int % 16)]
    else [c]
  }

  /** Which bytes are escaped, and how. */
  lemma EscapeForms(c: char)
    ensures |Escape(c)| == 1 <==> c as int >= 32 && c != '\"' && c != '\\'
    ensures |Escape(c)| == 1 ==> Escape(c) == [c]
    ensures |Escape(c)| == 2 <==> c == '\"' || c == '\\' || c as int in {8, 9, 10, 12, 13}
    ensures |Escape(c)| == 2 ==>
      && Escape(c)[0] == '\\'
      && Escape(c)[1] ==
         (match c as int case 8 => 'b' case 9 => 't' case 10 => 'n' case 12 => 'f' case 13 => 'r' case _ => c)
    ensures |Escape(c)| > 2 ==> |Escape(c)| == 6 && Escape(c)[..4] == "\\u00"
  {
  }

  function EscapeAll(s: string): string {
    if s == [] then "" else Escape(s[0]) + EscapeAll(s[1..])
  }

  function Quote(s: string): string {
    "\"" + EscapeAll(s) + "\""
  }

  /** One character, escaped or plain. */
  function ReadChar(text: string): (r: Option<(char, string)>)
    ensures r.Some? ==> |r.value.1| < |text|
  {
    if text == "" || text[0] < ' ' || text[0] == '\"' then None
    else if text[0] != '\\' then Some((text[0], text[1..]))
    else if |text| < 2 then None
    else match text[1]
      case '\"' => Some(('\"', text[2..]))
      case '\\' => Some(('\\', text[2..]))
      case 'b' => Some(('\U{08}', text[2..]))
      case 'f' => Some(('\U{0C}', text[2..]))
      case 'n' => Some(('\n', text[2..]))
      case 'r' => Some(('\r', text[2..]))
      case 't' => Some(('\t', text[2..]))
      case 'u' =>
        if |text| >= 6 && text[2] == '0' && text[3] == '0' && HexValue(text[4]).Some? && HexValue(text[5]).Some?
        then Some(((HexValue(text[4]).value * 16 + HexValue(text[5]).value) as char, text[6..]))
        else None
      case _ => None
  }

  /** The rest of a string, after its opening quote. */
  function ReadChars(text: string): (r: Option<(string, string)>)
    ensures r.Some? ==> |r.value.1| < |text|
    decreases |text|
  {
    if text == "" then None
    else if text[0] == '\"' then Some(("", text[1..]))
    else
      var c := ReadChar(text);
      if c.None? then None
      else
        var rest := ReadChars(c.value.1);
        if rest.None? then None else Some(([c.value.0] + rest.value.0, rest.value.1))
  }

  function ReadString(text: string): (r: Option<(string, string)>)
    ensures r.Some? ==> |r.value.1| < |text|
  {
    if text != "" && text[0] == '\"' then ReadChars(text[1..]) else None
  }

  lemma CharReads(c: char, rest: string)
    ensures ReadChar(Escape(c) + rest) == Some((c, rest))
    ensures (Escape(c) + rest)[0] != '\"'
  {
    var text := Escape(c) + rest;
    if |Escape(c)| == 1 {
      assert text[1..] == rest;
    } else if |Escape(c)| == 2 {
      assert text[2..] == rest;
    } else {
      assert text[6..] == rest;
      assert text[..6] == Escape(c);
      HexReads(c as int);
    }
  }

  lemma HexReads(n: nat)
    requires n < 32
    ensures HexValue(HexDigit(n / 16)) == Some(n / 16) && HexValue(HexDigit(n % 16)) == Some(n % 16)
  {
  }

  lemma {:induction false} CharsRead(s: string, rest: string)
    ensures ReadChars(EscapeAll(s) + "\"" + rest) == Some((s, rest))
  {
    var text := EscapeAll(s) + "\"" + rest;
    if s == [] {
      assert text[1..] == rest;
    } else {
      var tail := EscapeAll(s[1..]) + "\"" + rest;
      assert text == Escape(s[0]) + tail;
      CharReads(s[0], tail);
      CharsRead(s[1..], rest);
      assert s == [s[0]] + s[1..];
    }
  }

  /** Any string at all survives quoting and reading. */
  lemma StringReads(s: string, rest: string)
    ensures ReadString(Quote(s) + rest) == Some((s, rest))
    ensures |Quote(s)| >= 2 && Quote(s)[0] == '\"'
  {
    CharsRead(s, rest);
    assert (Quote(s) + rest)[1..] == EscapeAll(s) + "\"" + rest;
  }

  predicate Plain(c: char) {
    c >= ' ' && c != '\"' && c != '\\'
  }

  lemma PlainEscape(c: char)
    requires Plain(c)
    ensures Escape(c) == [c]
  {
  }

  /** Printable text without quotes and backslashes is written as it is. */
  lemma {:induction false} PlainIsUnescaped(s: string)
    requires forall i :: 0 <= i < |s| ==> Plain(s[i])
    ensures EscapeAll(s) == s
  {
    if s != [] {
      PlainEscape(s[0]);
      PlainIsUnescaped(s[1..]);
    }
  }

  // ---- Values

  function PrintItems(items: seq<string>): string {
    if items == [] then ""
    else if |items| == 1 then Quote(items[0])
    else Quote(items[0]) + "," + PrintItems(items[1..])
  }

  function PrintValue(v: Value): string {
    match v
    case Str(s) => Quote(s)
    case Num(n) => Print(n)
    case Bool(b) => if b then "true" else "false"
    case Strs(items) => "[" + PrintItems(items) + "]"
  }

  /** One or more strings and the closing bracket. */
  function ReadItems(text: string): (r: Option<(seq<string>, string)>)
    ensures r.Some? ==> |r.value.1| < |text|
    decreases |text|
  {
    var first := ReadString(text);
    if first.None? || first.value.1 == "" then None
    else
      var (s, rest) := first.value;
      if rest[0] == ']' then Some(([s], rest[1..]))
      else if rest[0] != ',' then None
      else
        var more := ReadItems(rest[1..]);
        if more.None? then None else Some(([s] + more.value.0, more.value.1))
  }

  function DigitSpan(text: string): (n: nat)
    ensures n <= |text| && AllDigits(text[..n])
  {
    if text == "" || !IsDigit(text[0]) then 0
    else
      var n := 1 + DigitSpan(text[1..]);
      assert text[..n] == [text[0]] + text[1..][..n - 1];
      n
  }

  function ReadValue(text: string): (r: Option<(Value, string)>)
    ensures r.Some? ==> |r.value.1| < |text|
  {
    if text == "" then None
    else if text[0] == '\"' then
      var s := ReadString(text);
      if s.None? then None else Some((Str(s.value.0), s.value.1))
    else if IsDigit(text[0]) then
      var n := DigitSpan(text);
      Some((Num(Decimal.Value(text[..n])), text[n..]))
    else if "true" <= text then Some((Bool(true), text[4..]))
    else if "false" <= text then Some((Bool(false), text[5..]))
    else if text[0] == '[' then
      if |text| >= 2 && text[1] == ']' then Some((Strs([]), text[2..]))
      else
        var items := ReadItems(text[1..]);
        if items.None? then None else Some((Strs(items.value.0), items.value.1))
    else None
  }

  lemma Regroup(a: string, b: string, c: string, d: string)
    ensures a + b + c + d == a + (b + (c + d))
  {
  }

  lemma LastItemReads(s: string, rest: string)
    ensures ReadItems(Quote(s) + ("]" + rest)) == Some(([s], rest))
  {
    StringReads(s, "]" + rest);
    assert ("]" + rest)[1..] == rest;
  }

  lemma NextItemReads(s: string, tail: string, more: (seq<string>, string))
    requires ReadItems(tail) == Some(more)
    ensures ReadItems(Quote(s) + ("," + tail)) == Some(([s] + more.0, more.1))
  {
    StringReads(s, "," + tail);
    assert ("," + tail)[1..] == tail;
  }

  lemma {:induction false} ItemsRead(items: seq<string>, rest: string)
    requires items != []
    ensures ReadItems(PrintItems(items) + ("]" + rest)) == Some((items, rest))
  {
    var end := "]" + rest;
    if |items| == 1 {
      LastItemReads(items[0], rest);
      assert items == [items[0]];
    } else {
      var more := PrintItems(items[1..]);
      ItemsRead(items[1..], rest);
      NextItemReads(items[0], more + end, (items[1..], rest));
      Regroup(Quote(items[0]), ",", more, end);
      assert items == [items[0]] + items[1..];
    }
  }

  lemma ItemsStartQuoted(items: seq<string>)
    requires items != []
    ensures PrintItems(items) != "" && PrintItems(items)[0] == '\"'
  {
  }

  lemma {:induction false} SpanOfDigits(digits: string, rest: string)
    requires AllDigits(digits) && (rest == "" || !IsDigit(rest[0]))
    ensures DigitSpan(digits + rest) == |digits|
  {
    if digits == [] {
      assert digits + rest == rest;
    } else {
      assert (digits + rest)[1..] == digits[1..] + rest;
      SpanOfDigits(digits[1..], rest);
    }
  }

  lemma NumberReads(n: nat, rest: string)
    requires rest != "" && !IsDigit(rest[0])
    ensures ReadValue(Print(n) + rest) == Some((Num(n), rest))
  {
    var text := Print(n) + rest;
    SpanOfDigits(Print(n), rest);
    ValueOfPrint(n);
    assert text[0] == Print(n)[0];
    assert text[..|Print(n)|] == Print(n) && text[|Print(n)|..] == rest;
  }

  lemma BoolReads(b: bool, rest: string)
    ensures ReadValue(PrintValue(Bool(b)) + rest) == Some((Bool(b), rest))
  {
    var text := PrintValue(Bool(b)) + rest;
    if b {
      assert text[..4] == "true" && text[4..] == rest;
    } else {
      assert text[..5] == "false" && text[5..] == rest;
    }
  }

  lemma ListReads(items: seq<string>, rest: string)
    ensures ReadValue("[" + PrintItems(items) + "]" + rest) == Some((Strs(items), rest))
  {
    var printed := PrintItems(items);
    var text := "[" + printed + "]" + rest;
    assert text[1..] == printed + ("]" + rest);
    if items == [] {
      assert text[2..] == rest;
    } else {
      ItemsRead(items, rest);
      ItemsStartQuoted(items);
      assert text[1] == '\"';
    }
  }

  lemma ValueReads(v: Value, rest: string)
    requires rest != "" && !IsDigit(rest[0])
    ensures ReadValue(PrintValue(v) + rest) == Some((v, rest))
  {
    match v
    case Str(s) => StringReads(s, rest);
    case Num(n) => NumberReads(n, rest);
    case Bool(b) => BoolReads(b, rest);
    case Strs(items) => ListReads(items, rest);
  }

  // ---- Objects as text

  function PrintMember(m: (string, Value)): string {
    Quote(m.0) + ":" + PrintValue(m.1)
  }

  function PrintMembers(j: Object): string {
    if j == [] then ""
    else if |j| == 1 then PrintMember(j[0])
    else PrintMember(j[0]) + "," + PrintMembers(j[1..])
  }

  function PrintObject(j: Object): string {
    "{" + PrintMembers(j) + "}"
  }

  function ReadMember(text: string): (r: Option<((string, Value), string)>)
    ensures r.Some? ==> |r.value.1| < |text|
  {
    var key := ReadString(text);
    if key.None? || key.value.1 == "" || key.value.1[0] != ':' then None
    else
      var v := ReadValue(key.value.1[1..]);
      if v.None? then None else Some(((key.value.0, v.value.0), v.value.1))
  }

  /** One or more members and the closing brace. */
  function ReadMembers(text: string): (r: Option<(Object, string)>)
    decreases |text|
  {
    var first := ReadMember(text);
    if first.None? || first.value.1 == "" then None
    else
      var (m, rest) := first.value;
      if rest[0] == '}' then Some(([m], rest[1..]))
      else if rest[0] != ',' then None
      else
        var more := ReadMembers(rest[1..]);
        if more.None? then None else Some(([m] + more.value.0, more.value.1))
  }

  /** A whole text that is one object. */
  function ReadObject(text: string): Option<Object> {
    if |text| < 2 || text[0] != '{' then None
    else if text[1] == '}' then (if |text| == 2 then Some([]) else None)
    else
      var members := ReadMembers(text[1..]);
      if members.None? || members.value.1 != "" then None else Some(members.value.0)
  }

  lemma MemberReads(m: (string, Value), rest: string)
    requires rest != "" && !IsDigit(rest[0])
    ensures ReadMember(PrintMember(m) + rest) == Some((m, rest))
    ensures PrintMember(m)[0] == '\"'
  {
    hide Quote, PrintValue, ReadString, ReadValue;
    var tail := ":" + (PrintValue(m.1) + rest);
    StringReads(m.0, tail);
    assert PrintMember(m) + rest == Quote(m.0) + tail;
    assert tail[1..] == PrintValue(m.1) + rest;
    ValueReads(m.1, rest);
  }

  lemma LastMemberReads(m: (string, Value))
    ensures ReadMembers(PrintMember(m) + "}") == Some(([m], ""))
  {
    MemberReads(m, "}");
    assert "}"[1..] == "";
  }

  lemma NextMemberReads(m: (string, Value), tail: string, more: (Object, string))
    requires ReadMembers(tail) == Some(more)
    ensures ReadMembers(PrintMember(m) + ("," + tail)) == Some(([m] + more.0, more.1))
  {
    MemberReads(m, "," + tail);
    assert ("," + tail)[1..] == tail;
  }

  lemma {:induction false} MembersRead(j: Object)
    requires j != []
    ensures ReadMembers(PrintMembers(j) + "}") == Some((j, ""))
  {
    if |j| == 1 {
      LastMemberReads(j[0]);
      assert j == [j[0]];
    } else {
      var more := PrintMembers(j[1..]);
      MembersRead(j[1..]);
      NextMemberReads(j[0], more + "}", (j[1..], ""));
      Regroup(PrintMember(j[0]), ",", more, "}");
      assert j == [j[0]] + j[1..];
    }
  }

  lemma MembersStartQuoted(j: Object)
    requires j != []
    ensures PrintMembers(j) != "" && PrintMembers(j)[0] == '\"'
  {
  }

  lemma FilledObjectReads(j: Object)
    requires j != []
    ensures ReadObject(PrintObject(j)) == Some(j)
  {
    hide ReadMembers, PrintMembers;
    var text, members := PrintObject(j), PrintMembers(j);
    MembersRead(j);
    MembersStartQuoted(j);
    assert text[1..] == members + "}";
    assert text[1] == '\"';
  }

  /** Printing and reading an object are inverse, whatever its strings hold. */
  lemma ObjectReads(j: Object)
    ensures ReadObject(PrintObject(j)) == Some(j)
  {
    hide ReadMembers;
    if j == [] {
      assert PrintObject(j) == "{}";
    } else {
      FilledObjectReads(j);
    }
  }

  // ---- One line

  predicate NoControl(s: string) {
    forall i :: 0 <= i < |s| ==> s[i] >= ' '
  }

  lemma EscapeNoControl(c: char)
    ensures NoControl(Escape(c))
  {
  }

  lemma {:induction false} EscapeAllNoControl(s: string)
    ensures NoControl(EscapeAll(s))
  {
    if s != [] {
      EscapeNoControl(s[0]);
      EscapeAllNoControl(s[1..]);
    }
  }

  lemma {:induction false} ItemsNoControl(items: seq<string>)
    ensures NoControl(PrintItems(items))
  {
    if items != [] {
      EscapeAllNoControl(items[0]);
      if |items| > 1 { ItemsNoControl(items[1..]); }
    }
  }

  lemma MemberNoControl(m: (string, Value))
    ensures NoControl(PrintMember(m))
  {
    EscapeAllNoControl(m.0);
    match m.1
    case Str(s) => EscapeAllNoControl(s);
    case Strs(items) => ItemsNoControl(items);
    case _ =>
  }

  lemma {:induction false} MembersNoControl(j: Object)
    ensures NoControl(PrintMembers(j))
  {
    if j != [] {
      MemberNoControl(j[0]);
      if |j| > 1 { MembersNoControl(j[1..]); }
    }
  }

  /** A printed object is a single line. */
  lemma ObjectIsOneLine(j: Object)
    ensures '\n' !in PrintObject(j)
  {
    MembersNoControl(j);
    assert NoControl(PrintObject(j));
  }

  // ---- dump(): strict about UTF-8

  predicate Encodable(v: Value) {
    match v
    case Str(s) => Utf8.Valid(s)
    case Strs(items) => forall i :: 0 <= i < |items| ==> Utf8.Valid(items[i])
    case Num(_) => true
    case Bool(_) => true
  }

  /** A key or a string that is not valid UTF-8 makes the library throw. */
  function Dump(j: Object): Reply<string> {
    if forall i :: 0 <= i < |j| ==> Utf8.Valid(j[i].0) && Encodable(j[i].1) then Returned(PrintObject(j)) else Threw
  }
}
