/** JsonlAuditRepository: an append-only stream whose error bits never clear. */
module JsonlSink {
  import opened Text
  import opened Audit
  import opened Json
  import opened AuditJson

  /** The stream object and the bytes that reached the file. */
  datatype Sink = Sink(isOpen: bool, failed: bool, file: string)

  /** What the operating system does with one write and flush; a failure may leave a torn prefix behind. */
  datatype Io = Flushed | Torn(written: nat)

  function Prefix(s: string, n: nat): string {
    if n < |s| then s[..n] else s
  }

  function AppendTo(sink: Sink, r: AuditRecord, io: Io): (Sink, AppendResult) {
    match Dump(Spell(Serialize(r)))
    case Threw => (sink, WriteFailure)
    case Returned(line) =>
      if !sink.isOpen then (sink, OpenFailure)
      else if sink.failed then (sink, WriteFailure)
      else match io
        case Flushed => (sink.(file := sink.file + (line + "\n")), Appended)
        case Torn(n) => (sink.(failed := true, file := sink.file + Prefix(line + "\n", n)), WriteFailure)
  }

  class JsonlAuditRepository {
    const isOpen: bool
    var failed: bool
    var file: string

    function State(): Sink
      reads this
    {
      Sink(isOpen, failed, file)
    }

    /** Append mode keeps what the file holds; a failed open is only reported by later appends. */
    constructor (opens: bool, existing: string)
      ensures State() == Sink(opens, !opens, existing)
    {
      isOpen := opens;
      failed := !opens;
      file := existing;
    }

    /** stream_ << text: a stream with an error bit set writes nothing. */
    method Write(text: string, io: Io)
      modifies this
      ensures old(failed) ==> failed && file == old(file)
      ensures !old(failed) && io.Flushed? ==> !failed && file == old(file) + text
      ensures !old(failed) && io.Torn? ==> failed && file == old(file) + Prefix(text, io.written)
    {
      if failed {
        return;
      }
      if io.Flushed? {
        file := file + text;
      } else {
        failed := true;
        file := file + Prefix(text, io.written);
      }
    }

    method Append(r: AuditRecord, io: Io) returns (result: AppendResult)
      modifies this
      ensures (State(), result) == AppendTo(old(State()), r, io)
    {
      var dumped := Dump(Spell(Serialize(r)));
      if dumped.Threw? {
        return WriteFailure;
      }
      if !isOpen {
        return OpenFailure;
      }
      Write(dumped.value + "\n", io);
      if failed {
        return WriteFailure;
      }
      result := Appended;
    }
  }

  predicate Dead(sink: Sink) {
    !sink.isOpen || sink.failed
  }

  /** A record made by a factory is refused only by a dead or breaking stream; a dead stream stays as it is. */
  lemma AppendCases(sink: Sink, r: AuditRecord, io: Io)
    requires WellFormed(r)
    ensures var (after, result) := AppendTo(sink, r, io);
      && (result == Appended <==> !Dead(sink) && io.Flushed?)
      && (result == OpenFailure <==> !sink.isOpen)
      && (result == Appended ==> after == sink.(file := sink.file + (Line(r) + "\n")))
      && (result != Appended ==> Dead(after))
      && (Dead(sink) ==> after == sink)
      && (!Dead(sink) && io.Torn? ==> after.file == sink.file + Prefix(Line(r) + "\n", io.written))
  {
    WellFormedDumps(r);
  }

  // ---- The file as lines

  /** The newline-terminated lines of a text; an unterminated rest is not a line. */
  function CompleteLines(text: string): seq<string> {
    var end := Find(text, '\n');
    if end == |text| then [] else [text[..end]] + CompleteLines(text[end + 1..])
  }

  /** Empty, or ending in a newline. */
  predicate LineAligned(text: string) {
    text == "" || text[|text| - 1] == '\n'
  }

  lemma FirstLine(text: string, end: nat)
    requires end < |text| && '\n' !in text[..end] && text[end] == '\n'
    ensures CompleteLines(text) == [text[..end]] + CompleteLines(text[end + 1..])
  {
    hide Find;
    FindAt(text, '\n', end);
  }

  lemma {:induction false} LinesOfConcat(a: string, b: string)
    requires LineAligned(a)
    ensures CompleteLines(a + b) == CompleteLines(a) + CompleteLines(b)
  {
    hide CompleteLines;
    if a == "" {
      assert a + b == b;
      NoLine(a);
    } else {
      var end := Find(a, '\n');
      assert end < |a|;
      assert (a + b)[..end] == a[..end];
      FirstLine(a, end);
      FirstLine(a + b, end);
      assert (a + b)[end + 1..] == a[end + 1..] + b;
      LinesOfConcat(a[end + 1..], b);
    }
  }

  lemma OneLine(line: string, rest: string)
    requires '\n' !in line
    ensures CompleteLines(line + "\n" + rest) == [line] + CompleteLines(rest)
  {
    hide CompleteLines;
    var text := line + "\n" + rest;
    assert text[..|line|] == line;
    FirstLine(text, |line|);
    assert text[|line| + 1..] == rest;
  }

  lemma NoLine(text: string)
    requires '\n' !in text
    ensures CompleteLines(text) == []
  {
    FindAt(text, '\n', |text|);
  }

  /** What successful appends of these lines add to the file. */
  function Added(lines: seq<string>): string {
    if lines == [] then "" else Added(lines[..|lines| - 1]) + (lines[|lines| - 1] + "\n")
  }

  lemma {:induction false} AddedAligned(lines: seq<string>)
    ensures LineAligned(Added(lines))
  {
  }

  /** The added text splits into exactly these lines, in order. */
  lemma {:induction false} AddedLines(lines: seq<string>)
    requires forall i :: 0 <= i < |lines| ==> '\n' !in lines[i]
    ensures CompleteLines(Added(lines)) == lines
  {
    hide CompleteLines;
    if lines == [] {
      NoLine("");
    } else {
      var front, last := lines[..|lines| - 1], lines[|lines| - 1];
      AddedLines(front);
      AddedAligned(front);
      LinesOfConcat(Added(front), last + "\n");
      OneLine(last, "");
      NoLine("");
      assert last + "\n" + "" == last + "\n";
    }
  }

  /** A torn line is at most one complete line. */
  lemma TornLines(line: string, torn: string)
    requires '\n' !in line && torn <= line + "\n"
    ensures CompleteLines(torn) == [] || CompleteLines(torn) == [line]
  {
    hide CompleteLines;
    if torn == line + "\n" {
      OneLine(line, "");
      NoLine("");
      assert line + "\n" + "" == torn;
    } else {
      assert torn <= line;
      assert '\n' !in torn;
      NoLine(torn);
    }
  }
}
