/**
 * The older compile-fail step that only collects what the compiler emitted:
 * it has its own diagnostic records (a level without `Help`, a mandatory
 * location that falls back to the default span) and always ends in a
 * verdict, because it has no expectations to compare with.
 */
module CollectErrors {
  import opened Wrappers
  import opened Errors
  import Sequences

  /** The levels this step decodes; `Empty` is the level of rustc's summary lines. */
  datatype DiagnosticLevel = Error | Warning | Note | Empty

  /** The name Cargo writes for a level: the variant in lower case, and "" for `Empty`. */
  function LevelName(level: DiagnosticLevel): string
  {
    match level
    case Error => "error"
    case Warning => "warning"
    case Note => "note"
    case Empty => ""
  }

  /** Decoding a level name; any other name, "help" among them, makes the whole line undecodable. */
  function DecodeLevel(name: string): Option<DiagnosticLevel>
  {
    match name
    case "error" => Some(Error)
    case "warning" => Some(Warning)
    case "note" => Some(Note)
    case "" => Some(Empty)
    case _ => None
  }

  /** Decoding inverts the naming, and only the four names decode. */
  lemma DecodeLevelIff(name: string, level: DiagnosticLevel)
    ensures DecodeLevel(name) == Some(level) <==> name == LevelName(level)
    ensures DecodeLevel(name).Some? <==> name in {"error", "warning", "note", ""}
  {
  }

  /** A top-level diagnostic at level "help" does not decode in this step. */
  lemma HelpUndecodable()
    ensures DecodeLevel("help").None? && DecodeLevel("HELP").None?
  {
  }

  datatype MessageLocation = MessageLocation(file: string, line: nat)

  /** What the step reports for one diagnostic; unlike the directive records, text and location are always there. */
  datatype CompilerMessage = CompilerMessage(
    message: string,
    level: DiagnosticLevel,
    code: Option<string>,
    location: MessageLocation)

  datatype DiagnosticSpan = DiagnosticSpan(fileName: string, lineStart: nat, isPrimary: bool)

  datatype DiagnosticCode = DiagnosticCode(code: string)

  datatype DiagnosticMessage = DiagnosticMessage(
    message: string,
    level: DiagnosticLevel,
    code: Option<DiagnosticCode>,
    spans: seq<DiagnosticSpan>)

  /** One decoded line of `cargo build --message-format json`. */
  datatype Diagnostic = Diagnostic(message: Option<DiagnosticMessage>, reason: string)

  /** `DiagnosticSpan::default()`. */
  const DefaultSpan := DiagnosticSpan("unknown", 1, true)

  /** The span a message is located at: the first primary one, or the default span. */
  function LocatingSpan(spans: seq<DiagnosticSpan>): (s: DiagnosticSpan)
    ensures s in spans || s == DefaultSpan
    ensures s.isPrimary
  {
    match Sequences.First(spans, (span: DiagnosticSpan) => span.isPrimary)
    case Some(span) => span
    case None => DefaultSpan
  }

  /** `Into<CompilerMessage> for DiagnosticMessage`. */
  function ToCompilerMessage(m: DiagnosticMessage): (r: CompilerMessage)
    ensures r.message == m.message && r.level == m.level
    ensures r.code.Some? <==> m.code.Some?
    ensures m.code.Some? ==> r.code.value == m.code.value.code
    ensures exists s :: (s in m.spans || s == DefaultSpan) && r.location == MessageLocation(s.fileName, s.lineStart)
  {
    var span := LocatingSpan(m.spans);
    CompilerMessage(m.message, m.level, if m.code.Some? then Some(m.code.value.code) else None,
      MessageLocation(span.fileName, span.lineStart))
  }

  /** The location is that of the first primary span. */
  lemma LocationOfFirstPrimary(m: DiagnosticMessage, i: nat)
    requires i < |m.spans| && m.spans[i].isPrimary
    requires forall j :: 0 <= j < i ==> !m.spans[j].isPrimary
    ensures ToCompilerMessage(m).location == MessageLocation(m.spans[i].fileName, m.spans[i].lineStart)
  {
    Sequences.FirstIs(m.spans, (span: DiagnosticSpan) => span.isPrimary, i);
  }

  /** Without a primary span the message is placed at line 1 of "unknown". */
  lemma NoPrimaryUnknown(m: DiagnosticMessage)
    requires forall j :: 0 <= j < |m.spans| ==> !m.spans[j].isPrimary
    ensures ToCompilerMessage(m).location == MessageLocation("unknown", 1)
  {
    Sequences.FirstNone(m.spans, (span: DiagnosticSpan) => span.isPrimary);
  }

  /** Spans after the first primary one do not change the record. */
  lemma LaterSpansIgnored(m: DiagnosticMessage, extra: seq<DiagnosticSpan>)
    requires exists j :: 0 <= j < |m.spans| && m.spans[j].isPrimary
    ensures ToCompilerMessage(m.(spans := m.spans + extra)) == ToCompilerMessage(m)
  {
    var keep := (span: DiagnosticSpan) => span.isPrimary;
    Sequences.FirstNone(m.spans, keep);
    Sequences.FirstPrefix(m.spans, extra, keep);
  }

  // ---------------------------------------------------------------------------
  // The record filter and the verdict of `execute`

  /** A diagnostic that is reported: a compiler message with a span and a level. */
  predicate IsKept(d: Diagnostic)
  {
    && d.reason == "compiler-message"
    && d.message.Some?
    && |d.message.value.spans| > 0
    && d.message.value.level != Empty
  }

  /** The converted message of one decoded line, when the diagnostic is kept. */
  function KeptAs(record: Option<Diagnostic>): Option<CompilerMessage>
  {
    if record.Some? && IsKept(record.value) then Some(ToCompilerMessage(record.value.message.value)) else None
  }

  /** The reported messages of the decoded lines, in emission order. */
  function Kept(records: seq<Option<Diagnostic>>): seq<CompilerMessage>
  {
    Sequences.FilterMap(records, KeptAs)
  }

  /**
   * How `execute` ends for the decoded lines of Cargo's output (`None` for a
   * line that does not decode) and the build's exit status. There is no
   * success: a line that does not decode aborts first, then the exit status
   * and the kept messages choose the verdict.
   */
  function Verdict(records: seq<Option<Diagnostic>>, success: bool, stdout: string, stderr: string): StepError<CompilerMessage>
  {
    if exists i :: 0 <= i < |records| && records[i].None? then UnparsableOutput
    else if success then Testing(UnexpectedBuildSuccess)
    else if Kept(records) != [] then Testing(MessageExpectationsFailed(Kept(records), []))
    else Testing(CrateBuildFailed(stdout, stderr))
  }

  /** `execute` after the build: the loop over the output lines, then the exit status. */
  method Execute(records: seq<Option<Diagnostic>>, success: bool, stdout: string, stderr: string)
    returns (r: StepError<CompilerMessage>)
    ensures r == Verdict(records, success, stdout, stderr)
  {
    var actual: seq<CompilerMessage> := [];
    var i := 0;
    while i < |records|
      invariant 0 <= i <= |records|
      invariant forall j :: 0 <= j < i ==> records[j].Some?
      invariant actual == Kept(records[..i])
    {
      assert records[..i + 1][..i] == records[..i];
      if records[i].None? {
        return UnparsableOutput;
      }
      var record := records[i].value;
      if record.reason == "compiler-message" && record.message.Some? {
        var message := record.message.value;
        if |message.spans| > 0 && message.level != Empty {
          actual := actual + [ToCompilerMessage(message)];
        }
      }
      i := i + 1;
    }
    assert records[..|records|] == records;
    if success {
      return Testing(UnexpectedBuildSuccess);
    }
    if |actual| > 0 {
      return Testing(MessageExpectationsFailed(actual, []));
    }
    return Testing(CrateBuildFailed(stdout, stderr));
  }

  /** The reported messages are the converted kept diagnostics. */
  lemma KeptMembers(records: seq<Option<Diagnostic>>, x: CompilerMessage)
    ensures x in Kept(records) <==>
      exists i :: 0 <= i < |records| && records[i].Some? && IsKept(records[i].value) && x == ToCompilerMessage(records[i].value.message.value)
  {
    Sequences.FilterMapMembers(records, KeptAs, x);
  }

  /** The diagnostics of two stretches of output are reported in the order they were emitted. */
  lemma KeptConcat(a: seq<Option<Diagnostic>>, b: seq<Option<Diagnostic>>)
    ensures Kept(a + b) == Kept(a) + Kept(b)
  {
    Sequences.FilterMapConcat(a, b, KeptAs);
  }

  /** A successful build whose output decodes is always the verdict `UnexpectedBuildSuccess`. */
  lemma SuccessIsUnexpected(records: seq<Option<Diagnostic>>, stdout: string, stderr: string)
    requires forall i :: 0 <= i < |records| ==> records[i].Some?
    ensures Verdict(records, true, stdout, stderr) == Testing(UnexpectedBuildSuccess)
  {
  }

  /**
   * A failed build is reported with all its kept messages as unexpected and
   * none missing exactly when some decoded diagnostic is kept.
   */
  lemma FailureReportsKept(records: seq<Option<Diagnostic>>, stdout: string, stderr: string)
    requires forall i :: 0 <= i < |records| ==> records[i].Some?
    ensures Verdict(records, false, stdout, stderr) == Testing(MessageExpectationsFailed(Kept(records), []))
      <==> exists i :: 0 <= i < |records| && IsKept(records[i].value)
    ensures Verdict(records, false, stdout, stderr) == Testing(CrateBuildFailed(stdout, stderr))
      <==> forall i :: 0 <= i < |records| ==> !IsKept(records[i].value)
  {
    if i :| 0 <= i < |records| && IsKept(records[i].value) {
      KeptMembers(records, ToCompilerMessage(records[i].value.message.value));
    }
    if Kept(records) != [] {
      KeptMembers(records, Kept(records)[0]);
    }
  }

  /** A line that does not decode aborts the step whatever the build did. */
  lemma UndecodableAborts(records: seq<Option<Diagnostic>>, success: bool, stdout: string, stderr: string, i: nat)
    requires i < |records| && records[i].None?
    ensures Verdict(records, success, stdout, stderr) == UnparsableOutput
  {
  }
}
