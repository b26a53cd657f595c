/**
 * Cargo's JSON diagnostics, already decoded, and their conversion into the
 * message record of the compile-fail check: the severity keyword of a source
 * directive mapped to a level, the first primary span as the location.
 */
module CargoMessages {
  import opened Wrappers
  import Sequences

  /** Severity of a diagnostic; `Empty` is the variant serde reads from the level name "". */
  datatype DiagnosticLevel = Error | Warning | Note | Help | Empty

  datatype DiagnosticCode = DiagnosticCode(code: string)

  datatype DiagnosticSpan = DiagnosticSpan(fileName: string, lineStart: nat, isPrimary: bool)

  datatype DiagnosticMessage = DiagnosticMessage(
    message: string,
    level: DiagnosticLevel,
    code: Option<DiagnosticCode>,
    spans: seq<DiagnosticSpan>,
    children: seq<DiagnosticMessage>)

  /** One line of `cargo build --message-format json`. */
  datatype Diagnostic = Diagnostic(message: Option<DiagnosticMessage>, reason: string)

  /** `DiagnosticSpan::default()`. */
  const DefaultSpan := DiagnosticSpan("unknown", 1, true)

  /** `From<&str> for DiagnosticLevel`: the directive keyword, upper case only. */
  function LevelFromStr(text: string): DiagnosticLevel
  {
    match text
    case "ERROR" => Error
    case "WARNING" => Warning
    case "NOTE" => Note
    case "HELP" => Help
    case _ => Empty
  }

  /** The directive keyword that names a level; `Empty` has none. */
  function Keyword(level: DiagnosticLevel): Option<string>
  {
    match level
    case Error => Some("ERROR")
    case Warning => Some("WARNING")
    case Note => Some("NOTE")
    case Help => Some("HELP")
    case Empty => None
  }

  /** `{:?}` of a level, as the derived `Debug` prints it. */
  function LevelName(level: DiagnosticLevel): string
  {
    match level
    case Error => "Error"
    case Warning => "Warning"
    case Note => "Note"
    case Help => "Help"
    case Empty => "Empty"
  }

  /** Exactly the four keywords map to a level other than `Empty`, and each maps back to its own keyword. */
  lemma LevelKeywordRoundTrip(text: string, level: DiagnosticLevel)
    ensures LevelFromStr(text) != Empty <==> text in {"ERROR", "WARNING", "NOTE", "HELP"}
    ensures LevelFromStr(text) != Empty ==> Keyword(LevelFromStr(text)) == Some(text)
    ensures Keyword(level).Some? ==> LevelFromStr(Keyword(level).value) == level
    ensures Keyword(level).None? <==> level == Empty
  {
  }

  /** A keyword in lower case is not recognised. */
  lemma LowerCaseIsEmpty()
    ensures LevelFromStr("error") == Empty && LevelFromStr("warning") == Empty
    ensures LevelFromStr("note") == Empty && LevelFromStr("help") == Empty
  {
  }

  /** The message body of the record; the compile-fail check matches only literal text here. */
  datatype MessageType = Text(text: string)

  datatype MessageLocation = MessageLocation(file: string, line: nat)

  /** The record a diagnostic becomes: its location is absent when no span is primary. */
  datatype CompilerMessage = CompilerMessage(
    message: MessageType,
    level: DiagnosticLevel,
    code: Option<string>,
    location: Option<MessageLocation>)

  /** The first span marked primary. */
  function FirstPrimary(spans: seq<DiagnosticSpan>): (r: Option<DiagnosticSpan>)
    ensures r.Some? ==> r.value in spans && r.value.isPrimary
  {
    Sequences.First(spans, (s: DiagnosticSpan) => s.isPrimary)
  }

  /** `Into<CompilerMessage> for DiagnosticMessage`. */
  function ToCompilerMessage(m: DiagnosticMessage): (r: CompilerMessage)
    ensures r.message == Text(m.message) && r.level == m.level
    ensures r.code == if m.code.Some? then Some(m.code.value.code) else None
  {
    var location := match FirstPrimary(m.spans)
      case Some(span) => Some(MessageLocation(span.fileName, span.lineStart))
      case None => None;
    CompilerMessage(Text(m.message), m.level, if m.code.Some? then Some(m.code.value.code) else None, location)
  }

  /** The location is that of the first primary span. */
  lemma LocationOfFirstPrimary(m: DiagnosticMessage, i: nat)
    requires i < |m.spans| && m.spans[i].isPrimary
    requires forall j :: 0 <= j < i ==> !m.spans[j].isPrimary
    ensures ToCompilerMessage(m).location == Some(MessageLocation(m.spans[i].fileName, m.spans[i].lineStart))
  {
    Sequences.FirstIs(m.spans, (s: DiagnosticSpan) => s.isPrimary, i);
  }

  /** Without a primary span there is no location, and with one there is. */
  lemma NoPrimaryNoLocation(m: DiagnosticMessage)
    ensures ToCompilerMessage(m).location.None? <==> forall j :: 0 <= j < |m.spans| ==> !m.spans[j].isPrimary
  {
    Sequences.FirstNone(m.spans, (s: DiagnosticSpan) => s.isPrimary);
  }

  /** Spans after the first primary one, primary or not, do not change the record. */
  lemma LaterSpansIgnored(m: DiagnosticMessage, extra: seq<DiagnosticSpan>)
    requires FirstPrimary(m.spans).Some?
    ensures ToCompilerMessage(m.(spans := m.spans + extra)) == ToCompilerMessage(m)
  {
    Sequences.FirstPrefix(m.spans, extra, (s: DiagnosticSpan) => s.isPrimary);
  }

  /** The child diagnostics are not part of the record. */
  lemma ChildrenIgnored(m: DiagnosticMessage, children: seq<DiagnosticMessage>)
    ensures ToCompilerMessage(m.(children := children)) == ToCompilerMessage(m)
  {
  }
}
