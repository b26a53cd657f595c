/**
 * The compile-fail check: the messages a crate's sources announce in
 * `//~` directives, the messages the compiler actually emitted, and the
 * comparison of the two.
 */
module CheckErrors {
  import opened Wrappers
  import opened Strings
  import opened Errors
  import Utils
  import Formatting
  import CargoMessages
  import Sequences

  type DiagnosticLevel = CargoMessages.DiagnosticLevel

  datatype MessageLocation = MessageLocation(file: string, line: nat)

  /** An expected or emitted message: a directive gives either a code or a text, never both. */
  datatype CompilerMessage = CompilerMessage(
    message: Option<string>,
    level: DiagnosticLevel,
    code: Option<string>,
    location: MessageLocation)

  // ---------------------------------------------------------------------------
  // The directive pattern `// *~([\^]+|[\|])? +(ERROR|WARNING|NOTE|HELP) +(.+)`

  /** Which line a directive is about: its own, `carets` lines above, or that of the message before it. */
  datatype Modifier = Here | Above(carets: nat) | SameAsLast

  /** What a directive captures: the modifier, the keyword and the text after it. */
  datatype Directive = Directive(modifier: Modifier, keyword: string, text: string)

  const Keywords: seq<string> := ["ERROR", "WARNING", "NOTE", "HELP"]

  /** The keyword alternative that matches at the start of `t`. */
  function KeywordAt(t: string): Option<string>
  {
    if "ERROR" <= t then Some("ERROR")
    else if "WARNING" <= t then Some("WARNING")
    else if "NOTE" <= t then Some("NOTE")
    else if "HELP" <= t then Some("HELP")
    else None
  }

  /** KeywordAt finds a keyword that starts `t`, and finds one whenever one does. */
  lemma KeywordAtSpec(t: string)
    ensures KeywordAt(t).Some? ==> KeywordAt(t).value in Keywords && KeywordAt(t).value <= t
    ensures KeywordAt(t).None? ==> forall k :: k in Keywords ==> !(k <= t)
  {
  }

  /** The text of a modifier as it stands in the directive. */
  function ModifierText(m: Modifier): (r: string)
    ensures |r| == match m case Here => 0 case Above(k) => k case SameAsLast => 1
  {
    match m
    case Here => ""
    case Above(k) => Repeat('^', k)
    case SameAsLast => "|"
  }

  /** The modifier the optional group `([\^]+|[\|])?` takes at the start of `t`. */
  function ModifierAt(t: string): (m: Modifier)
    ensures ValidModifier(m)
    ensures |ModifierText(m)| <= |t| && ModifierText(m) == t[..|ModifierText(m)|]
    ensures m.Above? <==> Run(t, '^') > 0
    ensures m.Above? ==> m.carets == Run(t, '^')
    ensures m.SameAsLast? <==> Run(t, '^') == 0 && t != [] && t[0] == '|'
  {
    var carets := Run(t, '^');
    if carets > 0 then
      assert Repeat('^', carets) == t[..carets];
      Above(carets)
    else if t != [] && t[0] == '|' then SameAsLast
    else Here
  }

  /**
   * The leftmost-first match of the directive pattern anchored at the start
   * of `t`. Every quantifier but the last is forced by the character after
   * it, so no other split of `t` can match.
   */
  function MatchDirective(t: string): Option<Directive>
  {
    match TildeEnd(t)
    case None => None
    case Some(m) => MatchModifier(t[m..])
  }

  /** The rest of the pattern after `~`. */
  function MatchModifier(u: string): Option<Directive>
  {
    var modifier := ModifierAt(u);
    MatchKeyword(modifier, u[|ModifierText(modifier)|..])
  }

  /** The rest of the pattern after the modifier: ` +(ERROR|WARNING|NOTE|HELP) +(.+)`. */
  function MatchKeyword(modifier: Modifier, v: string): Option<Directive>
  {
    var pad := Run(v, ' ');
    if pad == 0 then None
    else
      match KeywordAt(v[pad..])
      case None => None
      case Some(keyword) =>
        match GreedyTail(v[pad + |keyword|..])
        case None => None
        case Some(text) => Some(Directive(modifier, keyword, text))
  }

  /** `MESSAGE_REGEX.captures(line)`: the leftmost match. */
  function ScanDirective(line: string): Option<Directive>
  {
    Search(line, MatchDirective)
  }

  // The layout the pattern describes, stage by stage

  predicate ValidModifier(m: Modifier)
  {
    m.Above? ==> m.carets >= 1
  }

  /** `t` starts with `//`, `lead` spaces and `~`, followed by the rest of a directive for `d`. */
  ghost predicate DirectiveFits(t: string, d: Directive)
  {
    exists lead: nat :: LeadFits(t, lead, d)
  }

  ghost predicate LeadFits(t: string, lead: nat, d: Directive)
  {
    "//" + Repeat(' ', lead) + "~" <= t && ModifierFits(t[lead + 3..], d)
  }

  /** `u` starts with the modifier of `d` as written, followed by the rest of the directive. */
  ghost predicate ModifierFits(u: string, d: Directive)
  {
    && ValidModifier(d.modifier)
    && ModifierText(d.modifier) <= u
    && KeywordFits(u[|ModifierText(d.modifier)|..], d)
  }

  /** `v` starts with at least one space, the keyword of `d`, and the ` +(.+)` tail capturing `d.text`. */
  ghost predicate KeywordFits(v: string, d: Directive)
  {
    && d.keyword in Keywords
    && exists pad: nat, tailPad: nat :: PadFits(v, pad, tailPad, d)
  }

  ghost predicate PadFits(v: string, pad: nat, tailPad: nat, d: Directive)
  {
    && pad >= 1
    && Repeat(' ', pad) + d.keyword <= v
    && TailFits(v[pad + |d.keyword|..], tailPad, d.text)
  }

  /** A keyword at the start of `t` is the one KeywordAt finds: the four differ in their first letter. */
  lemma KeywordAtIs(t: string, keyword: string)
    requires keyword in Keywords && keyword <= t
    ensures KeywordAt(t) == Some(keyword)
  {
    assert t[0] == keyword[0];
    assert forall k :: k in Keywords && k <= t ==> k[0] == t[0];
  }

  lemma ModifierAtOf(m: Modifier, rest: string)
    requires ValidModifier(m) && rest != [] && rest[0] == ' '
    ensures ModifierAt(ModifierText(m) + rest) == m
  {
    var u := ModifierText(m) + rest;
    match m {
      case Above(n) =>
        assert u[n] == ' ';
        RunIs(u, '^', n);
      case SameAsLast =>
        assert u[0] == '|';
      case Here =>
        assert u[0] == ' ';
    }
  }

  lemma MatchKeywordOf(m: Modifier, pad: nat, keyword: string, rest: string)
    requires pad >= 1 && keyword in Keywords
    ensures MatchKeyword(m, Repeat(' ', pad) + keyword + rest)
      == match GreedyTail(rest) case Some(text) => Some(Directive(m, keyword, text)) case None => None
  {
    var v := Repeat(' ', pad) + keyword + rest;
    assert v[pad] == keyword[0];
    RunIs(v, ' ', pad);
    assert v[pad..] == keyword + rest;
    KeywordAtIs(v[pad..], keyword);
    assert v[pad + |keyword|..] == rest;
  }

  lemma PaddedPrefix(v: string, pad: nat, keyword: string)
    requires pad + |keyword| <= |v|
    requires forall j :: 0 <= j < pad ==> v[j] == ' '
    requires v[pad..][..|keyword|] == keyword
    ensures v[..pad + |keyword|] == Repeat(' ', pad) + keyword
  {
    var p := Repeat(' ', pad) + keyword;
    forall j | 0 <= j < pad + |keyword|
      ensures v[j] == p[j]
    {
      if j >= pad {
        assert v[j] == v[pad..][..|keyword|][j - pad];
      }
    }
  }

  /** What the keyword stage captures is laid out as the pattern says. */
  lemma KeywordSound(m: Modifier, v: string)
    requires MatchKeyword(m, v).Some?
    ensures MatchKeyword(m, v).value.modifier == m
    ensures KeywordFits(v, MatchKeyword(m, v).value)
  {
    var pad, keyword, text := KeywordParts(m, v);
    KeywordSoundAt(m, v, pad, keyword, text);
  }

  /** The pieces the keyword stage captured. */
  lemma KeywordParts(m: Modifier, v: string) returns (pad: nat, keyword: string, text: string)
    requires MatchKeyword(m, v).Some?
    ensures pad == Run(v, ' ') && pad >= 1
    ensures KeywordAt(v[pad..]) == Some(keyword) && GreedyTail(v[pad + |keyword|..]) == Some(text)
    ensures MatchKeyword(m, v) == Some(Directive(m, keyword, text))
  {
    pad := Run(v, ' ');
    KeywordFound(m, v);
    keyword := KeywordAt(v[pad..]).value;
    TailFound(m, v, pad, keyword);
    text := GreedyTail(v[pad + |keyword|..]).value;
    KeywordMatchIs(m, v, pad, keyword, text);
  }

  lemma KeywordFound(m: Modifier, v: string)
    requires MatchKeyword(m, v).Some?
    ensures Run(v, ' ') >= 1 && KeywordAt(v[Run(v, ' ')..]).Some?
  {
  }

  lemma TailFound(m: Modifier, v: string, pad: nat, keyword: string)
    requires MatchKeyword(m, v).Some?
    requires pad == Run(v, ' ') && pad >= 1 && KeywordAt(v[pad..]) == Some(keyword)
    ensures GreedyTail(v[pad + |keyword|..]).Some?
  {
  }

  lemma KeywordMatchIs(m: Modifier, v: string, pad: nat, keyword: string, text: string)
    requires pad == Run(v, ' ') && pad >= 1 && KeywordAt(v[pad..]) == Some(keyword)
    requires GreedyTail(v[pad + |keyword|..]) == Some(text)
    ensures MatchKeyword(m, v) == Some(Directive(m, keyword, text))
  {
  }

  lemma KeywordSoundAt(m: Modifier, v: string, pad: nat, keyword: string, text: string)
    requires pad == Run(v, ' ') && pad >= 1
    requires KeywordAt(v[pad..]) == Some(keyword)
    requires GreedyTail(v[pad + |keyword|..]) == Some(text)
    ensures KeywordFits(v, Directive(m, keyword, text))
  {
    assert v[pad..][..|keyword|] == keyword;
    PaddedPrefix(v, pad, keyword);
    PadFitsOf(v, pad, Directive(m, keyword, text));
  }

  lemma PadFitsOf(v: string, pad: nat, d: Directive)
    requires d.keyword in Keywords && pad >= 1 && pad + |d.keyword| <= |v|
    requires v[..pad + |d.keyword|] == Repeat(' ', pad) + d.keyword
    requires GreedyTail(v[pad + |d.keyword|..]) == Some(d.text)
    ensures KeywordFits(v, d)
  {
    var rest := v[pad + |d.keyword|..];
    GreedyTailSound(rest);
    var tailPad: nat :| TailFits(rest, tailPad, d.text);
    assert PadFits(v, pad, tailPad, d);
  }

  /** The keyword stage finds the keyword of any layout, and its text when that starts with a non-space. */
  lemma KeywordComplete(m: Modifier, v: string, d: Directive)
    requires KeywordFits(v, d)
    ensures MatchKeyword(m, v).Some?
    ensures MatchKeyword(m, v).value.modifier == m && MatchKeyword(m, v).value.keyword == d.keyword
    ensures d.text[0] != ' ' ==> MatchKeyword(m, v) == Some(Directive(m, d.keyword, d.text))
  {
    var pad: nat, tailPad: nat :| PadFits(v, pad, tailPad, d);
    var rest := v[pad + |d.keyword|..];
    assert MatchKeyword(m, v) == match GreedyTail(rest) case Some(text) => Some(Directive(m, d.keyword, text)) case None => None by {
      assert v == Repeat(' ', pad) + d.keyword + rest by {
        PadFitsSplit(v, pad, tailPad, d);
      }
      MatchKeywordOf(m, pad, d.keyword, rest);
    }
    TailComplete(rest, tailPad, d.text);
  }

  lemma PadFitsSplit(v: string, pad: nat, tailPad: nat, d: Directive)
    requires PadFits(v, pad, tailPad, d)
    ensures v == Repeat(' ', pad) + d.keyword + v[pad + |d.keyword|..]
  {
    assert v[..pad + |d.keyword|] == Repeat(' ', pad) + d.keyword;
  }

  /** A tail laid out for `text` is captured, and captured as `text` when that starts with a non-space. */
  lemma TailComplete(rest: string, tailPad: nat, text: string)
    requires TailFits(rest, tailPad, text)
    ensures GreedyTail(rest).Some?
    ensures text[0] != ' ' ==> GreedyTail(rest) == Some(text)
  {
    GreedyTailComplete(rest, tailPad, text);
    if text[0] != ' ' {
      GreedyTailExact(rest, tailPad, text);
    }
  }

  /** What the modifier stage captures is laid out as the pattern says. */
  lemma ModifierSound(u: string)
    requires MatchModifier(u).Some?
    ensures ModifierFits(u, MatchModifier(u).value)
  {
    var modifier := ModifierAt(u);
    KeywordSound(modifier, u[|ModifierText(modifier)|..]);
  }

  /** Any layout of the modifier and what follows reaches the keyword stage with that modifier. */
  lemma ModifierComplete(u: string, d: Directive)
    requires ModifierFits(u, d)
    ensures MatchModifier(u) == MatchKeyword(d.modifier, u[|ModifierText(d.modifier)|..])
  {
    var v := u[|ModifierText(d.modifier)|..];
    var pad: nat, tailPad: nat :| PadFits(v, pad, tailPad, d);
    assert v[0] == (Repeat(' ', pad) + d.keyword)[0];
    assert u == ModifierText(d.modifier) + v;
    MatchModifierOf(d.modifier, v);
  }

  lemma MatchDirectiveOf(lead: nat, u: string)
    ensures MatchDirective("//" + Repeat(' ', lead) + "~" + u) == MatchModifier(u)
  {
    TildeEndOf(lead, u);
    assert ("//" + Repeat(' ', lead) + "~" + u)[3 + lead..] == u;
  }

  lemma MatchModifierOf(m: Modifier, v: string)
    requires ValidModifier(m) && v != [] && v[0] == ' '
    ensures MatchModifier(ModifierText(m) + v) == MatchKeyword(m, v)
  {
    ModifierAtOf(m, v);
    assert (ModifierText(m) + v)[|ModifierText(m)|..] == v;
  }

  /** Whatever the anchored match captures is laid out as the pattern says. */
  lemma MatchSound(t: string)
    requires MatchDirective(t).Some?
    ensures DirectiveFits(t, MatchDirective(t).value)
  {
    var m := TildeEnd(t).value;
    assert MatchDirective(t) == MatchModifier(t[m..]);
    MatchSoundAt(t, m);
  }

  lemma MatchSoundAt(t: string, m: nat)
    requires TildeEnd(t) == Some(m) && MatchModifier(t[m..]).Some?
    ensures DirectiveFits(t, MatchModifier(t[m..]).value)
  {
    TildeEndSound(t, m);
    ModifierSound(t[m..]);
    LeadFitsOf(t, m, MatchModifier(t[m..]).value);
  }

  lemma LeadFitsOf(t: string, m: nat, d: Directive)
    requires 3 <= m <= |t| && t[..m] == "//" + Repeat(' ', m - 3) + "~" && ModifierFits(t[m..], d)
    ensures DirectiveFits(t, d)
  {
    assert LeadFits(t, m - 3, d);
  }

  /** The anchored match finds the modifier and keyword of any directive laid out at the start of `t`. */
  lemma MatchComplete(t: string, d: Directive)
    requires DirectiveFits(t, d)
    ensures MatchDirective(t).Some?
    ensures MatchDirective(t).value.modifier == d.modifier && MatchDirective(t).value.keyword == d.keyword
    ensures d.text[0] != ' ' ==> MatchDirective(t) == Some(d)
  {
    var lead: nat :| LeadFits(t, lead, d);
    var v := t[lead + 3..][|ModifierText(d.modifier)|..];
    assert MatchDirective(t) == MatchKeyword(d.modifier, v) by {
      ReachesKeyword(t, lead, d);
    }
    KeywordComplete(d.modifier, v, d);
  }

  /** A directive laid out with `lead` spaces reaches the keyword stage with its own modifier. */
  lemma ReachesKeyword(t: string, lead: nat, d: Directive)
    requires LeadFits(t, lead, d)
    ensures MatchDirective(t) == MatchKeyword(d.modifier, t[lead + 3..][|ModifierText(d.modifier)|..])
  {
    var u := t[lead + 3..];
    assert t == "//" + Repeat(' ', lead) + "~" + u;
    MatchDirectiveOf(lead, u);
    ModifierComplete(u, d);
  }

  /** The pattern matches at the start of `t` exactly when some directive is laid out there. */
  lemma MatchIff(t: string)
    ensures MatchDirective(t).Some? <==> exists d :: DirectiveFits(t, d)
  {
    if MatchDirective(t).Some? {
      MatchSound(t);
    }
    if d :| DirectiveFits(t, d) {
      MatchComplete(t, d);
    }
  }

  lemma NoFitIfNone(t: string)
    requires MatchDirective(t).None?
    ensures forall d :: !DirectiveFits(t, d)
  {
    MatchIff(t);
  }

  /**
   * `captures` finds the directive laid out at the leftmost position where
   * one is laid out.
   */
  lemma ScanSound(line: string)
    requires ScanDirective(line).Some?
    ensures exists p :: (0 <= p <= |line| && DirectiveFits(line[p..], ScanDirective(line).value)
      && forall q, d :: 0 <= q < p ==> !DirectiveFits(line[q..], d))
  {
    var matcher: string -> Option<Directive> := MatchDirective;
    SearchIff(line, matcher);
    var p: nat :| LeftmostAt(line, p, matcher) && matcher(line[p..]) == Search(line, matcher);
    assert DirectiveFits(line[p..], ScanDirective(line).value) by { MatchSound(line[p..]); }
    forall q | 0 <= q < p ensures forall d :: !DirectiveFits(line[q..], d) {
      assert Misses(line, q, matcher);
      NoFitIfNone(line[q..]);
    }
  }

  /** A directive laid out anywhere in the line is found. */
  lemma ScanComplete(line: string, p: nat, d: Directive)
    requires p <= |line| && DirectiveFits(line[p..], d)
    ensures ScanDirective(line).Some?
  {
    MatchIff(line[p..]);
    SearchIff(line, MatchDirective);
  }

  /** A line that starts with a directive laid out as the pattern says captures its parts exactly. */
  lemma ScanLaidOut(lead: nat, m: Modifier, pad: nat, keyword: string, tailPad: nat, text: string)
    requires ValidModifier(m) && keyword in Keywords && pad >= 1 && tailPad >= 1
    requires text != [] && '\n' !in text && text[0] != ' '
    ensures ScanDirective("//" + Repeat(' ', lead) + "~" + ModifierText(m) + Repeat(' ', pad) + keyword + Repeat(' ', tailPad) + text)
      == Some(Directive(m, keyword, text))
  {
    var t := "//" + Repeat(' ', lead) + "~" + ModifierText(m) + Repeat(' ', pad) + keyword + Repeat(' ', tailPad) + text;
    assert MatchDirective(t) == Some(Directive(m, keyword, text)) by {
      LaidOutMatch(lead, m, pad, keyword, tailPad, text);
    }
    SearchAtStart(t, MatchDirective);
  }

  lemma LaidOutMatch(lead: nat, m: Modifier, pad: nat, keyword: string, tailPad: nat, text: string)
    requires ValidModifier(m) && keyword in Keywords && pad >= 1 && tailPad >= 1
    requires text != [] && '\n' !in text && text[0] != ' '
    ensures MatchDirective("//" + Repeat(' ', lead) + "~" + ModifierText(m) + Repeat(' ', pad) + keyword + Repeat(' ', tailPad) + text)
      == Some(Directive(m, keyword, text))
  {
    var rest := Repeat(' ', tailPad) + text;
    var v := Repeat(' ', pad) + keyword + rest;
    var u := ModifierText(m) + v;
    LayoutConcat("//" + Repeat(' ', lead) + "~", ModifierText(m), Repeat(' ', pad), keyword, Repeat(' ', tailPad), text);
    MatchDirectiveOf(lead, u);
    assert v[0] == ' ';
    MatchModifierOf(m, v);
    MatchKeywordOf(m, pad, keyword, rest);
    assert TailFits(rest, tailPad, text);
    GreedyTailExact(rest, tailPad, text);
  }

  lemma LayoutConcat(a: string, b: string, c: string, d: string, e: string, f: string)
    ensures a + b + c + d + e + f == a + (b + (c + d + (e + f)))
  {
  }

  /** A directive on the line below the message, as the test crates write it. */
  lemma FixtureAbove()
    ensures ScanDirective("//~^ ERROR E0432") == Some(Directive(Above(1), "ERROR", "E0432"))
  {
    assert Repeat(' ', 0) == "" && Repeat(' ', 1) == " " && ModifierText(Above(1)) == "^";
    assert "//" + "" + "~" + "^" + " " + "ERROR" + " " + "E0432" == "//~^ ERROR E0432";
    ScanLaidOut(0, Above(1), 1, "ERROR", 1, "E0432");
  }

  /** A directive for the line of the previous message. */
  lemma FixtureSameAsLast()
    ensures ScanDirective("//~| HELP For previous line") == Some(Directive(SameAsLast, "HELP", "For previous line"))
  {
    assert Repeat(' ', 0) == "" && Repeat(' ', 1) == " " && ModifierText(SameAsLast) == "|";
    assert "//" + "" + "~" + "|" + " " + "HELP" + " " + "For previous line" == "//~| HELP For previous line";
    ScanLaidOut(0, SameAsLast, 1, "HELP", 1, "For previous line");
  }

  /** Extra spaces around the tilde and the keyword are allowed. */
  lemma FixtureExtraSpace()
    ensures ScanDirective("//  ~^^  NOTE  With extra space") == Some(Directive(Above(2), "NOTE", "With extra space"))
  {
    assert Repeat(' ', 2) == "  " && ModifierText(Above(2)) == "^^";
    assert "//" + "  " + "~" + "^^" + "  " + "NOTE" + "  " + "With extra space" == "//  ~^^  NOTE  With extra space";
    ScanLaidOut(2, Above(2), 2, "NOTE", 2, "With extra space");
  }

  /** A second directive on the same line is part of the first one's text, which runs to the end of the line. */
  lemma TwoDirectivesOneLine()
    ensures ScanDirective("//~ ERROR a //~ NOTE b") == Some(Directive(Here, "ERROR", "a //~ NOTE b"))
  {
    assert Repeat(' ', 0) == "" && Repeat(' ', 1) == " " && ModifierText(Here) == "";
    assert "//" + "" + "~" + "" + " " + "ERROR" + " " + "a //~ NOTE b" == "//~ ERROR a //~ NOTE b";
    ScanLaidOut(0, Here, 1, "ERROR", 1, "a //~ NOTE b");
  }

  /** Only spaces after the keyword: the engine gives one space back, and the text is " ". */
  lemma ScanBlankText(lead: nat, m: Modifier, pad: nat, keyword: string, n: nat)
    requires ValidModifier(m) && keyword in Keywords && pad >= 1 && n >= 2
    ensures ScanDirective("//" + Repeat(' ', lead) + "~" + ModifierText(m) + Repeat(' ', pad) + keyword + Repeat(' ', n))
      == Some(Directive(m, keyword, " "))
  {
    var t := "//" + Repeat(' ', lead) + "~" + ModifierText(m) + Repeat(' ', pad) + keyword + Repeat(' ', n);
    assert MatchDirective(t) == Some(Directive(m, keyword, " ")) by {
      BlankMatch(lead, m, pad, keyword, n);
    }
    SearchAtStart(t, MatchDirective);
  }

  lemma BlankMatch(lead: nat, m: Modifier, pad: nat, keyword: string, n: nat)
    requires ValidModifier(m) && keyword in Keywords && pad >= 1 && n >= 2
    ensures MatchDirective("//" + Repeat(' ', lead) + "~" + ModifierText(m) + Repeat(' ', pad) + keyword + Repeat(' ', n))
      == Some(Directive(m, keyword, " "))
  {
    var rest := Repeat(' ', n);
    var v := Repeat(' ', pad) + keyword + rest;
    var u := ModifierText(m) + v;
    BlankConcat("//" + Repeat(' ', lead) + "~", ModifierText(m), Repeat(' ', pad), keyword, rest);
    assert MatchDirective("//" + Repeat(' ', lead) + "~" + u) == MatchModifier(u) by {
      MatchDirectiveOf(lead, u);
    }
    assert MatchModifier(u) == MatchKeyword(m, v) by {
      assert v[0] == ' ';
      MatchModifierOf(m, v);
    }
    assert MatchKeyword(m, v) == Some(Directive(m, keyword, " ")) by {
      MatchKeywordOf(m, pad, keyword, rest);
      GreedyTailBlank(n);
    }
  }

  lemma BlankConcat(a: string, b: string, c: string, d: string, e: string)
    ensures a + b + c + d + e == a + (b + (c + d + e))
  {
  }

  lemma BlankDirectiveText()
    ensures ScanDirective("//~ NOTE   ") == Some(Directive(Here, "NOTE", " "))
  {
    assert Repeat(' ', 0) == "" && Repeat(' ', 1) == " " && Repeat(' ', 3) == "   " && ModifierText(Here) == "";
    assert "//" + "" + "~" + "" + " " + "NOTE" + "   " == "//~ NOTE   ";
    ScanBlankText(0, Here, 1, "NOTE", 3);
  }

  // ---------------------------------------------------------------------------
  // The error-code pattern `^ *E\d{4} *$`

  predicate IsAsciiDigit(c: char)
  {
    '0' <= c <= '9'
  }

  /**
   * `ERR_CODE_REGEX.is_match(t)`. The pattern is anchored at both ends and
   * each quantifier stops at a character it cannot take, so one pass decides.
   */
  predicate IsErrorCode(t: string)
  {
    var lead := Run(t, ' ');
    && lead + 5 <= |t|
    && t[lead] == 'E'
    && (forall j :: lead + 1 <= j < lead + 5 ==> IsAsciiDigit(t[j]))
    && (forall j :: lead + 5 <= j < |t| ==> t[j] == ' ')
  }

  /** `t` is `lead` spaces, `E`, the four digits and `trail` spaces. */
  ghost predicate CodeLayout(t: string, lead: nat, digits: string, trail: nat)
  {
    && |digits| == 4
    && (forall j :: 0 <= j < 4 ==> IsAsciiDigit(digits[j]))
    && t == Repeat(' ', lead) + "E" + digits + Repeat(' ', trail)
  }

  /** A layout is recognised, and `trim` of it is the code itself. */
  lemma CodeOf(t: string, lead: nat, digits: string, trail: nat)
    requires CodeLayout(t, lead, digits, trail)
    ensures IsErrorCode(t)
    ensures Trim(t) == "E" + digits
  {
    var code := "E" + digits;
    PaddedCode(lead, code, trail);
    PaddedTrail(lead, code, trail);
    assert t[lead] == code[0];
    RunIs(t, ' ', lead);
    assert t == Repeat(' ', lead) + (code + Repeat(' ', trail));
    TrimStartSpaces(lead, code + Repeat(' ', trail));
    TrimEndSpaces(code, trail);
  }

  /** Whatever is recognised is a layout. */
  lemma CodeSound(t: string)
    requires IsErrorCode(t)
    ensures var lead := Run(t, ' '); CodeLayout(t, lead, t[lead + 1..lead + 5], |t| - (lead + 5))
  {
    CodeSoundAt(t, Run(t, ' '));
  }

  lemma CodeSoundAt(t: string, lead: nat)
    requires lead + 5 <= |t| && t[lead] == 'E'
    requires forall j :: 0 <= j < lead ==> t[j] == ' '
    requires forall j :: lead + 1 <= j < lead + 5 ==> IsAsciiDigit(t[j])
    requires forall j :: lead + 5 <= j < |t| ==> t[j] == ' '
    ensures CodeLayout(t, lead, t[lead + 1..lead + 5], |t| - (lead + 5))
  {
    var trail := |t| - (lead + 5);
    var digits := t[lead + 1..lead + 5];
    assert forall j :: 0 <= j < 4 ==> IsAsciiDigit(digits[j]) by {
      assert forall j :: 0 <= j < 4 ==> digits[j] == t[lead + 1 + j];
    }
    assert t[..lead] == Repeat(' ', lead) by {
      RepeatSlice(t, 0, lead, ' ');
    }
    assert t[lead + 5..] == Repeat(' ', trail) by {
      RepeatSuffix(t, lead + 5, ' ');
    }
    LayoutOfParts(t, lead, digits, trail);
  }

  /** The pieces of a recognised code put back together. */
  lemma LayoutOfParts(t: string, lead: nat, digits: string, trail: nat)
    requires lead + 5 + trail == |t| && t[lead] == 'E'
    requires t[..lead] == Repeat(' ', lead) && t[lead + 1..lead + 5] == digits && t[lead + 5..] == Repeat(' ', trail)
    requires forall j :: 0 <= j < 4 ==> IsAsciiDigit(digits[j])
    ensures CodeLayout(t, lead, digits, trail)
  {
    SplitAt(t, lead);
  }

  lemma SplitAt(t: string, a: nat)
    requires a + 5 <= |t|
    ensures t == t[..a] + "E" + t[a + 1..a + 5] + t[a + 5..] || t[a] != 'E'
  {
    if t[a] == 'E' {
      assert t[..a] + "E" == t[..a + 1];
      assert t[..a + 1] + t[a + 1..a + 5] == t[..a + 5];
    }
  }

  /** Where `code` stands between `lead` and `trail` spaces. */
  lemma PaddedCode(lead: nat, code: string, trail: nat)
    ensures forall j :: 0 <= j < |code| ==> (Repeat(' ', lead) + code + Repeat(' ', trail))[lead + j] == code[j]
  {
  }

  /** What follows `code` is spaces. */
  lemma PaddedTrail(lead: nat, code: string, trail: nat)
    ensures var t := Repeat(' ', lead) + code + Repeat(' ', trail);
      forall j :: lead + |code| <= j < |t| ==> t[j] == ' '
  {
  }

  /** The text of a directive is a code exactly when it is laid out as one. */
  lemma ErrorCodeIff(t: string)
    ensures IsErrorCode(t) <==> exists lead: nat, digits: string, trail: nat :: CodeLayout(t, lead, digits, trail)
  {
    if IsErrorCode(t) {
      CodeSound(t);
    }
    if lead: nat, digits: string, trail: nat :| CodeLayout(t, lead, digits, trail) {
      CodeOf(t, lead, digits, trail);
    }
  }

  /** Codes of other shapes: three or five digits, a lower-case `e`, a letter among the digits, text after it. */
  lemma NotErrorCodes()
    ensures !IsErrorCode("E043") && !IsErrorCode("E04321") && !IsErrorCode("e0432")
    ensures !IsErrorCode("E04x2") && !IsErrorCode("E0432 unresolved import")
  {
    assert !IsErrorCode("E043") by {
      assert Run("E043", ' ') == 0;
    }
    assert !IsErrorCode("E04321") by {
      assert "E04321"[5] == '1';
    }
    assert !IsErrorCode("E04x2") by {
      assert "E04x2"[3] == 'x';
    }
    assert !IsErrorCode("E0432 unresolved import") by {
      assert Run("E0432 unresolved import", ' ') == 0;
      assert "E0432 unresolved import"[6] == 'u';
    }
  }

  /** A code may stand between spaces. */
  lemma PaddedErrorCode()
    ensures IsErrorCode("  E0432 ")
  {
    RunIs("  E0432 ", ' ', 2);
  }

  /** `trim` removes the spaces around a code. */
  lemma PaddedCodeTrimmed()
    ensures Trim("  E0432 ") == "E0432"
  {
    var t := "  E0432 ";
    assert TrimStart(t) == "E0432 " by {
      TrimStartDrop(t, 2);
      assert t[2..] == "E0432 ";
    }
    assert TrimEnd("E0432 ") == "E0432" by {
      assert "E0432 "[..5] == "E0432";
      TrimEndNoop("E0432");
    }
  }

  // ---------------------------------------------------------------------------
  // Expected messages: `collect_crate_messages` and `analyse_source_line`

  /**
   * Why collecting stops: a file that cannot be made relative or opened, or
   * more `^`s than the line number, where `line - carets` on `usize` underflows
   * (a panic with overflow checks on, a wrapped huge line number otherwise).
   */
  datatype CollectError =
    | SourceFailed(error: Utils.SourceError)
    | LineUnderflow(path: string, line: nat, carets: nat)

  /** The captured directive has one of the four keywords and a modifier with at least one caret. */
  lemma ScanShape(line: string)
    requires ScanDirective(line).Some?
    ensures ScanDirective(line).value.keyword in Keywords
    ensures ValidModifier(ScanDirective(line).value.modifier)
  {
    ScanSound(line);
    var p: nat :| p <= |line| && DirectiveFits(line[p..], ScanDirective(line).value);
    var lead: nat :| LeadFits(line[p..], lead, ScanDirective(line).value);
  }

  /** The line of the last message collected so far, from any file; 1 when there is none. */
  function LastLine(messages: seq<CompilerMessage>): nat
  {
    if messages == [] then 1 else messages[|messages| - 1].location.line
  }

  /** The message a directive announces at `location`. */
  function Announced(d: Directive, location: MessageLocation): (m: CompilerMessage)
    ensures m.location == location && m.level == CargoMessages.LevelFromStr(d.keyword)
    ensures d.keyword in Keywords ==> m.level != CargoMessages.Empty
    ensures m.code.Some? <==> IsErrorCode(d.text)
    ensures m.code.Some? <==> m.message.None?
    ensures m.code.Some? ==> m.code.value == Trim(d.text)
    ensures m.message.Some? ==> m.message.value == Trim(d.text)
  {
    var level := CargoMessages.LevelFromStr(d.keyword);
    if IsErrorCode(d.text) then CompilerMessage(None, level, Some(Trim(d.text)), location)
    else CompilerMessage(Some(Trim(d.text)), level, None, location)
  }

  /**
   * What a directive found on line `lineNum` of `path` announces, given the
   * messages collected before it.
   */
  function DirectiveMessage(messages: seq<CompilerMessage>, path: string, lineNum: nat, d: Directive)
    : (r: Result<CompilerMessage, CollectError>)
    ensures r.Failure? <==> d.modifier.Above? && d.modifier.carets > lineNum
    ensures r.Failure? ==> r.error == LineUnderflow(path, lineNum, d.modifier.carets)
    ensures r.Success? ==>
      var m := r.value;
      && m.location.file == path
      && m.location.line == (match d.modifier
                             case Here => lineNum
                             case Above(k) => lineNum - k
                             case SameAsLast => LastLine(messages))
      && m.level == CargoMessages.LevelFromStr(d.keyword)
      && (d.keyword in Keywords ==> m.level != CargoMessages.Empty)
      && (m.code.Some? <==> IsErrorCode(d.text))
      && (m.code.Some? <==> m.message.None?)
      && (m.code.Some? ==> m.code.value == Trim(d.text))
      && (m.message.Some? ==> m.message.value == Trim(d.text))
  {
    match d.modifier
    case Here => Success(Announced(d, MessageLocation(path, lineNum)))
    case Above(k) =>
      if k > lineNum then Failure(LineUnderflow(path, lineNum, k))
      else Success(Announced(d, MessageLocation(path, lineNum - k)))
    case SameAsLast => Success(Announced(d, MessageLocation(path, LastLine(messages))))
  }

  /**
   * `analyse_source_line`: the message line `lineNum` of `path` announces, if
   * any; only a line holding a directive announces one, and it is never of
   * level `Empty`.
   */
  function LineMessage(messages: seq<CompilerMessage>, path: string, lineNum: nat, line: string)
    : (r: Result<Option<CompilerMessage>, CollectError>)
    ensures r == Success(None) <==> ScanDirective(line).None?
    ensures ScanDirective(line).Some? ==>
      match DirectiveMessage(messages, path, lineNum, ScanDirective(line).value)
      case Success(m) => r == Success(Some(m))
      case Failure(e) => r == Failure(e)
    ensures r.Success? && r.value.Some? ==> r.value.value.level != CargoMessages.Empty
  {
    match ScanDirective(line)
    case None => Success(None)
    case Some(d) =>
      ScanShape(line);
      match DirectiveMessage(messages, path, lineNum, d)
      case Success(m) => Success(Some(m))
      case Failure(e) => Failure(e)
  }

  /**
   * The messages after the lines of one file, numbered from 1, on top of
   * `messages` collected from earlier files.
   */
  function FileMessages(messages: seq<CompilerMessage>, path: string, lines: seq<string>)
    : Result<seq<CompilerMessage>, CollectError>
  {
    if lines == [] then Success(messages)
    else
      match FileMessages(messages, path, lines[..|lines| - 1])
      case Failure(e) => Failure(e)
      case Success(before) =>
        match LineMessage(before, path, |lines|, lines[|lines| - 1])
        case Failure(e) => Failure(e)
        case Success(None) => Success(before)
        case Success(Some(m)) => Success(before + [m])
  }

  /** `collect_crate_messages` from `messages` on: the files in order, sharing one vector. */
  function CrateMessages(crate: string, files: seq<Utils.SourceFile>, messages: seq<CompilerMessage>)
    : Result<seq<CompilerMessage>, CollectError>
  {
    if files == [] then Success(messages)
    else
      match Utils.ReadSource(crate, files[0])
      case Failure(e) => Failure(SourceFailed(e))
      case Success(source) =>
        match FileMessages(messages, source.0, source.1)
        case Failure(e) => Failure(e)
        case Success(after) => CrateMessages(crate, files[1..], after)
  }

  /** A failure at some line is the failure of the whole file. */
  lemma {:induction false} FileMessagesAbort(messages: seq<CompilerMessage>, path: string, lines: seq<string>, n: nat)
    requires n <= |lines| && FileMessages(messages, path, lines[..n]).Failure?
    ensures FileMessages(messages, path, lines) == FileMessages(messages, path, lines[..n])
    decreases |lines| - n
  {
    if n < |lines| {
      assert lines[..n + 1][..n] == lines[..n];
      FileMessagesAbort(messages, path, lines, n + 1);
    } else {
      assert lines[..n] == lines;
    }
  }

  /** `collect_crate_messages`: every line of every file through `analyse_source_line`, pushing into one vector. */
  method CollectCrateMessages(crate: string, files: seq<Utils.SourceFile>) returns (r: Result<seq<CompilerMessage>, CollectError>)
    ensures r == CrateMessages(crate, files, [])
  {
    var messages: seq<CompilerMessage> := [];
    var i := 0;
    while i < |files|
      invariant 0 <= i <= |files|
      invariant CrateMessages(crate, files, []) == CrateMessages(crate, files[i..], messages)
    {
      assert files[i..][0] == files[i];
      assert files[i..][1..] == files[i + 1..];
      var source := Utils.ReadSource(crate, files[i]);
      if source.Failure? {
        return Failure(SourceFailed(source.error));
      }
      var (path, lines) := source.value;
      ghost var start := messages;
      var lineNum := 1;
      while lineNum <= |lines|
        invariant 1 <= lineNum <= |lines| + 1
        invariant FileMessages(start, path, lines[..lineNum - 1]) == Success(messages)
      {
        assert lines[..lineNum][..lineNum - 1] == lines[..lineNum - 1];
        var found := LineMessage(messages, path, lineNum, lines[lineNum - 1]);
        if found.Failure? {
          FileMessagesAbort(start, path, lines, lineNum);
          return Failure(found.error);
        }
        if found.value.Some? {
          messages := messages + [found.value.value];
        }
        lineNum := lineNum + 1;
      }
      assert lines[..|lines|] == lines;
      i := i + 1;
    }
    return Success(messages);
  }

  /** A message as a directive announces it: exactly one of code and text, and a level that is not `Empty`. */
  predicate WellFormed(m: CompilerMessage)
  {
    (m.code.Some? <==> m.message.None?) && m.level != CargoMessages.Empty
  }

  /**
   * Collecting a file only appends, at most one message per line, each with
   * this file's path and well-formed; the messages of earlier files stay as
   * they are.
   */
  lemma {:induction false} FileMessagesGrow(messages: seq<CompilerMessage>, path: string, lines: seq<string>)
    requires FileMessages(messages, path, lines).Success?
    ensures var after := FileMessages(messages, path, lines).value;
      && messages <= after
      && |after| <= |messages| + |lines|
      && forall k :: |messages| <= k < |after| ==> after[k].location.file == path && WellFormed(after[k])
  {
    if lines != [] {
      var init := lines[..|lines| - 1];
      FileMessagesGrow(messages, path, init);
    }
  }

  /** Lines without a directive leave the vector as it was. */
  lemma {:induction false} FileMessagesQuiet(messages: seq<CompilerMessage>, path: string, lines: seq<string>)
    requires forall i :: 0 <= i < |lines| ==> ScanDirective(lines[i]).None?
    ensures FileMessages(messages, path, lines) == Success(messages)
  {
    if lines != [] {
      var init := lines[..|lines| - 1];
      assert forall i :: 0 <= i < |init| ==> init[i] == lines[i];
      FileMessagesQuiet(messages, path, init);
    }
  }

  /** The first lines of a file collect a prefix of what the whole file collects. */
  lemma {:induction false} FileMessagesPrefix(messages: seq<CompilerMessage>, path: string, lines: seq<string>, n: nat)
    requires n <= |lines| && FileMessages(messages, path, lines).Success?
    ensures FileMessages(messages, path, lines[..n]).Success?
    ensures FileMessages(messages, path, lines[..n]).value <= FileMessages(messages, path, lines).value
    decreases |lines| - n
  {
    if n < |lines| {
      FileMessagesPrefix(messages, path, lines, n + 1);
      assert lines[..n + 1][..n] == lines[..n];
    } else {
      assert lines[..n] == lines;
    }
  }

  /** Message `k` of `after` is the one line `i` (numbered `i + 1`) announces, given the messages collected before it. */
  ghost predicate AnnouncedAt(messages: seq<CompilerMessage>, path: string, lines: seq<string>, i: nat, after: seq<CompilerMessage>, k: nat)
    requires i < |lines| && k < |after|
  {
    var before := FileMessages(messages, path, lines[..i]);
    && before.Success?
    && |before.value| == k
    && LineMessage(before.value, path, i + 1, lines[i]) == Success(Some(after[k]))
  }

  /** Every message a file adds comes from one of its lines, analysed with its number counted from 1. */
  lemma {:induction false} FileMessagesOrigin(messages: seq<CompilerMessage>, path: string, lines: seq<string>, k: nat)
    requires FileMessages(messages, path, lines).Success?
    requires |messages| <= k < |FileMessages(messages, path, lines).value|
    ensures exists i: nat :: i < |lines| && AnnouncedAt(messages, path, lines, i, FileMessages(messages, path, lines).value, k)
  {
    var after := FileMessages(messages, path, lines).value;
    var n := |lines| - 1;
    var before := FileMessages(messages, path, lines[..n]).value;
    if k < |before| {
      FileMessagesOrigin(messages, path, lines[..n], k);
      var i: nat :| i < n && AnnouncedAt(messages, path, lines[..n], i, before, k);
      OriginLift(messages, path, lines, n, i, k);
    } else {
      assert AnnouncedAt(messages, path, lines, n, after, k);
    }
  }

  /** What a line announces among the first `n` lines it still announces in the whole file. */
  lemma OriginLift(messages: seq<CompilerMessage>, path: string, lines: seq<string>, n: nat, i: nat, k: nat)
    requires i < n <= |lines| && FileMessages(messages, path, lines).Success?
    requires FileMessages(messages, path, lines[..n]).Success?
    requires k < |FileMessages(messages, path, lines[..n]).value|
    requires AnnouncedAt(messages, path, lines[..n], i, FileMessages(messages, path, lines[..n]).value, k)
    ensures k < |FileMessages(messages, path, lines).value|
    ensures AnnouncedAt(messages, path, lines, i, FileMessages(messages, path, lines).value, k)
  {
    FileMessagesPrefix(messages, path, lines, n);
    AnnouncedLift(messages, path, lines[..n], lines, i,
      FileMessages(messages, path, lines[..n]).value, FileMessages(messages, path, lines).value, k);
  }

  /** Whether line `i` announces message `k` depends only on the lines up to `i` and on message `k`. */
  lemma AnnouncedLift(messages: seq<CompilerMessage>, path: string, lines: seq<string>, lines': seq<string>,
                      i: nat, after: seq<CompilerMessage>, after': seq<CompilerMessage>, k: nat)
    requires i < |lines| && lines <= lines'
    requires k < |after| && after <= after'
    requires AnnouncedAt(messages, path, lines, i, after, k)
    ensures k < |after'| && AnnouncedAt(messages, path, lines', i, after', k)
  {
    assert lines[..i] == lines'[..i];
  }

  /** The crate's messages extend the given ones by well-formed messages only. */
  lemma {:induction false} CrateMessagesGrow(crate: string, files: seq<Utils.SourceFile>, messages: seq<CompilerMessage>)
    requires CrateMessages(crate, files, messages).Success?
    ensures var all := CrateMessages(crate, files, messages).value;
      messages <= all && forall k :: |messages| <= k < |all| ==> WellFormed(all[k])
  {
    if files != [] {
      var source := Utils.ReadSource(crate, files[0]).value;
      FileMessagesGrow(messages, source.0, source.1);
      var after := FileMessages(messages, source.0, source.1).value;
      CrateMessagesGrow(crate, files[1..], after);
    }
  }

  /** Every expected message of a crate is well formed. */
  lemma CollectedWellFormed(crate: string, files: seq<Utils.SourceFile>)
    requires CrateMessages(crate, files, []).Success?
    ensures forall m :: m in CrateMessages(crate, files, []).value ==> WellFormed(m)
  {
    CrateMessagesGrow(crate, files, []);
  }

  // ---------------------------------------------------------------------------
  // Comparing expected and actual messages: `PartialEq` and `execute`

  /**
   * `PartialEq::eq`: the same location and level, and then the codes when
   * both have one, the texts otherwise.
   */
  predicate MessagesEqual(a: CompilerMessage, b: CompilerMessage)
    ensures MessagesEqual(a, b) ==> a.location == b.location && a.level == b.level
    ensures MessagesEqual(a, b) ==> Described(a) && Described(b)
  {
    if a.location != b.location || a.level != b.level then false
    else if a.code.Some? && b.code.Some? then a.code.value == b.code.value
    else a.message.Some? && b.message.Some? && a.message.value == b.message.value
  }

  /** A message with a code or a text. */
  predicate Described(m: CompilerMessage)
  {
    m.code.Some? || m.message.Some?
  }

  lemma EqualSymmetric(a: CompilerMessage, b: CompilerMessage)
    ensures MessagesEqual(a, b) <==> MessagesEqual(b, a)
  {
  }

  /** A message equals itself exactly when it has a code or a text. */
  lemma EqualReflexive(a: CompilerMessage)
    ensures MessagesEqual(a, a) <==> Described(a)
  {
  }

  /** A message with neither code nor text equals nothing. */
  lemma UndescribedEqualsNothing(a: CompilerMessage, b: CompilerMessage)
    requires !Described(a)
    ensures !MessagesEqual(a, b) && !MessagesEqual(b, a)
  {
  }

  /** When both have a code, only the codes are compared; the texts may differ. */
  lemma CodeDecides(a: CompilerMessage, b: CompilerMessage)
    requires a.location == b.location && a.level == b.level && a.code.Some? && b.code.Some?
    ensures MessagesEqual(a, b) <==> a.code == b.code
  {
  }

  /** Equality is not transitive: a code-only message and a text-only message can both equal one with both. */
  lemma EqualNotTransitive()
    ensures var at := MessageLocation("src/lib.rs", 2);
      var a := CompilerMessage(None, CargoMessages.Error, Some("E0432"), at);
      var b := CompilerMessage(Some("unresolved import"), CargoMessages.Error, Some("E0432"), at);
      var c := CompilerMessage(Some("unresolved import"), CargoMessages.Error, None, at);
      MessagesEqual(a, b) && MessagesEqual(b, c) && !MessagesEqual(a, c)
  {
  }

  /** `xs.contains(x)`: some element equals `x`. */
  predicate Contains(xs: seq<CompilerMessage>, x: CompilerMessage)
  {
    exists i :: 0 <= i < |xs| && MessagesEqual(xs[i], x)
  }

  /** `xs.filter(|item| !ys.contains(item))`, in the order of `xs`. */
  function WithoutMatch(xs: seq<CompilerMessage>, ys: seq<CompilerMessage>): (r: seq<CompilerMessage>)
    ensures |r| <= |xs|
  {
    if xs == [] then []
    else (if Contains(ys, xs[0]) then [] else [xs[0]]) + WithoutMatch(xs[1..], ys)
  }

  /** The filter keeps exactly the elements without an equal in `ys`. */
  lemma {:induction false} WithoutMatchMembers(xs: seq<CompilerMessage>, ys: seq<CompilerMessage>, x: CompilerMessage)
    ensures x in WithoutMatch(xs, ys) <==> x in xs && !Contains(ys, x)
  {
    if xs != [] {
      WithoutMatchMembers(xs[1..], ys, x);
      assert xs == [xs[0]] + xs[1..];
    }
  }

  /** The filter keeps the order: it distributes over concatenation. */
  lemma {:induction false} WithoutMatchConcat(a: seq<CompilerMessage>, b: seq<CompilerMessage>, ys: seq<CompilerMessage>)
    ensures WithoutMatch(a + b, ys) == WithoutMatch(a, ys) + WithoutMatch(b, ys)
  {
    if a == [] {
      assert a + b == b;
    } else {
      assert (a + b)[0] == a[0];
      assert (a + b)[1..] == a[1..] + b;
      WithoutMatchConcat(a[1..], b, ys);
    }
  }

  /** Nothing is left exactly when every element has an equal in `ys`. */
  lemma {:induction false} WithoutMatchEmpty(xs: seq<CompilerMessage>, ys: seq<CompilerMessage>)
    ensures WithoutMatch(xs, ys) == [] <==> forall i :: 0 <= i < |xs| ==> Contains(ys, xs[i])
  {
    if xs != [] {
      WithoutMatchEmpty(xs[1..], ys);
      assert forall i :: 1 <= i < |xs| ==> xs[i] == xs[1..][i - 1];
    }
  }

  /**
   * `execute`: the failure of finding the actual messages, or a verdict on
   * the two lists of messages without an equal on the other side.
   */
  function Execute(expected: seq<CompilerMessage>, actual: Result<seq<CompilerMessage>, StepError<CompilerMessage>>)
    : (r: Outcome<StepError<CompilerMessage>>)
    ensures actual.Failure? ==> r == Fail(actual.error)
    ensures actual.Success? ==>
      (r == Pass <==> && (forall i :: 0 <= i < |actual.value| ==> Contains(expected, actual.value[i]))
                      && (forall i :: 0 <= i < |expected| ==> Contains(actual.value, expected[i])))
    ensures actual.Success? && r.Fail? ==>
      r.error == Testing(MessageExpectationsFailed(WithoutMatch(actual.value, expected), WithoutMatch(expected, actual.value)))
  {
    match actual
    case Failure(e) => Fail(e)
    case Success(messages) =>
      var unexpected := WithoutMatch(messages, expected);
      var missing := WithoutMatch(expected, messages);
      WithoutMatchEmpty(messages, expected);
      WithoutMatchEmpty(expected, messages);
      if |unexpected| > 0 || |missing| > 0 then Fail(Testing(MessageExpectationsFailed(unexpected, missing)))
      else Pass
  }

  /** Expected messages that all have a code or a text pass against themselves. */
  lemma ExecuteSelf(messages: seq<CompilerMessage>)
    requires forall i :: 0 <= i < |messages| ==> Described(messages[i])
    ensures Execute(messages, Success(messages)) == Pass
  {
    forall i | 0 <= i < |messages| ensures Contains(messages, messages[i]) {
      assert MessagesEqual(messages[i], messages[i]);
    }
  }

  /** An expected message with neither code nor text is always missing. */
  lemma ExecuteUndescribed(expected: seq<CompilerMessage>, actual: seq<CompilerMessage>, i: nat)
    requires i < |expected| && !Described(expected[i])
    ensures Execute(expected, Success(actual)).Fail?
    ensures expected[i] in Execute(expected, Success(actual)).error.verdict.missing
  {
    forall j | 0 <= j < |actual| ensures !MessagesEqual(actual[j], expected[i]) {
      UndescribedEqualsNothing(expected[i], actual[j]);
    }
    WithoutMatchMembers(expected, actual, expected[i]);
  }

  // ---------------------------------------------------------------------------
  // Actual messages: the filter and the outcome of `find_actual_messages`

  /** A diagnostic that counts: a compiler message with a span and a level. */
  predicate IsKept(d: CargoMessages.Diagnostic)
  {
    && d.reason == "compiler-message"
    && d.message.Some?
    && |d.message.value.spans| > 0
    && d.message.value.level != CargoMessages.Empty
  }

  /** The converted message of one decoded line, when the diagnostic is kept. */
  function KeptAs<M>(convert: CargoMessages.DiagnosticMessage -> M, record: Option<CargoMessages.Diagnostic>): Option<M>
  {
    if record.Some? && IsKept(record.value) then Some(convert(record.value.message.value)) else None
  }

  /**
   * The converted messages of the kept diagnostics, in emission order; a line
   * of output that does not decode (`None`) contributes nothing.
   */
  function Kept<M>(records: seq<Option<CargoMessages.Diagnostic>>, convert: CargoMessages.DiagnosticMessage -> M): seq<M>
  {
    Sequences.FilterMap(records, record => KeptAs(convert, record))
  }

  /**
   * What `find_actual_messages` returns for the decoded lines of Cargo's
   * output and its exit status: a line that does not decode aborts first,
   * then a successful build is a verdict, then so is a failed one with no
   * message to compare.
   */
  function ActualMessages<M>(records: seq<Option<CargoMessages.Diagnostic>>, success: bool, stdout: string, stderr: string,
                             convert: CargoMessages.DiagnosticMessage -> M): Result<seq<M>, StepError<M>>
  {
    if exists i :: 0 <= i < |records| && records[i].None? then Failure(UnparsableOutput)
    else if success then Failure(Testing(UnexpectedBuildSuccess))
    else if Kept(records, convert) == [] then Failure(Testing(CrateBuildFailed(stdout, stderr)))
    else Success(Kept(records, convert))
  }

  /** `find_actual_messages` after the build: the loop over the output lines, then the exit status. */
  method FindActualMessages<M>(records: seq<Option<CargoMessages.Diagnostic>>, success: bool, stdout: string, stderr: string,
                               convert: CargoMessages.DiagnosticMessage -> M) returns (r: Result<seq<M>, StepError<M>>)
    ensures r == ActualMessages(records, success, stdout, stderr, convert)
  {
    var actual: seq<M> := [];
    var i := 0;
    while i < |records|
      invariant 0 <= i <= |records|
      invariant forall j :: 0 <= j < i ==> records[j].Some?
      invariant actual == Kept(records[..i], convert)
    {
      assert records[..i + 1][..i] == records[..i];
      if records[i].None? {
        return Failure(UnparsableOutput);
      }
      var record := records[i].value;
      if record.reason == "compiler-message" && record.message.Some? {
        var message := record.message.value;
        if |message.spans| > 0 && message.level != CargoMessages.Empty {
          actual := actual + [convert(message)];
        }
      }
      i := i + 1;
    }
    assert records[..|records|] == records;
    if success {
      return Failure(Testing(UnexpectedBuildSuccess));
    }
    if |actual| > 0 {
      return Success(actual);
    }
    return Failure(Testing(CrateBuildFailed(stdout, stderr)));
  }

  /** The kept messages are those of the kept diagnostics. */
  lemma KeptMembers<M>(records: seq<Option<CargoMessages.Diagnostic>>, convert: CargoMessages.DiagnosticMessage -> M, x: M)
    ensures x in Kept(records, convert) <==>
      exists i :: 0 <= i < |records| && records[i].Some? && IsKept(records[i].value) && x == convert(records[i].value.message.value)
  {
    Sequences.FilterMapMembers(records, record => KeptAs(convert, record), x);
  }

  /** Filtering keeps the emission order: it distributes over concatenation. */
  lemma KeptConcat<M>(a: seq<Option<CargoMessages.Diagnostic>>, b: seq<Option<CargoMessages.Diagnostic>>,
                      convert: CargoMessages.DiagnosticMessage -> M)
    ensures Kept(a + b, convert) == Kept(a, convert) + Kept(b, convert)
  {
    Sequences.FilterMapConcat(a, b, record => KeptAs(convert, record));
  }

  /** A build whose output decodes never passes as a compile-fail test when it succeeds. */
  lemma SuccessfulBuildUnexpected<M>(records: seq<Option<CargoMessages.Diagnostic>>, stdout: string, stderr: string,
                                     convert: CargoMessages.DiagnosticMessage -> M)
    requires forall i :: 0 <= i < |records| ==> records[i].Some?
    ensures ActualMessages(records, true, stdout, stderr, convert) == Failure(Testing(UnexpectedBuildSuccess))
  {
  }

  /** Messages come back exactly when the build failed, the output decodes and some diagnostic is kept. */
  lemma ActualMessagesSuccess<M>(records: seq<Option<CargoMessages.Diagnostic>>, success: bool, stdout: string, stderr: string,
                                 convert: CargoMessages.DiagnosticMessage -> M)
    ensures ActualMessages(records, success, stdout, stderr, convert).Success? <==>
      && !success
      && (forall i :: 0 <= i < |records| ==> records[i].Some?)
      && (exists i :: 0 <= i < |records| && records[i].Some? && IsKept(records[i].value))
  {
    if (forall i :: 0 <= i < |records| ==> records[i].Some?) {
      if i :| 0 <= i < |records| && records[i].Some? && IsKept(records[i].value) {
        KeptMembers(records, convert, convert(records[i].value.message.value));
      }
      if Kept(records, convert) != [] {
        KeptMembers(records, convert, Kept(records, convert)[0]);
      }
    }
  }

  // ---------------------------------------------------------------------------
  // `Display for CompilerMessage`

  function DigitChar(d: nat): char
    requires d < 10
  {
    "0123456789"[d]
  }

  /** The value of a digit character. */
  function DigitValue(c: char): nat
  {
    if '0' <= c <= '9' then c as int - '0' as int else 0
  }

  /** `{}` of a `usize`: its decimal digits. */
  function NatToString(n: nat): (r: string)
    ensures r != []
    ensures forall i :: 0 <= i < |r| ==> IsAsciiDigit(r[i])
    ensures |r| > 1 ==> r[0] != '0'
  {
    if n < 10 then [DigitChar(n)] else NatToString(n / 10) + [DigitChar(n % 10)]
  }

  /** The number a string of decimal digits denotes. */
  function ParseNat(s: string): nat
  {
    if s == [] then 0 else 10 * ParseNat(s[..|s| - 1]) + DigitValue(s[|s| - 1])
  }

  /** The printed line number reads back as the line number. */
  lemma {:induction false} NatToStringRoundTrip(n: nat)
    ensures ParseNat(NatToString(n)) == n
  {
    if n >= 10 {
      NatToStringRoundTrip(n / 10);
      var r := NatToString(n);
      assert r[..|r| - 1] == NatToString(n / 10);
    }
  }

  /** `({:?} {code}) ` or `({:?}) `. */
  function Tag(m: CompilerMessage): string
  {
    match m.code
    case Some(code) => "(" + CargoMessages.LevelName(m.level) + " " + code + ") "
    case None => "(" + CargoMessages.LevelName(m.level) + ") "
  }

  /** `Display::fmt`: the location line, then the level, the code and the text. */
  function Display(m: CompilerMessage): string
  {
    "file:    " + m.location.file + ":" + NatToString(m.location.line) + "\n"
    + ("message: " + Tag(m) + (match m.message case Some(text) => text case None => ""))
  }

  /** Without newlines in its parts, a message displays as exactly two lines. */
  lemma DisplayRows(m: CompilerMessage)
    requires '\n' !in m.location.file
    requires m.code.Some? ==> '\n' !in m.code.value
    requires m.message.Some? ==> '\n' !in m.message.value
    ensures Formatting.SplitOn(Display(m)) == [
      "file:    " + m.location.file + ":" + NatToString(m.location.line),
      "message: " + Tag(m) + (match m.message case Some(text) => text case None => "")]
  {
    var first := "file:    " + m.location.file + ":" + NatToString(m.location.line);
    var second := "message: " + Tag(m) + (match m.message case Some(text) => text case None => "");
    assert '\n' !in NatToString(m.location.line) by {
      var d := NatToString(m.location.line);
      assert forall i :: 0 <= i < |d| ==> d[i] != '\n';
    }
    assert '\n' !in first;
    assert '\n' !in second;
    Formatting.SplitConcat(first, second);
    Formatting.SplitNoNewline(first);
    Formatting.SplitNoNewline(second);
  }

  /** The line number printed in the first row of a message reads back as the message's line. */
  lemma DisplayLineReadBack(m: CompilerMessage)
    requires '\n' !in m.location.file
    requires m.code.Some? ==> '\n' !in m.code.value
    requires m.message.Some? ==> '\n' !in m.message.value
    ensures var row := Formatting.SplitOn(Display(m))[0];
      var k := |"file:    " + m.location.file + ":"|;
      k <= |row| && row[..k] == "file:    " + m.location.file + ":" && ParseNat(row[k..]) == m.location.line
  {
    DisplayRows(m);
    NatToStringRoundTrip(m.location.line);
    var head := "file:    " + m.location.file + ":";
    var row := head + NatToString(m.location.line);
    assert row[..|head|] == head && row[|head|..] == NatToString(m.location.line);
  }
}
