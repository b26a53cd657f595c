/**
 * The expansion check: the module each source file of a crate stands for,
 * and the `//~ EXPAND` directives that announce what a macro in it expands
 * to. Comparing them with the compiler's expanded output is a stub that
 * finds nothing.
 */
module CheckExpansion {
  import opened Wrappers
  import opened Strings
  import Sequences
  import Utils

  /** One announced line of expanded code, for the module of the file it was written in. */
  datatype ExpectedExpansion = ExpectedExpansion(moduleName: string, expansion: string)

  // ---------------------------------------------------------------------------
  // The module-name pattern `src/(.+?)(/mod)?.rs`

  /** `.rs` as written, with an unescaped dot: any character but a newline, then "rs". */
  predicate AnyThenRs(w: string)
  {
    |w| >= 3 && w[0] != '\n' && w[1] == 'r' && w[2] == 's'
  }

  /** What the pattern accepts after the lazy capture: `(/mod)?.rs`, with the group tried first. */
  predicate TailAsWritten(w: string)
  {
    ("/mod" <= w && AnyThenRs(w[4..])) || AnyThenRs(w)
  }

  /** What the name pattern is evidently meant to accept there: `(/mod)?\.rs$`. */
  predicate TailIntended(w: string)
  {
    w == "/mod.rs" || w == ".rs"
  }

  /**
   * The lazy `(.+?)` from length `n` on: the shortest capture of at least
   * `n` characters, none a newline, that `tail` accepts the rest after.
   */
  function LazyCapture(u: string, n: nat, tail: string -> bool): (r: Option<string>)
    requires n >= 1
    ensures r.Some? ==> n <= |r.value| <= |u| && r.value == u[..|r.value|] && tail(u[|r.value|..])
    decreases |u| - n
  {
    if n > |u| || u[n - 1] == '\n' then None
    else if tail(u[n..]) then Some(u[..n])
    else LazyCapture(u, n + 1, tail)
  }

  /** The name pattern anchored at the start of `t`, with the given tail. */
  function ModuleAt(t: string, tail: string -> bool): Option<string>
  {
    if "src/" <= t then LazyCapture(t[4..], 1, tail) else None
  }

  /** `transform_path_into_module` as written: the first capture of the leftmost match, or the path itself. */
  function TransformAsWritten(path: string): string
  {
    match Search(path, t => ModuleAt(t, TailAsWritten))
    case Some(name) => name
    case None => path
  }

  /** `transform_path_into_module` with the pattern anchored at `.rs` and the end, as it is evidently meant. */
  function ModuleName(path: string): string
  {
    match Search(path, t => ModuleAt(t, TailIntended))
    case Some(name) => name
    case None => path
  }

  /** The lazy capture is the shortest one the tail accepts. */
  lemma {:induction false} LazyCaptureIs(u: string, n: nat, k: nat, tail: string -> bool)
    requires 1 <= n <= k <= |u|
    requires forall j :: 0 <= j < k ==> u[j] != '\n'
    requires tail(u[k..])
    requires forall j :: n <= j < k ==> !tail(u[j..])
    ensures LazyCapture(u, n, tail) == Some(u[..k])
    decreases k - n
  {
    if n < k {
      LazyCaptureIs(u, n + 1, k, tail);
    }
  }

  /** `name` does not end in "/mod". */
  predicate NotModSuffix(name: string)
  {
    |name| < 4 || name[|name| - 4..] != "/mod"
  }

  /** A file `src/<name>.rs` is the module `<name>`. */
  lemma ModuleOfFile(name: string)
    requires name != [] && '\n' !in name && NotModSuffix(name)
    ensures ModuleName("src/" + name + ".rs") == name
  {
    var path := "src/" + name + ".rs";
    var u := name + ".rs";
    assert path[4..] == u;
    assert u[..|name|] == name && u[|name|..] == ".rs";
    forall j | 1 <= j < |name| ensures !TailIntended(u[j..]) {
      assert u[j..] == name[j..] + ".rs";
      if j == |name| - 4 {
        assert name[j..] == name[|name| - 4..];
      }
    }
    forall j | 0 <= j < |name| ensures u[j] != '\n' {
      assert u[j] == name[j];
      assert name[j] in name;
    }
    LazyCaptureIs(u, 1, |name|, TailIntended);
    assert ModuleAt(path, TailIntended) == Some(name);
    SearchAtStart(path, t => ModuleAt(t, TailIntended));
  }

  /** A directory module `src/<name>/mod.rs` is the module `<name>`. */
  lemma ModuleOfDirectory(name: string)
    requires name != [] && '\n' !in name
    ensures ModuleName("src/" + name + "/mod.rs") == name
  {
    var path := "src/" + name + "/mod.rs";
    var u := name + "/mod.rs";
    assert path[4..] == u;
    assert u[..|name|] == name && u[|name|..] == "/mod.rs";
    forall j | 1 <= j < |name| ensures !TailIntended(u[j..]) {
      assert |u[j..]| > 7;
    }
    forall j | 0 <= j < |name| ensures u[j] != '\n' {
      assert u[j] == name[j];
      assert name[j] in name;
    }
    LazyCaptureIs(u, 1, |name|, TailIntended);
    assert ModuleAt(path, TailIntended) == Some(name);
    SearchAtStart(path, t => ModuleAt(t, TailIntended));
  }

  /** A path with no `src/` in it is its own module name, as written and as intended. */
  lemma NoSourceDirUnchanged(path: string)
    requires forall p :: 0 <= p <= |path| ==> !("src/" <= path[p..])
    ensures ModuleName(path) == path && TransformAsWritten(path) == path
  {
    SearchIff(path, t => ModuleAt(t, TailIntended));
    SearchIff(path, t => ModuleAt(t, TailAsWritten));
  }

  /**
   * As written, a file `src/<name>.rs` is still the module `<name>` when the
   * name has no `r`: only an `r` inside the name can end the capture early.
   */
  lemma FileAsWritten(name: string)
    requires name != [] && '\n' !in name && 'r' !in name && NotModSuffix(name)
    ensures TransformAsWritten("src/" + name + ".rs") == name
  {
    var path := "src/" + name + ".rs";
    var u := name + ".rs";
    assert path[4..] == u;
    assert u[..|name|] == name && u[|name|..] == ".rs";
    forall j | 1 <= j < |name| ensures !TailAsWritten(u[j..]) {
      var w := u[j..];
      var len := |name| - j;
      assert w == name[j..] + ".rs";
      if len >= 2 {
        assert w[1] == name[j + 1] && name[j + 1] in name;
      } else {
        assert w[1] == '.';
      }
      if len < 4 {
        assert w[len] == '.';
      } else if len == 4 {
        assert name[j..] == name[|name| - 4..];
      } else if len == 5 {
        assert w[5] == '.';
      } else {
        assert w[5] == name[j + 5] && name[j + 5] in name;
      }
    }
    forall j | 0 <= j < |name| ensures u[j] != '\n' {
      assert u[j] == name[j];
      assert name[j] in name;
    }
    LazyCaptureIs(u, 1, |name|, TailAsWritten);
    assert ModuleAt(path, TailAsWritten) == Some(name);
    SearchAtStart(path, t => ModuleAt(t, TailAsWritten));
  }

  /** As written, a directory module `src/<name>/mod.rs` is the module `<name>` when the name has no `r`. */
  lemma DirectoryAsWritten(name: string)
    requires name != [] && '\n' !in name && 'r' !in name
    ensures TransformAsWritten("src/" + name + "/mod.rs") == name
  {
    var path := "src/" + name + "/mod.rs";
    var u := name + "/mod.rs";
    assert path[4..] == u;
    assert u[..|name|] == name && u[|name|..] == "/mod.rs";
    forall j | 1 <= j < |name| ensures !TailAsWritten(u[j..]) {
      var w := u[j..];
      assert w == name[j..] + "/mod.rs";
      assert w[1] != 'r' by { if j + 1 < |name| { assert w[1] == name[j + 1]; assert name[j + 1] in name; } }
      assert w[5] != 'r' by { if j + 5 < |name| { assert w[5] == name[j + 5]; assert name[j + 5] in name; } }
    }
    forall j | 0 <= j < |name| ensures u[j] != '\n' {
      assert u[j] == name[j];
      assert name[j] in name;
    }
    LazyCaptureIs(u, 1, |name|, TailAsWritten);
    assert ModuleAt(path, TailAsWritten) == Some(name);
    SearchAtStart(path, t => ModuleAt(t, TailAsWritten));
  }

  /** The module names of the example crate's files, as the pattern is written. */
  lemma ExampleFileModules()
    ensures TransformAsWritten("src/lib.rs") == "lib"
    ensures TransformAsWritten("src/mod_1.rs") == "mod_1"
  {
    assert "src/" + "lib" + ".rs" == "src/lib.rs";
    assert "src/" + "mod_1" + ".rs" == "src/mod_1.rs";
    FileAsWritten("lib");
    FileAsWritten("mod_1");
  }

  lemma ExampleDirectoryModule()
    ensures TransformAsWritten("src/mod_2/mod.rs") == "mod_2"
  {
    assert "src/" + "mod_2" + "/mod.rs" == "src/mod_2/mod.rs";
    DirectoryAsWritten("mod_2");
  }

  lemma ExampleNestedModule()
    ensures TransformAsWritten("src/mod_2/nested_mod_1/mod.rs") == "mod_2/nested_mod_1"
  {
    var name := "mod_2/nested_mod_1";
    assert 'r' !in name && '\n' !in name;
    assert "src/" + name + "/mod.rs" == "src/mod_2/nested_mod_1/mod.rs";
    DirectoryAsWritten(name);
  }

  /** As written, the unescaped dot lets "rs" inside a file name end the capture early. */
  lemma EarlyRsAsWritten()
    ensures TransformAsWritten("src/users.rs") == "us"
  {
    var path := "src/users.rs";
    var u := "users.rs";
    assert path[4..] == u;
    assert u[..2] == "us" && u[2..] == "ers.rs" && u[1..] == "sers.rs";
    assert TailAsWritten(u[2..]);
    assert !TailAsWritten(u[1..]);
    LazyCaptureIs(u, 1, 2, TailAsWritten);
    assert ModuleAt(path, TailAsWritten) == Some("us");
    SearchAtStart(path, t => ModuleAt(t, TailAsWritten));
  }

  /** As intended, the same file is the module "users". */
  lemma UsersIntended()
    ensures ModuleName("src/users.rs") == "users"
  {
    ModuleOfFile("users");
    assert "src/" + "users" + ".rs" == "src/users.rs";
  }

  // ---------------------------------------------------------------------------
  // The expansion pattern `// *~ +EXPAND +(.+)`

  /** The expansion pattern anchored at the start of `t`; only its last quantifier can give anything back. */
  function MatchExpand(t: string): Option<string>
  {
    match TildeEnd(t)
    case None => None
    case Some(m) =>
      var pad := Run(t[m..], ' ');
      if pad == 0 || !("EXPAND" <= t[m + pad..]) then None
      else GreedyTail(t[m + pad + 6..])
  }

  /** `EXPANSION_REGEX.captures(line)`: the text of the leftmost match. */
  function ScanExpansion(line: string): Option<string>
  {
    Search(line, MatchExpand)
  }

  /** `t` starts with `//`, `lead` spaces, `~`, `pad` spaces, `EXPAND` and a tail capturing `text`. */
  ghost predicate ExpandLeadFits(t: string, lead: nat, pad: nat, text: string)
  {
    && pad >= 1
    && "//" + Repeat(' ', lead) + "~" + Repeat(' ', pad) + "EXPAND" <= t
    && TailFitsSome(t[lead + pad + 9..], text)
  }

  /** Some run of spaces, then `text` to the end of the line, starts `rest`. */
  ghost predicate TailFitsSome(rest: string, text: string)
  {
    exists tailPad: nat :: TailFits(rest, tailPad, text)
  }

  /** `t` starts with an expansion directive laid out as the pattern says, capturing `text`. */
  ghost predicate ExpandFits(t: string, text: string)
  {
    exists lead: nat, pad: nat :: ExpandLeadFits(t, lead, pad, text)
  }

  /** What the anchored match captures is laid out as the pattern says. */
  lemma MatchExpandSound(t: string)
    requires MatchExpand(t).Some?
    ensures ExpandFits(t, MatchExpand(t).value)
  {
    var m := TildeEnd(t).value;
    var pad := Run(t[m..], ' ');
    assert MatchExpand(t) == GreedyTail(t[m + pad + 6..]);
    ExpandSoundAt(t, m, pad, MatchExpand(t).value);
  }

  lemma ExpandSoundAt(t: string, m: nat, pad: nat, text: string)
    requires TildeEnd(t) == Some(m) && pad == Run(t[m..], ' ') && pad >= 1
    requires "EXPAND" <= t[m + pad..] && GreedyTail(t[m + pad + 6..]) == Some(text)
    ensures ExpandLeadFits(t, m - 3, pad, text)
  {
    var rest := t[m + pad + 6..];
    assert "//" + Repeat(' ', m - 3) + "~" + Repeat(' ', pad) + "EXPAND" <= t by {
      TildeEndSound(t, m);
      assert t[m..m + pad] == Repeat(' ', pad) by { RepeatSlice(t, m, pad, ' '); }
      assert t[m + pad..m + pad + 6] == "EXPAND";
      ExpandHead(t, m, pad);
    }
    assert TailFitsSome(rest, text) by {
      GreedyTailSound(rest);
    }
  }

  lemma ExpandHead(t: string, m: nat, pad: nat)
    requires 3 <= m && m + pad + 6 <= |t|
    requires t[..m] == "//" + Repeat(' ', m - 3) + "~"
    requires t[m..m + pad] == Repeat(' ', pad)
    requires t[m + pad..m + pad + 6] == "EXPAND"
    ensures "//" + Repeat(' ', m - 3) + "~" + Repeat(' ', pad) + "EXPAND" <= t
  {
    assert t[..m + pad + 6] == t[..m] + t[m..m + pad] + t[m + pad..m + pad + 6];
  }

  /** Any layout of the pattern at the start of `t` is matched, and a text starting with a non-space exactly. */
  lemma MatchExpandComplete(t: string, lead: nat, pad: nat, text: string)
    requires ExpandLeadFits(t, lead, pad, text)
    ensures MatchExpand(t).Some?
    ensures text[0] != ' ' ==> MatchExpand(t) == Some(text)
  {
    var m := lead + 3;
    var head := "//" + Repeat(' ', lead) + "~" + Repeat(' ', pad) + "EXPAND";
    assert t == head + t[|head|..];
    assert t == "//" + Repeat(' ', lead) + "~" + t[m..] by {
      assert t[..m] == "//" + Repeat(' ', lead) + "~";
    }
    TildeEndOf(lead, t[m..]);
    var u := t[m..];
    assert u[..pad] == Repeat(' ', pad);
    assert u[pad] == 'E';
    RunIs(u, ' ', pad);
    assert u[pad..] == t[m + pad..];
    var rest := t[m + pad + 6..];
    var tailPad: nat :| TailFits(rest, tailPad, text);
    GreedyTailComplete(rest, tailPad, text);
    if text[0] != ' ' {
      GreedyTailExact(rest, tailPad, text);
    }
  }

  /** The anchored match fails exactly when no layout of the pattern starts `t`. */
  lemma NoExpandFitIfNone(t: string)
    requires MatchExpand(t).None?
    ensures forall text :: !ExpandFits(t, text)
  {
    forall text | ExpandFits(t, text) ensures false {
      var lead: nat, pad: nat :| ExpandLeadFits(t, lead, pad, text);
      MatchExpandComplete(t, lead, pad, text);
    }
  }

  /** A line holds an expansion directive exactly when one is laid out somewhere in it, and the leftmost one is captured. */
  lemma ScanExpansionIff(line: string)
    ensures ScanExpansion(line).Some? <==> exists p: nat, text :: p <= |line| && ExpandFits(line[p..], text)
    ensures ScanExpansion(line).Some? ==>
      exists p: nat :: p <= |line| && ExpandFits(line[p..], ScanExpansion(line).value)
        && forall q: nat, text :: q < p ==> !ExpandFits(line[q..], text)
  {
    var matcher: string -> Option<string> := MatchExpand;
    SearchIff(line, matcher);
    if ScanExpansion(line).Some? {
      var p: nat :| LeftmostAt(line, p, matcher) && matcher(line[p..]) == Search(line, matcher);
      assert ExpandFits(line[p..], ScanExpansion(line).value) by { MatchExpandSound(line[p..]); }
      forall q: nat, text | q < p ensures !ExpandFits(line[q..], text) {
        assert Misses(line, q, matcher);
        NoExpandFitIfNone(line[q..]);
      }
    }
    if p: nat, text :| p <= |line| && ExpandFits(line[p..], text) {
      var lead: nat, pad: nat :| ExpandLeadFits(line[p..], lead, pad, text);
      MatchExpandComplete(line[p..], lead, pad, text);
    }
  }

  /** A line that starts with an expansion directive captures its text exactly. */
  lemma ExpansionLaidOut(lead: nat, pad: nat, tailPad: nat, text: string)
    requires pad >= 1 && tailPad >= 1 && text != [] && '\n' !in text && text[0] != ' '
    ensures ScanExpansion("//" + Repeat(' ', lead) + "~" + Repeat(' ', pad) + "EXPAND" + Repeat(' ', tailPad) + text)
      == Some(text)
  {
    var t := "//" + Repeat(' ', lead) + "~" + Repeat(' ', pad) + "EXPAND" + Repeat(' ', tailPad) + text;
    assert MatchExpand(t) == Some(text) by {
      LaidOutExpand(lead, pad, tailPad, text);
    }
    SearchAtStart(t, MatchExpand);
  }

  lemma LaidOutExpand(lead: nat, pad: nat, tailPad: nat, text: string)
    requires pad >= 1 && tailPad >= 1 && text != [] && '\n' !in text && text[0] != ' '
    ensures MatchExpand("//" + Repeat(' ', lead) + "~" + Repeat(' ', pad) + "EXPAND" + Repeat(' ', tailPad) + text)
      == Some(text)
  {
    var head := "//" + Repeat(' ', lead) + "~" + Repeat(' ', pad) + "EXPAND";
    var rest := Repeat(' ', tailPad) + text;
    var t := head + rest;
    assert t == "//" + Repeat(' ', lead) + "~" + Repeat(' ', pad) + "EXPAND" + Repeat(' ', tailPad) + text;
    assert |head| == lead + pad + 9;
    assert t[lead + pad + 9..] == rest;
    assert TailFits(rest, tailPad, text);
    assert ExpandLeadFits(t, lead, pad, text) by {
      assert TailFitsSome(t[lead + pad + 9..], text);
    }
    MatchExpandComplete(t, lead, pad, text);
  }

  /** Line 10 of the example crate's `mod_1.rs`: the spaces before the text are not part of it. */
  lemma ExampleExpansion()
    ensures ScanExpansion("//~ EXPAND     a / 4 as f64") == Some("a / 4 as f64")
  {
    assert Repeat(' ', 0) == "" && Repeat(' ', 1) == " " && Repeat(' ', 5) == "     ";
    assert "//" + "" + "~" + " " + "EXPAND" + "     " + "a / 4 as f64" == "//~ EXPAND     a / 4 as f64";
    ExpansionLaidOut(0, 1, 5, "a / 4 as f64");
  }

  // ---------------------------------------------------------------------------
  // The source-line analysis and the stub

  /** The announced expansion of one line of the file at `path`, named by the pattern as written. */
  function ExpansionOf(path: string, line: string): Option<ExpectedExpansion>
  {
    match ScanExpansion(line)
    case Some(text) => Some(ExpectedExpansion(TransformAsWritten(path), text))
    case None => None
  }

  /**
   * `analyse_source_line`: never an error, and neither the earlier items nor
   * the line number matter. The module is named as `transform_path_into_module`
   * names it, with the pattern as written.
   */
  function AnalyseSourceLine(previous: seq<ExpectedExpansion>, path: string, lineNum: nat, line: string)
    : (r: Result<Option<ExpectedExpansion>, string>)
    ensures r.Success?
    ensures r.value.Some? <==> exists p: nat, text :: p <= |line| && ExpandFits(line[p..], text)
    ensures r.value.Some? ==> r.value.value.moduleName == TransformAsWritten(path)
    ensures r.value.Some? ==>
      exists p: nat :: p <= |line| && ExpandFits(line[p..], r.value.value.expansion)
        && forall q: nat, text :: q < p ==> !ExpandFits(line[q..], text)
  {
    ScanExpansionIff(line);
    Success(ExpansionOf(path, line))
  }

  /** The same analysis with the corrected module-name pattern. */
  function AnalyseSourceLineIntended(previous: seq<ExpectedExpansion>, path: string, lineNum: nat, line: string)
    : (r: Result<Option<ExpectedExpansion>, string>)
    ensures r.Success?
    ensures r.value.Some? <==> exists p: nat, text :: p <= |line| && ExpandFits(line[p..], text)
    ensures r.value.Some? ==> r.value.value.moduleName == ModuleName(path)
    ensures r.value.Some? ==>
      exists p: nat :: p <= |line| && ExpandFits(line[p..], r.value.value.expansion)
        && forall q: nat, text :: q < p ==> !ExpandFits(line[q..], text)
  {
    ScanExpansionIff(line);
    match ScanExpansion(line)
    case Some(text) => Success(Some(ExpectedExpansion(ModuleName(path), text)))
    case None => Success(None)
  }

  /** Neither the earlier items nor the line number change what a line announces. */
  lemma AnalyseSourceLineContextFree(previous: seq<ExpectedExpansion>, lineNum: nat,
                                     previous': seq<ExpectedExpansion>, lineNum': nat, path: string, line: string)
    ensures AnalyseSourceLine(previous, path, lineNum, line) == AnalyseSourceLine(previous', path, lineNum', line)
    ensures AnalyseSourceLineIntended(previous, path, lineNum, line) == AnalyseSourceLineIntended(previous', path, lineNum', line)
  {
  }

  /** An expansion in `src/users.rs` is filed under "us" as written, and under "users" when corrected. */
  lemma UsersExpansionModules()
    ensures AnalyseSourceLine([], "src/users.rs", 1, "//~ EXPAND x") == Success(Some(ExpectedExpansion("us", "x")))
    ensures AnalyseSourceLineIntended([], "src/users.rs", 1, "//~ EXPAND x") == Success(Some(ExpectedExpansion("users", "x")))
  {
    assert Repeat(' ', 0) == "" && Repeat(' ', 1) == " ";
    assert "//" + "" + "~" + " " + "EXPAND" + " " + "x" == "//~ EXPAND x";
    ExpansionLaidOut(0, 1, 1, "x");
    EarlyRsAsWritten();
    UsersIntended();
  }

  /** The expansions announced in a file are those of its lines, each on its own, in line order. */
  lemma {:induction false} FileExpansions(path: string, lines: seq<string>)
    ensures Utils.FileItems(AnalyseSourceLine, path, lines) == Sequences.FilterMap(lines, line => ExpansionOf(path, line))
  {
    if lines != [] {
      FileExpansions(path, lines[..|lines| - 1]);
    }
  }

  /** `analyse_actual_expansion`: whatever the compiler printed, no expansion is found. */
  function AnalyseActualExpansion(output: string): (r: Result<map<string, string>, string>)
    ensures r.Success? && |r.value| == 0
  {
    Success(map[])
  }
}
