# crate-compile-test: compile-fail and expansion checking

This project is a Dafny model of the sequential core of `crate-compile-test`. That is a harness that builds small Rust crates with Cargo and checks the result against annotations written in the crates' sources:

- **Compile-fail check** (`CheckErrors`). `//~` directives in a crate's sources announce diagnostics: `//~ ERROR`, `//~^ WARNING`, `//~| NOTE` and so on. The step collects those expected messages file by file and line by line. It keeps the diagnostics the compiler actually emitted and compares the two lists with the messages' own partial equality. The verdict is pass, or a failure listing the unexpected and the missing messages. A successful or unannotated build is a verdict of its own.
- **Cargo diagnostics** (`CargoMessages`). A severity keyword becomes a level. A decoded diagnostic becomes a message located at its first primary span.
- **Collect-only step** (`CollectErrors`). This older step has its own records. It has no `Help` level, and a missing primary span falls back to the default span. It reports every kept diagnostic as unexpected.
- **Expansion check** (`CheckExpansion`). This part maps a source path to a module name and extracts `//~ EXPAND` lines. The analysis of the actual expansion is a stub that finds nothing.
- **Per-line analyser** (`Utils`). The analyser is shared by the steps that read annotations. It numbers lines from 1, offers each line the items found so far in its file, and keeps what is yielded. It concatenates the files of a crate and aborts on the first file that cannot be read.
- **Report formatting** (`Formatting`). This covers the tree lists, boxed blocks, per-line prefixes and right-trimming the harness prints.

`Strings` and `Sequences` hold the scanners and iterator idioms these modules share.

The source's fixed regular expressions are modelled as hand-written leftmost-first scanners: `// *~([\^]+|[\|])? +(ERROR|WARNING|NOTE|HELP) +(.+)`, `^ *E\d{4} *$`, `// *~ +EXPAND +(.+)` and `src/(.+?)(/mod)?.rs`.

- Each scanner is an anchored matcher tried at every start position.
- Each matcher is proved sound and complete against a declarative description of the layout the pattern accepts.
- The search is proved to return the leftmost match.

Loops and folds that push into vectors in the source are written as methods with loop invariants. Each method is proved equal to a recursive specification function, and the properties are proved about that function:

- `CollectCrateMessages`
- `FindActualMessages`
- `CollectErrors.Execute`
- `AnalyseFile`
- `AnalyseCrate`

Inputs that come from the outside world are parameters:

- **Cargo's output.** Each line is given as an already decoded record, or `None` when it does not decode.
- **The build's exit status.**
- **The source files.** Each file is a path and its lines, or `None` when it cannot be opened.
- **The conversion of a decoded diagnostic** (`convert` in `CheckErrors`). This model does not cover the conversion into `check_errors.rs`'s own record type; `FindActualMessages` takes it as a parameter.
- **The per-line analysis** of the shared analyser, passed as a function value.

The modelled files follow different revisions of the crate. Each file's record types are kept as that file declares them:

- `check_errors.rs` has an optional text and a mandatory location.
- `cargo_messages.rs` has a `Text` body and an optional location.
- `collect_errors.rs` has its own level type without `Help`.

In the revision of `src/error.rs` modelled here, `TestingError` declares only `MissingCrate` and `CrateBuildFailed`. The steps raise `UnexpectedBuildSuccess` and `MessageExpectationsFailed` too, so `Errors.TestingError` has all three verdicts of a step.

## Model

| member | source | states |
|---|---|---|
| CargoMessages.LevelFromStr | src/cargo_messages.rs:54-65 | Defines `From<&str>`: the four upper-case keywords give their levels and every other text gives `Empty`. `LevelKeywordRoundTrip` and `LowerCaseIsEmpty` prove what it does. |
| CargoMessages.LevelKeywordRoundTrip | src/cargo_messages.rs:54-65 | Exactly "ERROR", "WARNING", "NOTE" and "HELP" give a level other than `Empty`. Each such level names its keyword back, and `Empty` is the only level without a keyword. |
| CargoMessages.LowerCaseIsEmpty | src/cargo_messages.rs:54-65 | The lower-case spellings of the keywords give `Empty`. |
| CargoMessages.FirstPrimary | src/cargo_messages.rs:69-72 | The span found is one of the spans and is primary. |
| CargoMessages.ToCompilerMessage | src/cargo_messages.rs:67-84 | The body is `Text(message)`. The level is copied. The code is `code.code` exactly when a code is present. |
| CargoMessages.LocationOfFirstPrimary | src/cargo_messages.rs:69-76 | When span `i` is the first primary span, the location is its file name and start line. |
| CargoMessages.NoPrimaryNoLocation | src/cargo_messages.rs:69-76 | The location is absent if and only if no span is primary. |
| CargoMessages.LaterSpansIgnored | src/cargo_messages.rs:69-76 | Once a primary span exists, appending further spans changes nothing. |
| CargoMessages.ChildrenIgnored | src/cargo_messages.rs:29 | The child diagnostics never affect the record. |
| CollectErrors.DecodeLevel | src/steps/collect_errors.rs:10-19 | Defines the decoding of a level name for this step's level type. `DecodeLevelIff` and `HelpUndecodable` prove which names decode. |
| CollectErrors.DecodeLevelIff | src/steps/collect_errors.rs:10-19 | A level name decodes to a level if and only if it is that level's lower-case name. Only "error", "warning", "note" and "" decode. |
| CollectErrors.HelpUndecodable | src/steps/collect_errors.rs:10-19 | This step's level type does not decode "help". |
| CollectErrors.LocatingSpan | src/steps/collect_errors.rs:148-164 | The span used is one of the spans or the default span ("unknown", 1, primary), and it is always primary. |
| CollectErrors.ToCompilerMessage | src/steps/collect_errors.rs:158-176 | Text and level are copied. The code is `code.code` exactly when present. The location is one of the spans or the default span. |
| CollectErrors.LocationOfFirstPrimary | src/steps/collect_errors.rs:160-172 | The location is the first primary span's file name and start line. |
| CollectErrors.NoPrimaryUnknown | src/steps/collect_errors.rs:148-164 | Without a primary span, the location is line 1 of "unknown". |
| CollectErrors.LaterSpansIgnored | src/steps/collect_errors.rs:160-164 | Spans after the first primary span do not change the record. |
| CollectErrors.Verdict | src/steps/collect_errors.rs:76-114 | Defines the step's outcome from the decoded output and the exit status. `SuccessIsUnexpected`, `FailureReportsKept` and `UndecodableAborts` prove the three cases, and `Execute` is proved equal to it. |
| CollectErrors.Execute | src/steps/collect_errors.rs:76-114 | The loop over the output lines and the exit-status decision compute `Verdict`. An undecodable line aborts. Otherwise success gives `UnexpectedBuildSuccess`, kept messages give `MessageExpectationsFailed(kept, [])`, and no kept messages give `CrateBuildFailed(stdout, stderr)`. |
| CollectErrors.KeptMembers | src/steps/collect_errors.rs:89-97 | A message is reported if and only if it is the conversion of a decoded diagnostic that has reason "compiler-message", a message, at least one span and a level other than `Empty`. |
| CollectErrors.KeptConcat | src/steps/collect_errors.rs:83-98 | Kept messages stay in emission order: keeping distributes over concatenation of the output. |
| CollectErrors.SuccessIsUnexpected | src/steps/collect_errors.rs:113 | A successful build whose output decodes is always `UnexpectedBuildSuccess`. |
| CollectErrors.FailureReportsKept | src/steps/collect_errors.rs:101-111 | After a failed build, the verdict is `MessageExpectationsFailed(kept, [])` if and only if some diagnostic is kept. It is `CrateBuildFailed(stdout, stderr)` if and only if none is. |
| CollectErrors.UndecodableAborts | src/steps/collect_errors.rs:84-87 | A line that does not decode aborts the step, whatever the exit status. |
| CheckErrors.MatchDirective | src/steps/check_errors.rs:78 | Defines the directive pattern anchored at the start of a text, stage by stage. `MatchSound`, `MatchComplete` and `MatchIff` prove it against the layout predicates. |
| CheckErrors.ScanDirective | src/steps/check_errors.rs:77-81 | Defines `captures` as the leftmost anchored match. `ScanSound` and `ScanComplete` prove it against the layout predicates. |
| CheckErrors.KeywordAtSpec | src/steps/check_errors.rs:78 | The keyword alternative found starts the text and is one of the four. When none is found, no keyword starts the text. |
| CheckErrors.ModifierAt | src/steps/check_errors.rs:78 | The optional group takes the whole run of `^`, or a single bar, or nothing. What it takes is a prefix of the text. |
| CheckErrors.KeywordSound | src/steps/check_errors.rs:78 | What the matcher after the modifier captures is laid out as the pattern says: spaces, one of the four keywords, spaces and the text. |
| CheckErrors.KeywordComplete | src/steps/check_errors.rs:78 | Any such layout is matched. A text that starts with a non-space is captured exactly. |
| CheckErrors.ModifierSound | src/steps/check_errors.rs:78 | A match after `~` is a valid modifier written out, followed by the rest of the directive. |
| CheckErrors.ModifierComplete | src/steps/check_errors.rs:78 | Every such layout after `~` is matched. |
| CheckErrors.MatchSound | src/steps/check_errors.rs:78 | A directive matched at the start of a text is laid out there, from `//` and optional spaces to `~`, modifier, keyword and text. |
| CheckErrors.MatchComplete | src/steps/check_errors.rs:78 | Any directive laid out at the start of a text is matched there. |
| CheckErrors.MatchIff | src/steps/check_errors.rs:78 | The anchored pattern matches a text if and only if some directive is laid out at its start. |
| CheckErrors.NoFitIfNone | src/steps/check_errors.rs:78 | Where the anchored pattern fails, no directive is laid out. |
| CheckErrors.ScanSound | src/steps/check_errors.rs:77-81 | `captures` returns the directive laid out at the leftmost position where any directive is laid out. |
| CheckErrors.ScanComplete | src/steps/check_errors.rs:77-81 | A directive laid out anywhere in the line is found. |
| CheckErrors.ScanLaidOut | src/steps/check_errors.rs:78-81 | A line that starts with a directive whose text starts with a non-space captures its modifier, keyword and text exactly. |
| CheckErrors.FixtureAbove | src/steps/check_errors.rs:78-81 | "//~^ ERROR E0432" captures one caret, "ERROR" and "E0432". |
| CheckErrors.FixtureSameAsLast | tests/builtin_steps/check_errors.rs:122-131 | The HELP directive with a bar modifier, "For previous line", captures the bar, "HELP" and "For previous line". |
| CheckErrors.FixtureExtraSpace | tests/builtin_steps/check_errors.rs:112-121 | "//  ~^^  NOTE  With extra space" captures two carets, "NOTE" and "With extra space". |
| CheckErrors.TwoDirectivesOneLine | src/steps/check_errors.rs:78 | A second `//~` on the same line belongs to the first directive's text, because `(.+)` runs to the end of the line. |
| CheckErrors.ScanBlankText | src/steps/check_errors.rs:78 | With two or more spaces and nothing else after the keyword, backtracking leaves the text " ". |
| CheckErrors.BlankDirectiveText | src/steps/check_errors.rs:78 | "//~ NOTE   " captures the text " ". |
| CheckErrors.IsErrorCode | src/steps/check_errors.rs:76 | Defines `^ *E\d{4} *$` in one pass. `CodeSound` and `ErrorCodeIff` prove it equal to the layout predicate. |
| CheckErrors.CodeOf | src/steps/check_errors.rs:103-106 | Spaces, `E`, four digits and spaces are recognised as a code, and trimming gives `E` and the digits. |
| CheckErrors.CodeSound | src/steps/check_errors.rs:76 | Whatever `^ *E\d{4} *$` accepts is that layout. |
| CheckErrors.ErrorCodeIff | src/steps/check_errors.rs:76 | A text is a code if and only if it is laid out as one. |
| CheckErrors.NotErrorCodes | src/steps/check_errors.rs:76 | These are not codes: three or five digits, a lower-case `e`, a letter among the digits, or text after the code. |
| CheckErrors.PaddedErrorCode | src/steps/check_errors.rs:76 | A code between spaces is recognised. |
| CheckErrors.PaddedCodeTrimmed | src/steps/check_errors.rs:104 | Trimming removes the spaces around a code. |
| CheckErrors.ScanShape | src/steps/check_errors.rs:78-81 | A captured directive has one of the four keywords and, when it has carets, at least one. |
| CheckErrors.Announced | src/steps/check_errors.rs:103-114 | The level is the keyword's level, never `Empty`. There is a code exactly when the text is a code, and then no message. Whichever is present is the trimmed text. |
| CheckErrors.DirectiveMessage | src/steps/check_errors.rs:82-114 | The location is the current file and one of three lines: the current line, the line `k` carets above, or the last collected message's line (1 when none was collected). The code/text split is as in `Announced`. The result is the error `LineUnderflow` if and only if the carets outnumber the line number; as many carets as the line number give line 0. |
| CheckErrors.LineMessage | src/steps/check_errors.rs:74-118 | A line announces nothing if and only if it holds no directive. Otherwise it announces that directive's message or fails with its error. An announced message never has level `Empty`. |
| CheckErrors.FileMessages | src/steps/check_errors.rs:64-68 | Defines the messages a file's numbered lines add to the shared vector. `FileMessagesGrow`, `FileMessagesOrigin` and `FileMessagesPrefix` prove what it adds. |
| CheckErrors.CrateMessages | src/steps/check_errors.rs:45-72 | Defines `collect_crate_messages`: the files in order, each read and then collected, with the first failure aborting. `CollectCrateMessages` is proved equal to it. |
| CheckErrors.CollectCrateMessages | src/steps/check_errors.rs:45-72 | The nested loops over files and numbered lines, pushing into one shared vector, compute `CrateMessages`. They abort with the first file that cannot be read or the first caret underflow. |
| CheckErrors.FileMessagesAbort | src/steps/check_errors.rs:64-68 | A failure at some line is the failure of the whole file. |
| CheckErrors.FileMessagesGrow | src/steps/check_errors.rs:64-68 | A file's lines only append: at most one message per line, each carrying the file's path and well formed. Messages of earlier files are untouched. |
| CheckErrors.FileMessagesQuiet | src/steps/check_errors.rs:81-117 | Lines without a directive leave the vector unchanged. |
| CheckErrors.FileMessagesPrefix | src/steps/check_errors.rs:64-68 | The first `n` lines of a file collect a prefix of what the whole file collects. |
| CheckErrors.FileMessagesOrigin | src/steps/check_errors.rs:64-68 | Every message a file adds is what one of its lines announces. That line is analysed with its 1-based number and the messages collected before it. |
| CheckErrors.CrateMessagesGrow | src/steps/check_errors.rs:56-71 | Collecting a crate only extends the shared vector, with well-formed messages. |
| CheckErrors.CollectedWellFormed | src/steps/check_errors.rs:45-72 | Every expected message of a crate has exactly one of code and text, and a level other than `Empty`. |
| CheckErrors.MessagesEqual | src/steps/check_errors.rs:217-233 | Two messages are equal only when they share location and level and both have a code or a text. |
| CheckErrors.EqualSymmetric | src/steps/check_errors.rs:217-233 | Message equality is symmetric. |
| CheckErrors.EqualReflexive | src/steps/check_errors.rs:217-233 | A message equals itself if and only if it has a code or a text. |
| CheckErrors.UndescribedEqualsNothing | src/steps/check_errors.rs:223-231 | A message with neither code nor text equals no message, on either side. |
| CheckErrors.CodeDecides | src/steps/check_errors.rs:223-225 | When location and level agree and both have codes, equality is equality of the codes. |
| CheckErrors.EqualNotTransitive | src/steps/check_errors.rs:217-233 | There are concrete messages a, b, c with a = b and b = c but not a = c. |
| CheckErrors.WithoutMatch | src/steps/check_errors.rs:194-204 | The filter never yields more elements than it is given. `WithoutMatchMembers` proves which elements it keeps. |
| CheckErrors.WithoutMatchMembers | src/steps/check_errors.rs:194-204 | The filter keeps exactly the elements that have no equal on the other side. |
| CheckErrors.WithoutMatchConcat | src/steps/check_errors.rs:194-204 | The filter keeps order: it distributes over concatenation. |
| CheckErrors.WithoutMatchEmpty | src/steps/check_errors.rs:194-206 | Nothing is left if and only if every element has an equal on the other side. |
| CheckErrors.Execute | src/steps/check_errors.rs:191-214 | A failure to find the actual messages is passed on. Otherwise the step passes if and only if every actual message has an expected equal and every expected message has an actual equal. When it fails, it lists the unexpected and the missing messages in order. |
| CheckErrors.ExecuteSelf | src/steps/check_errors.rs:191-214 | Messages that all have a code or a text pass against themselves. |
| CheckErrors.ExecuteUndescribed | src/steps/check_errors.rs:200-211 | An expected message with neither code nor text always fails the step and is listed as missing. |
| CheckErrors.ActualMessages | src/steps/check_errors.rs:144-178 | Defines the result of `find_actual_messages` from the decoded output and the exit status. `ActualMessagesSuccess` and `SuccessfulBuildUnexpected` prove its cases, and `FindActualMessages` is proved equal to it. |
| CheckErrors.FindActualMessages | src/steps/check_errors.rs:144-178 | The loop over the output lines and the exit-status decision compute `ActualMessages`. An undecodable line aborts. Then success gives `UnexpectedBuildSuccess`, no kept message gives `CrateBuildFailed`, and otherwise the kept messages are returned in order. |
| CheckErrors.KeptMembers | src/steps/check_errors.rs:156-161 | A message is kept if and only if it converts a decoded diagnostic with reason "compiler-message", a message, at least one span and a level other than `Empty`. |
| CheckErrors.KeptConcat | src/steps/check_errors.rs:150-165 | Kept messages stay in emission order. |
| CheckErrors.SuccessfulBuildUnexpected | src/steps/check_errors.rs:176 | A successful build whose output decodes is always `UnexpectedBuildSuccess`. |
| CheckErrors.ActualMessagesSuccess | src/steps/check_errors.rs:150-177 | Messages come back if and only if the build failed, every line decodes and some diagnostic is kept. |
| CheckErrors.NatToString | src/steps/check_errors.rs:238-240 | A line number is printed as a non-empty string of decimal digits with no leading zero. |
| CheckErrors.NatToStringRoundTrip | src/steps/check_errors.rs:238-240 | The printed line number reads back as the number. |
| CheckErrors.Display | src/steps/check_errors.rs:235-255 | Defines `Display::fmt`: the location line, then the level, the code and the text. `DisplayRows` proves its two-line shape and `DisplayLineReadBack` that the printed line number reads back. |
| CheckErrors.DisplayRows | src/steps/check_errors.rs:235-255 | A message without newlines in its parts displays as two lines. The first is `file:` with the location; the second is `message:`, the level, the code if any, and the text if any. |
| CheckErrors.DisplayLineReadBack | src/steps/check_errors.rs:238-240 | In the first row of a displayed message, what follows `file:    `, the file and `:` reads back as the message's line number. |
| CheckExpansion.TransformAsWritten | src/steps/check_expansion.rs:29-37 | Defines `transform_path_into_module` with the pattern exactly as written. `FileAsWritten`, `DirectoryAsWritten` and `EarlyRsAsWritten` prove what it gives. |
| CheckExpansion.ModuleName | src/steps/check_expansion.rs:29-37 | Defines the same transformation with the corrected pattern. `ModuleOfFile` and `ModuleOfDirectory` prove what it gives. |
| CheckExpansion.LazyCapture | src/steps/check_expansion.rs:31 | The lazy capture is a prefix of at least one character that the rest of the pattern accepts after. |
| CheckExpansion.LazyCaptureIs | src/steps/check_expansion.rs:31 | The lazy capture is the shortest such prefix. |
| CheckExpansion.ModuleOfFile | src/steps/check_expansion.rs:29-37 | With the corrected pattern, `src/<name>.rs` is the module `<name>`. |
| CheckExpansion.ModuleOfDirectory | src/steps/check_expansion.rs:29-37 | With the corrected pattern, `src/<name>/mod.rs` is the module `<name>`. |
| CheckExpansion.NoSourceDirUnchanged | src/steps/check_expansion.rs:34-37 | A path without `src/` is its own module name, as written and as corrected. |
| CheckExpansion.FileAsWritten | src/steps/check_expansion.rs:29-37 | As written, `src/<name>.rs` is `<name>` when the name contains no `r`. |
| CheckExpansion.DirectoryAsWritten | src/steps/check_expansion.rs:29-37 | As written, `src/<name>/mod.rs` is `<name>` when the name contains no `r`. |
| CheckExpansion.ExampleFileModules | tests/builtin_steps/check_expansion.rs:40-78 | "src/lib.rs" is "lib" and "src/mod_1.rs" is "mod_1". |
| CheckExpansion.ExampleDirectoryModule | tests/builtin_steps/check_expansion.rs:51-60 | "src/mod_2/mod.rs" is "mod_2". |
| CheckExpansion.ExampleNestedModule | tests/builtin_steps/check_expansion.rs:62-67 | "src/mod_2/nested_mod_1/mod.rs" is "mod_2/nested_mod_1". |
| CheckExpansion.EarlyRsAsWritten | src/steps/check_expansion.rs:31 | As written, "src/users.rs" is "us". |
| CheckExpansion.UsersIntended | src/steps/check_expansion.rs:31 | With the corrected pattern, "src/users.rs" is "users". |
| CheckExpansion.ScanExpansion | src/steps/check_expansion.rs:95-98 | Defines `captures` of the expansion pattern as the leftmost anchored match. `ScanExpansionIff` proves it against the layout predicate. |
| CheckExpansion.ExpansionOf | src/steps/check_expansion.rs:98-105 | Defines the announced expansion of one line, named by the pattern as written. `AnalyseSourceLine` states its properties. |
| CheckExpansion.MatchExpandSound | src/steps/check_expansion.rs:95 | What the anchored expansion pattern captures is laid out as `// *~ +EXPAND +(.+)` says. |
| CheckExpansion.MatchExpandComplete | src/steps/check_expansion.rs:95 | Every such layout is matched. A text that starts with a non-space is captured exactly. |
| CheckExpansion.NoExpandFitIfNone | src/steps/check_expansion.rs:95 | Where the anchored pattern fails, no expansion directive is laid out. |
| CheckExpansion.ScanExpansionIff | src/steps/check_expansion.rs:95-98 | A line holds an expansion directive if and only if one is laid out in it. The text captured is that of the leftmost one. |
| CheckExpansion.ExpansionLaidOut | src/steps/check_expansion.rs:95-102 | A line that starts with an expansion directive, whose text starts with a non-space, captures that text exactly. |
| CheckExpansion.ExampleExpansion | example/tests/expand/expand-1/src/mod_1.rs:10 | "//~ EXPAND     a / 4 as f64" gives "a / 4 as f64". |
| CheckExpansion.AnalyseSourceLine | src/steps/check_expansion.rs:88-107 | The result is never an error. It announces an expansion if and only if one is laid out in the line. The text announced is that of the leftmost expansion directive laid out in the line. The module is `transform_path_into_module` of the path with the pattern as written. |
| CheckExpansion.AnalyseSourceLineContextFree | src/steps/check_expansion.rs:88-107 | The earlier items and the line number never change what a line announces, in either version of the analysis. |
| CheckExpansion.AnalyseSourceLineIntended | src/steps/check_expansion.rs:88-107 | The same analysis with the corrected module-name pattern. It never fails, and it announces an expansion if and only if one is laid out. The text is that of the leftmost one, and the module is `ModuleName` of the path. |
| CheckExpansion.UsersExpansionModules | src/steps/check_expansion.rs:98-102 | "//~ EXPAND x" in "src/users.rs" is filed under the module "us" as written and "users" when corrected. |
| CheckExpansion.FileExpansions | src/steps/check_expansion.rs:88-107 | The expansions announced in a file are those of its lines taken one at a time, in line order, each named by the pattern as written. |
| CheckExpansion.AnalyseActualExpansion | src/steps/check_expansion.rs:81-85 | Whatever the compiler printed, the result is an empty map. |
| Utils.StripPrefix | src/utils.rs:32 | The relative path is a suffix of the path. `StripPrefixJoin` and `StripPrefixOutside` prove when it is found. |
| Utils.StripPrefixJoin | src/utils.rs:32 | Stripping the crate directory from a path under it gives back the relative path. |
| Utils.StripPrefixOutside | src/utils.rs:32 | A path outside the crate directory has no relative path. |
| Utils.ReadSource | src/utils.rs:32-35 | A file is read if and only if its prefix strips and it opens. A failure to strip is reported first. |
| Utils.AnalyseFile | src/utils.rs:31-51 | The fold with a counter from 1 gives `FileItems` of the relative path and the lines, or the reading error. |
| Utils.FileItems | src/utils.rs:37-50 | Defines the fold over a file's numbered lines. `FileItemsBound`, `FileItemsPrefix` and `FileItemsOrigin` prove what it collects. |
| Utils.CrateItems | src/utils.rs:22-28 | Defines the items of a crate's files in order, or the first error. `CrateItemsConcat` and `CrateItemsFirstError` prove both cases. |
| Utils.FileItemsBound | src/utils.rs:39-50 | A file yields at most one item per line. |
| Utils.FileItemsPrefix | src/utils.rs:39-50 | The items of the first lines are a prefix of the file's items, so items only accumulate at the end. |
| Utils.FileItemsOrigin | src/utils.rs:39-46 | Every item is what one line gave `Ok(Some(..))` for. That line is analysed with its 1-based number and exactly the items of the earlier lines of the same file. |
| Utils.PrependTwice | src/utils.rs:22-28 | Prepending the items of two files in turn is prepending their concatenation. |
| Utils.AnalyseCrate | src/utils.rs:9-29 | The loop over the files gives `CrateItems`: the files' items in order, or the first error. |
| Utils.CrateItemsConcat | src/utils.rs:22-28 | When the first files can all be read, the crate's items are their items followed by those of the rest. |
| Utils.CrateItemsFirstError | src/utils.rs:22-28 | The crate fails with the error of the first file that cannot be read. |
| Sequences.FirstIs | src/cargo_messages.rs:69-72 | `filter(..).nth(0)` picks the element at the first index that passes. |
| Sequences.FirstNone | src/cargo_messages.rs:69-72 | It finds nothing if and only if no element passes. |
| Sequences.FilterMapMembers | src/steps/check_errors.rs:156-161 | What the filter keeps is exactly the output of the conversion for some element. |
| Sequences.FilterMapConcat | src/steps/check_errors.rs:150-165 | The filter keeps order. |
| Strings.GreedyTailSound | src/steps/check_errors.rs:78 | What ` +(.+)` captures is at least one space followed by a non-empty piece of the line that runs to its end. |
| Strings.GreedyTailComplete | src/steps/check_errors.rs:78 | Any such layout makes ` +(.+)` match. |
| Strings.GreedyTailExact | src/steps/check_errors.rs:78 | A text that starts with a non-space is captured exactly. |
| Strings.GreedyTailBlank | src/steps/check_errors.rs:78 | Two or more spaces alone capture " "; fewer match nothing. |
| Strings.TrimEnd | src/formatting.rs:47 | `trim_right` gives a prefix that does not end in whitespace, and it removes only whitespace. |
| Strings.TrimStart | src/steps/check_errors.rs:104-105 | The start trim gives a suffix that does not start with whitespace, and it removes only whitespace. |
| Strings.SearchIff | src/steps/check_errors.rs:81 | A search finds a match if and only if the pattern matches at some position, and then the match is the leftmost one. |
| Formatting.SplitOn | src/formatting.rs:44-50 | Splitting on newlines gives at least one piece, and no piece holds a newline. |
| Formatting.JoinSplit | src/formatting.rs:44-50 | Joining the pieces with newlines gives back the string. |
| Formatting.SplitJoin | src/formatting.rs:44-50 | Splitting lines that were joined with newlines gives back the lines. |
| Formatting.LinesJoin | src/formatting.rs:46 | `lines()` loses only the empty piece after a final newline. |
| Formatting.TrimAllTwice | src/formatting.rs:47 | Right-trimming is idempotent. |
| Formatting.TrimLines | src/formatting.rs:44-50 | Defines `trim_lines`. `TrimLinesLines` and `TrimLinesTrimmed` prove its lines. |
| Formatting.TrimLinesLines | src/formatting.rs:44-50 | `trim_lines` gives one right-trimmed line per line of its input. A final newline does not start a line, and no lines give a single empty line. |
| Formatting.TrimLinesTrimmed | src/formatting.rs:44-50 | After `trim_lines`, no line ends in whitespace. |
| Formatting.ReplaceSplit | src/formatting.rs:41 | Replacing each newline with a newline and `p` puts `p` in front of every piece but the first. |
| Formatting.PrefixEachNextLine | src/formatting.rs:40-42 | Defines `prefix_each_next_line`. `PrefixEachNextLineLines` proves its lines. |
| Formatting.PrefixEachLine | src/formatting.rs:36-38 | Defines `prefix_each_line`. `PrefixEachLineLines` proves its lines. |
| Formatting.PrefixSingleLine | src/formatting.rs:40-42 | Input without a newline only loses its trailing whitespace. |
| Formatting.PrefixEachNextLineLines | src/formatting.rs:40-42 | The first line stays as it was and every later line gets `p` in front; all lines are right-trimmed. |
| Formatting.PrefixEachLineLines | src/formatting.rs:36-38 | Every line gets `p` in front and is right-trimmed. The first line is trimmed before `p` is added. |
| Formatting.DisplayList | src/formatting.rs:4-23 | Defines `display_list`. `DisplayListEmpty`, `DisplayListSingle` and `DisplayListRows` prove its three cases. |
| Formatting.DisplayListEmpty | src/formatting.rs:5-6 | An empty list is shown as nothing. |
| Formatting.DisplayListSingle | src/formatting.rs:7-11 | One item is shown behind ` └─ `, its later lines behind blanks, and a trailing newline is kept. |
| Formatting.DisplayListRows | src/formatting.rs:12-21 | The rows of two or more items are the items' rows under their markers, each branch followed by the connector row, all right-trimmed. |
| Formatting.AsciiUtf8Len | src/formatting.rs:29-31 | For an ASCII header the rule is as long as the header. |
| Formatting.DisplayBlock | src/formatting.rs:25-34 | Defines `display_block`. `DisplayBlockRows` proves its rows. |
| Formatting.DisplayBlockRows | src/formatting.rs:25-34 | A block's rows are the header behind a space, then `╭` and a rule as long as the header's UTF-8 byte length, then every body line behind `│ ` and right-trimmed, then `╰`. |

## Left out

- Running Cargo as a subprocess is left out: its arguments, its environment and the capture of stdout and stderr. The exit status and the output lines are parameters.
- JSON decoding with serde is left out. Each output line is given as its decoded record, or `None` when it would not decode. In the collect-only step a top-level diagnostic at level "help" does not decode, so it is such a `None`.
- Walking the `src` directory (`WalkDir`) is left out, and so is the order in which it yields files. The files are a parameter sequence in that order, already filtered to `.rs`.
- File opening is left out: a file that cannot be opened has `None` for its lines. The I/O errors behind `line.unwrap()` are not modelled.
- `Path::strip_prefix` is modelled on `/`-separated strings, without component normalisation. `to_string_lossy` is the identity on paths held as strings.
- `trim` and `trim_right` use ASCII whitespace. The other Unicode whitespace characters they also remove are not modelled.
- `\d` in the error-code pattern is modelled as the ASCII digits; the Unicode decimal digits it also accepts are not modelled.
- A general regular-expression engine is left out. Only the four fixed patterns are modelled, as scanners.
- CheckErrors.DirectiveMessage: more carets than the line number underflow the `usize` subtraction. That panics when overflow checks are on (debug builds) and wraps to a huge line number otherwise (release builds). The model gives the error `LineUnderflow` in both cases.
- The token parser, the per-module grouping of expected expansions and the `GLOBAL-*-REGEX` directives are left out. Only the tests exercise them, and they are outside the core.
- The conversion `check_errors.rs` uses for its own record type is not part of this model. `FindActualMessages` takes it as a parameter.
- `src/plan.rs`, `src/runner.rs`, `src/harness.rs` and `src/steps/build.rs` are left out: orchestration, locks, temporary directories, coloured output and process exit.
- `src/config.rs`, `src/lib.rs` and `src/steps/mod.rs` are left out: declarations and wiring without logic.
- `TestingError`'s `Display` messages (`src/error.rs:5-13`) are left out; the verdicts are modelled as data.
- The `BTreeMap` of `analyse_actual_expansion` is a Dafny `map`.
- Message locations are compared as strings. Rust compares the `PathBuf` of a location by components, so "src//lib.rs" equals "src/lib.rs" there and a trailing "/" is ignored; the model does not normalise paths.

## Findings

| source | as written | input that shows it | evidently intended | confidence | as-written member | corrected member |
|---|---|---|---|---|---|---|
| src/steps/check_expansion.rs:31 | `src/(.+?)(/mod)?.rs`: the dot is unescaped and the pattern is not anchored at the end, so the lazy capture stops at the first "rs" preceded by any character. | "src/users.rs" gives the module "us". | `src/(.+?)(/mod)?\.rs$`, giving "users". | not executed | CheckExpansion.EarlyRsAsWritten (on CheckExpansion.TransformAsWritten) | CheckExpansion.UsersIntended and CheckExpansion.ModuleOfFile (on CheckExpansion.ModuleName, used by CheckExpansion.AnalyseSourceLineIntended); CheckExpansion.UsersExpansionModules shows both steps on one line |
