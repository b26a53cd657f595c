/**
 * The source-code analyser shared by the steps that read annotations from a
 * crate: every line of every source file is offered, with its number and the
 * items found so far in that file, to a per-line analysis that may yield one
 * item.
 */
module Utils {
  import opened Wrappers

  /**
   * A source file found under the crate: its path and its lines as `lines()`
   * yields them, or `None` when it cannot be opened.
   */
  datatype SourceFile = SourceFile(path: string, lines: Option<seq<string>>)

  datatype SourceError =
    | PrefixNotFound(path: string, base: string)
    | UnableToOpen(path: string)

  /**
   * The per-line analysis of `SourceCodeAnalyser::analyse_source_line`: the
   * items found so far in the file, the path relative to the crate, the line
   * number and the line; `Success(None)` and any `Failure` yield nothing.
   */
  type Analyser<!T> = (seq<T>, string, nat, string) -> Result<Option<T>, string>

  /** `Path::strip_prefix` on paths written with `/`, without normalising components. */
  function StripPrefix(path: string, base: string): (r: Option<string>)
    ensures r.Some? ==> |r.value| <= |path| && r.value == path[|path| - |r.value|..]
  {
    if path == base then Some("")
    else if base != [] && base[|base| - 1] == '/' && base <= path then Some(path[|base|..])
    else if base + "/" <= path then Some(path[|base| + 1..])
    else None
  }

  /** Stripping the crate directory from a path under it gives back the relative path. */
  lemma StripPrefixJoin(base: string, rel: string)
    requires base != [] && base[|base| - 1] != '/' && rel != []
    ensures StripPrefix(base + "/" + rel, base) == Some(rel)
  {
    assert base + "/" <= base + "/" + rel;
    assert (base + "/" + rel)[|base| + 1..] == rel;
  }

  /** A path outside the crate directory has no relative path. */
  lemma StripPrefixOutside(path: string, base: string)
    requires !(base <= path)
    ensures StripPrefix(path, base).None?
  {
    assert base <= base + "/";
  }

  /** The relative path and the lines of a file: strip the prefix first, then open. */
  function ReadSource(crate: string, file: SourceFile): (r: Result<(string, seq<string>), SourceError>)
    ensures r.Success? <==> StripPrefix(file.path, crate).Some? && file.lines.Some?
    ensures r.Success? ==> r.value == (StripPrefix(file.path, crate).value, file.lines.value)
    ensures StripPrefix(file.path, crate).None? ==> r == Failure(PrefixNotFound(file.path, crate))
  {
    match StripPrefix(file.path, crate)
    case None => Failure(PrefixNotFound(file.path, crate))
    case Some(rel) =>
      match file.lines
      case None => Failure(UnableToOpen(file.path))
      case Some(lines) => Success((rel, lines))
  }

  /**
   * The items of a file: line `k` (numbered from 1) is analysed with the
   * items of lines `1..k-1` as `previous`, and what it yields is appended.
   */
  function FileItems<T>(analyse: Analyser<T>, path: string, lines: seq<string>): seq<T>
  {
    if lines == [] then []
    else
      var previous := FileItems(analyse, path, lines[..|lines| - 1]);
      match analyse(previous, path, |lines|, lines[|lines| - 1])
      case Success(Some(item)) => previous + [item]
      case _ => previous
  }

  /** `analyse_file`: the fold over the lines with a counter from 1. */
  method AnalyseFile<T>(analyse: Analyser<T>, crate: string, file: SourceFile) returns (r: Result<seq<T>, SourceError>)
    ensures ReadSource(crate, file).Failure? ==> r == Failure(ReadSource(crate, file).error)
    ensures ReadSource(crate, file).Success? ==>
      var (path, lines) := ReadSource(crate, file).value; r == Success(FileItems(analyse, path, lines))
  {
    var source := ReadSource(crate, file);
    if source.Failure? {
      return Failure(source.error);
    }
    var (path, lines) := source.value;
    var result: seq<T> := [];
    var lineNum := 1;
    while lineNum <= |lines|
      invariant 1 <= lineNum <= |lines| + 1
      invariant result == FileItems(analyse, path, lines[..lineNum - 1])
    {
      assert lines[..lineNum][..lineNum - 1] == lines[..lineNum - 1];
      match analyse(result, path, lineNum, lines[lineNum - 1]) {
        case Success(Some(item)) =>
          result := result + [item];
        case _ =>
      }
      lineNum := lineNum + 1;
    }
    assert lines[..|lines|] == lines;
    return Success(result);
  }

  /** A file yields at most one item per line. */
  lemma {:induction false} FileItemsBound<T>(analyse: Analyser<T>, path: string, lines: seq<string>)
    ensures |FileItems(analyse, path, lines)| <= |lines|
  {
    if lines != [] {
      FileItemsBound(analyse, path, lines[..|lines| - 1]);
    }
  }

  /** Items only accumulate: the items of the first lines are a prefix of the items of the file. */
  lemma {:induction false} FileItemsPrefix<T>(analyse: Analyser<T>, path: string, lines: seq<string>, n: nat)
    requires n <= |lines|
    ensures FileItems(analyse, path, lines[..n]) <= FileItems(analyse, path, lines)
    decreases |lines| - n
  {
    if n < |lines| {
      FileItemsPrefix(analyse, path, lines, n + 1);
      assert lines[..n + 1][..n] == lines[..n];
    } else {
      assert lines[..n] == lines;
    }
  }

  /** Item `k` of `items` is what line `i` yields, analysed with the items of the lines before it. */
  ghost predicate Origin<T>(analyse: Analyser<T>, path: string, lines: seq<string>, i: nat, items: seq<T>, k: nat)
    requires i < |lines| && k < |items|
  {
    var previous := FileItems(analyse, path, lines[..i]);
    |previous| == k && analyse(previous, path, i + 1, lines[i]) == Success(Some(items[k]))
  }

  /** Each item comes from one line, analysed with its number and the items of the lines before it. */
  lemma {:induction false} FileItemsOrigin<T>(analyse: Analyser<T>, path: string, lines: seq<string>, k: nat)
    requires k < |FileItems(analyse, path, lines)|
    ensures exists i :: 0 <= i < |lines| && Origin(analyse, path, lines, i, FileItems(analyse, path, lines), k)
  {
    var n := |lines| - 1;
    var previous := FileItems(analyse, path, lines[..n]);
    if k < |previous| {
      FileItemsOrigin(analyse, path, lines[..n], k);
      var i :| 0 <= i < n && Origin(analyse, path, lines[..n], i, previous, k);
      assert lines[..n][..i] == lines[..i];
      FileItemsPrefix(analyse, path, lines, n);
      assert Origin(analyse, path, lines, i, FileItems(analyse, path, lines), k);
    } else {
      assert Origin(analyse, path, lines, n, FileItems(analyse, path, lines), k);
    }
  }

  /** `items` in front of a successful result. */
  function Prepend<T>(items: seq<T>, r: Result<seq<T>, SourceError>): Result<seq<T>, SourceError>
  {
    match r
    case Failure(e) => Failure(e)
    case Success(rest) => Success(items + rest)
  }

  lemma PrependTwice<T>(x: seq<T>, y: seq<T>, r: Result<seq<T>, SourceError>)
    ensures Prepend(x, Prepend(y, r)) == Prepend(x + y, r)
  {
    if r.Success? {
      assert (x + y) + r.value == x + (y + r.value);
    }
  }

  /** `analyse_crate`: the items of the files, in order; the first failing file aborts with its error. */
  function CrateItems<T>(analyse: Analyser<T>, crate: string, files: seq<SourceFile>): Result<seq<T>, SourceError>
  {
    if files == [] then Success([])
    else
      match ReadSource(crate, files[0])
      case Failure(e) => Failure(e)
      case Success(source) =>
        Prepend(FileItems(analyse, source.0, source.1), CrateItems(analyse, crate, files[1..]))
  }

  /** `analyse_crate`: the loop appending each file's items. */
  method AnalyseCrate<T>(analyse: Analyser<T>, crate: string, files: seq<SourceFile>) returns (r: Result<seq<T>, SourceError>)
    ensures r == CrateItems(analyse, crate, files)
  {
    var result: seq<T> := [];
    var i := 0;
    match CrateItems(analyse, crate, files) {
      case Failure(_) =>
      case Success(all) => assert [] + all == all;
    }
    while i < |files|
      invariant 0 <= i <= |files|
      invariant CrateItems(analyse, crate, files) == Prepend(result, CrateItems(analyse, crate, files[i..]))
    {
      var items := AnalyseFile(analyse, crate, files[i]);
      if items.Failure? {
        return Failure(items.error);
      }
      assert files[i..][1..] == files[i + 1..];
      PrependTwice(result, items.value, CrateItems(analyse, crate, files[i + 1..]));
      result := result + items.value;
      i := i + 1;
    }
    assert result + [] == result;
    return Success(result);
  }

  /** When every file can be read, the crate's items are the files' items concatenated. */
  lemma {:induction false} CrateItemsConcat<T>(analyse: Analyser<T>, crate: string, a: seq<SourceFile>, b: seq<SourceFile>)
    requires CrateItems(analyse, crate, a).Success?
    ensures CrateItems(analyse, crate, a + b) == Prepend(CrateItems(analyse, crate, a).value, CrateItems(analyse, crate, b))
  {
    if a != [] {
      assert (a + b)[0] == a[0];
      assert (a + b)[1..] == a[1..] + b;
      CrateItemsConcat(analyse, crate, a[1..], b);
      var first := ReadSource(crate, a[0]).value;
      PrependTwice(FileItems(analyse, first.0, first.1), CrateItems(analyse, crate, a[1..]).value, CrateItems(analyse, crate, b));
    } else {
      assert a + b == b;
      match CrateItems(analyse, crate, b) {
        case Failure(_) =>
        case Success(rest) => assert [] + rest == rest;
      }
    }
  }

  /** The crate's analysis fails with the error of the first file that cannot be read. */
  lemma {:induction false} CrateItemsFirstError<T>(analyse: Analyser<T>, crate: string, files: seq<SourceFile>, i: nat)
    requires i < |files| && ReadSource(crate, files[i]).Failure?
    requires forall j :: 0 <= j < i ==> ReadSource(crate, files[j]).Success?
    ensures CrateItems(analyse, crate, files) == Failure(ReadSource(crate, files[i]).error)
  {
    if i > 0 {
      CrateItemsFirstError(analyse, crate, files[1..], i - 1);
    }
  }
}
