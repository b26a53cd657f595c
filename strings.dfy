/**
 * Character-level building blocks shared by the directive scanners and the
 * report formatter: runs of one character, the rest of a line, the greedy
 * ` +(.+)` tail that ends both directive patterns, and whitespace trimming.
 */
module Strings {
  import opened Wrappers

  /** `n` copies of `c`. */
  function Repeat(c: char, n: nat): (r: string)
    ensures |r| == n
    ensures forall j :: 0 <= j < n ==> r[j] == c
  {
    if n == 0 then [] else [c] + Repeat(c, n - 1)
  }

  /** Length of the run of `c` at the start of `t`: what a greedy `c*` consumes. */
  function Run(t: string, c: char): (n: nat)
    ensures n <= |t|
    ensures forall j :: 0 <= j < n ==> t[j] == c
    ensures n < |t| ==> t[n] != c
  {
    if t != [] && t[0] == c then 1 + Run(t[1..], c) else 0
  }

  /** A run is determined by where the first other character stands. */
  lemma RunIs(t: string, c: char, n: nat)
    requires n <= |t|
    requires forall j :: 0 <= j < n ==> t[j] == c
    requires n < |t| ==> t[n] != c
    ensures Run(t, c) == n
  {
  }

  /** The longest prefix of `t` without a newline: what a greedy `.*` consumes. */
  function LineHead(t: string): (h: string)
    ensures h <= t
    ensures '\n' !in h
    ensures |h| < |t| ==> t[|h|] == '\n'
  {
    if t == [] || t[0] == '\n' then [] else [t[0]] + LineHead(t[1..])
  }

  /** A piece of one line runs to that line's end. */
  lemma LineHeadIs(t: string, h: string)
    requires h <= t
    requires '\n' !in h
    requires |h| < |t| ==> t[|h|] == '\n'
    ensures LineHead(t) == h
  {
  }

  /**
   * The tail ` +(.+)` matched at the start of `t` with leftmost-first
   * (backtracking) preference: the spaces are taken greedily and the text is
   * the rest of the line; when nothing but spaces is left, the engine gives
   * one space back to the text, which then is " ".
   */
  function GreedyTail(t: string): Option<string>
  {
    var pad := Run(t, ' ');
    if pad == 0 then None
    else
      var text := LineHead(t[pad..]);
      if text != [] then Some(text)
      else if pad >= 2 then Some(" ")
      else None
  }

  /** `t` is at least one space followed by `text`, a non-empty piece of one line running to its end. */
  ghost predicate TailFits(t: string, pad: nat, text: string)
  {
    && pad >= 1
    && text != []
    && '\n' !in text
    && Repeat(' ', pad) + text <= t
    && (pad + |text| < |t| ==> t[pad + |text|] == '\n')
  }

  /** Whatever GreedyTail captures is laid out as the pattern says. */
  lemma GreedyTailSound(t: string)
    requires GreedyTail(t).Some?
    ensures exists pad :: TailFits(t, pad, GreedyTail(t).value)
  {
    var pad := Run(t, ' ');
    var text := LineHead(t[pad..]);
    if text != [] {
      assert Repeat(' ', pad) == t[..pad];
      assert Repeat(' ', pad) + text <= t;
      assert TailFits(t, pad, text);
    } else {
      assert Repeat(' ', pad - 1) + " " == t[..pad];
      assert TailFits(t, pad - 1, " ");
    }
  }

  /** Any layout of ` +(.+)` at the start of `t` makes GreedyTail succeed. */
  lemma GreedyTailComplete(t: string, pad: nat, text: string)
    requires pad >= 1 && text != [] && '\n' !in text
    requires Repeat(' ', pad) + text <= t
    ensures GreedyTail(t).Some?
  {
    assert t[..pad] == Repeat(' ', pad);
    var run := Run(t, ' ');
    assert run >= pad;
    if run == pad {
      assert t[pad] == text[0];
      assert text[0] in text;
      assert LineHead(t[pad..]) != [];
    }
  }

  /** The layout whose text starts with a non-space and ends the line is captured exactly. */
  lemma GreedyTailExact(t: string, pad: nat, text: string)
    requires TailFits(t, pad, text)
    requires text[0] != ' '
    ensures GreedyTail(t) == Some(text)
  {
    assert t[..pad] == Repeat(' ', pad);
    assert t[pad] == text[0];
    RunIs(t, ' ', pad);
    var rest := t[pad..];
    assert text <= rest;
    LineHeadIs(rest, text);
  }

  /** Nothing but spaces: two or more leave the text " ", fewer match nothing. */
  lemma GreedyTailBlank(n: nat)
    ensures GreedyTail(Repeat(' ', n)) == if n >= 2 then Some(" ") else None
  {
    var t := Repeat(' ', n);
    RunIs(t, ' ', n);
    assert t[n..] == [];
  }

  /** ASCII whitespace: tab, line feed, vertical tab, form feed, carriage return and space. */
  predicate IsWhitespace(c: char)
  {
    c == ' ' || ('\t' <= c <= '\r')
  }

  /** `str::trim_right` (`trim_end`): the longest prefix that does not end in whitespace. */
  function TrimEnd(t: string): (r: string)
    ensures r <= t
    ensures r == [] || !IsWhitespace(r[|r| - 1])
    ensures forall j :: |r| <= j < |t| ==> IsWhitespace(t[j])
  {
    if t == [] || !IsWhitespace(t[|t| - 1]) then t else TrimEnd(t[..|t| - 1])
  }

  /** `str::trim_start`: the longest suffix that does not start with whitespace. */
  function TrimStart(t: string): (r: string)
    ensures |r| <= |t| && r == t[|t| - |r|..]
    ensures r == [] || !IsWhitespace(r[0])
    ensures forall j :: 0 <= j < |t| - |r| ==> IsWhitespace(t[j])
  {
    if t == [] || !IsWhitespace(t[0]) then t else TrimStart(t[1..])
  }

  /** `str::trim`: both ends. */
  function Trim(t: string): string
  {
    TrimEnd(TrimStart(t))
  }

  /** Trimming the end of a string whose start already is trimmed: the end alone decides. */
  lemma {:induction false} TrimEndAppend(a: string, y: string)
    ensures TrimEnd(a + TrimEnd(y)) == TrimEnd(a + y)
    decreases |y|
  {
    if y == [] || !IsWhitespace(y[|y| - 1]) {
    } else {
      assert (a + y)[..|a + y| - 1] == a + y[..|y| - 1];
      TrimEndAppend(a, y[..|y| - 1]);
    }
  }

  /** A string whose last character is not whitespace is its own trimmed end. */
  lemma TrimEndNoop(t: string)
    requires t == [] || !IsWhitespace(t[|t| - 1])
    ensures TrimEnd(t) == t
  {
  }

  /** Trimming the end leaves no newline that was not already there. */
  lemma TrimEndKeepsNoNewline(t: string)
    requires '\n' !in t
    ensures '\n' !in TrimEnd(t)
  {
    var r := TrimEnd(t);
    forall j | 0 <= j < |r| ensures r[j] != '\n' {
      assert r[j] == t[j];
      assert t[j] in t;
    }
  }

  /** Leading spaces in front of a non-whitespace start are all that `trim_start` removes. */
  lemma TrimStartSpaces(n: nat, rest: string)
    requires rest == [] || !IsWhitespace(rest[0])
    ensures TrimStart(Repeat(' ', n) + rest) == rest
  {
    var t := Repeat(' ', n) + rest;
    assert t[n..] == rest;
    TrimStartDrop(t, n);
  }

  /** `trim_start` drops exactly the leading whitespace. */
  lemma {:induction false} TrimStartDrop(t: string, k: nat)
    requires k <= |t|
    requires forall j :: 0 <= j < k ==> IsWhitespace(t[j])
    requires k == |t| || !IsWhitespace(t[k])
    ensures TrimStart(t) == t[k..]
    decreases k
  {
    if k > 0 {
      assert IsWhitespace(t[0]);
      TrimStartDrop(t[1..], k - 1);
      assert t[1..][k - 1..] == t[k..];
    } else {
      assert t[0..] == t;
    }
  }

  /** Trailing spaces behind a non-whitespace end are all that `trim_end` removes. */
  lemma {:induction false} TrimEndSpaces(rest: string, n: nat)
    requires rest == [] || !IsWhitespace(rest[|rest| - 1])
    ensures TrimEnd(rest + Repeat(' ', n)) == rest
  {
    if n > 0 {
      assert Repeat(' ', n) == Repeat(' ', n - 1) + [' '] by {
        RepeatSnoc(' ', n - 1);
      }
      assert (rest + Repeat(' ', n))[..|rest| + n - 1] == rest + Repeat(' ', n - 1);
      TrimEndSpaces(rest, n - 1);
    } else {
      assert rest + Repeat(' ', n) == rest;
    }
  }

  /** A stretch of `c`s is a run of them. */
  lemma RepeatSlice(t: string, i: nat, n: nat, c: char)
    requires i + n <= |t|
    requires forall j :: i <= j < i + n ==> t[j] == c
    ensures t[i..i + n] == Repeat(c, n)
  {
  }

  /** A tail of `c`s is a run of them. */
  lemma RepeatSuffix(t: string, i: nat, c: char)
    requires i <= |t|
    requires forall j :: i <= j < |t| ==> t[j] == c
    ensures t[i..] == Repeat(c, |t| - i)
  {
  }

  lemma RepeatSnoc(c: char, n: nat)
    ensures Repeat(c, n + 1) == Repeat(c, n) + [c]
  {
  }

  // ---------------------------------------------------------------------------
  // The opening `// *~` that both directive patterns share

  /** Position after `// *~` at the start of `t`. */
  function TildeEnd(t: string): (r: Option<nat>)
    ensures r.Some? ==> 3 <= r.value <= |t|
  {
    if !("//" <= t) then None
    else
      var tilde := 2 + Run(t[2..], ' ');
      if tilde < |t| && t[tilde] == '~' then Some(tilde + 1) else None
  }

  /** The opening of a directive is found where it ends. */
  lemma TildeEndOf(lead: nat, rest: string)
    ensures TildeEnd("//" + Repeat(' ', lead) + "~" + rest) == Some(3 + lead)
  {
    var t := "//" + Repeat(' ', lead) + "~" + rest;
    assert t[2..] == Repeat(' ', lead) + "~" + rest;
    RunIs(t[2..], ' ', lead);
  }

  /** What TildeEnd finds is the opening of a directive. */
  lemma TildeEndSound(t: string, m: nat)
    requires TildeEnd(t) == Some(m)
    ensures 3 <= m <= |t| && t[..m] == "//" + Repeat(' ', m - 3) + "~"
  {
    assert t[2..m - 1] == Repeat(' ', m - 3);
    assert t[..m] == t[..2] + t[2..m - 1] + [t[m - 1]];
  }

  // ---------------------------------------------------------------------------
  // Unanchored patterns

  /** The match of `matcher` at the first position at or after `i` where it matches. */
  function SearchFrom<D>(line: string, i: nat, matcher: string -> Option<D>): Option<D>
    requires i <= |line|
    decreases |line| - i
  {
    match matcher(line[i..])
    case Some(d) => Some(d)
    case None => if i == |line| then None else SearchFrom(line, i + 1, matcher)
  }

  /** A pattern without `^`, as `Regex::captures` runs it: the leftmost position where it matches. */
  function Search<D>(line: string, matcher: string -> Option<D>): Option<D>
  {
    SearchFrom(line, 0, matcher)
  }

  lemma {:induction false} SearchFromSound<D>(line: string, i: nat, matcher: string -> Option<D>)
    requires i <= |line| && SearchFrom(line, i, matcher).Some?
    ensures exists p :: (i <= p <= |line| && matcher(line[p..]) == SearchFrom(line, i, matcher)
      && forall q: nat :: i <= q < p ==> Misses(line, q, matcher))
    decreases |line| - i
  {
    if matcher(line[i..]).None? {
      SearchFromSound(line, i + 1, matcher);
    } else {
      assert matcher(line[i..]) == SearchFrom(line, i, matcher);
    }
  }

  lemma {:induction false} SearchFromComplete<D>(line: string, i: nat, p: nat, matcher: string -> Option<D>)
    requires i <= p <= |line| && matcher(line[p..]).Some?
    ensures SearchFrom(line, i, matcher).Some?
    decreases p - i
  {
    if i < p && matcher(line[i..]).None? {
      SearchFromComplete(line, i + 1, p, matcher);
    }
  }

  /** A pattern that matches at the start of the line matches there. */
  lemma SearchAtStart<D>(line: string, matcher: string -> Option<D>)
    requires matcher(line).Some?
    ensures Search(line, matcher) == matcher(line)
  {
    assert line[0..] == line;
  }

  /** The pattern does not match at position `q`. */
  ghost predicate Misses<D>(line: string, q: nat, matcher: string -> Option<D>)
  {
    q <= |line| && matcher(line[q..]).None?
  }

  /** The leftmost position where the pattern matches. */
  ghost predicate LeftmostAt<D>(line: string, p: nat, matcher: string -> Option<D>)
  {
    && p <= |line|
    && matcher(line[p..]).Some?
    && forall q: nat :: q < p ==> Misses(line, q, matcher)
  }

  /** The search finds something exactly when the pattern matches somewhere, and then it is the leftmost match. */
  lemma SearchIff<D>(line: string, matcher: string -> Option<D>)
    ensures Search(line, matcher).Some? <==> exists p :: 0 <= p <= |line| && matcher(line[p..]).Some?
    ensures Search(line, matcher).Some? ==>
      exists p: nat :: LeftmostAt(line, p, matcher) && matcher(line[p..]) == Search(line, matcher)
  {
    if Search(line, matcher).Some? {
      SearchFromSound(line, 0, matcher);
      var p :| 0 <= p <= |line| && matcher(line[p..]) == Search(line, matcher)
        && forall q: nat :: q < p ==> Misses(line, q, matcher);
      assert LeftmostAt(line, p, matcher);
    }
    if p :| 0 <= p <= |line| && matcher(line[p..]).Some? {
      SearchFromComplete(line, 0, p, matcher);
    }
  }
}
