/**
 * The report formatter: a tree-shaped list of items, a boxed block with a
 * header, and the per-line prefixing and right-trimming helpers both use.
 * Items are given already rendered to strings (their `Display`).
 */
module Formatting {
  import opened Strings

  /** `str::split('\n')`: the pieces between newlines, always at least one. */
  function SplitOn(s: string): (r: seq<string>)
    ensures |r| >= 1
    ensures forall i :: 0 <= i < |r| ==> '\n' !in r[i]
  {
    if s == [] then [""]
    else
      var rest := SplitOn(s[1..]);
      if s[0] == '\n' then [""] + rest else [[s[0]] + rest[0]] + rest[1..]
  }

  /** `[T]::join(sep)`. */
  function Join(parts: seq<string>, sep: string): string
  {
    if parts == [] then ""
    else if |parts| == 1 then parts[0]
    else parts[0] + sep + Join(parts[1..], sep)
  }

  /**
   * `str::lines`: the pieces between newlines, where a final newline does not
   * start another line. The `\r` of a `\r\n` ending stays in the piece; every
   * use here right-trims the lines, which removes it as Rust does.
   */
  function Lines(s: string): (r: seq<string>)
    ensures forall i :: 0 <= i < |r| ==> '\n' !in r[i]
  {
    var pieces := SplitOn(s);
    if pieces[|pieces| - 1] == "" then pieces[..|pieces| - 1] else pieces
  }

  /** Right-trims every line of a list. */
  function TrimAll(lines: seq<string>): (r: seq<string>)
    ensures |r| == |lines|
    ensures forall i :: 0 <= i < |r| ==> r[i] == TrimEnd(lines[i])
  {
    if lines == [] then [] else [TrimEnd(lines[0])] + TrimAll(lines[1..])
  }

  /** Puts `p` in front of every line of a list. */
  function PrefixAll(lines: seq<string>, p: string): (r: seq<string>)
    ensures |r| == |lines|
    ensures forall i :: 0 <= i < |r| ==> r[i] == p + lines[i]
  {
    if lines == [] then [] else [p + lines[0]] + PrefixAll(lines[1..], p)
  }

  /** `trim_lines`: every line right-trimmed, joined again by newlines. */
  function TrimLines(s: string): string
  {
    Join(TrimAll(Lines(s)), "\n")
  }

  /** `s.replace("\n", "\n" + p)`. */
  function ReplaceNewlines(s: string, p: string): string
  {
    if s == [] then []
    else (if s[0] == '\n' then "\n" + p else [s[0]]) + ReplaceNewlines(s[1..], p)
  }

  /** `prefix_each_next_line`: `p` after every newline, then every line right-trimmed. */
  function PrefixEachNextLine(s: string, p: string): string
  {
    TrimLines(ReplaceNewlines(s, p))
  }

  /** `prefix_each_line`: `p` in front of the first line too. */
  function PrefixEachLine(s: string, p: string): string
  {
    p + PrefixEachNextLine(s, p)
  }

  /** The items of a list, each through `prefix_each_next_line` with `p`. */
  function PrefixEach(items: seq<string>, p: string): (r: seq<string>)
    ensures |r| == |items|
  {
    if items == [] then [] else [PrefixEachNextLine(items[0], p)] + PrefixEach(items[1..], p)
  }

  /** The markers of the tree list and of the block frame. */
  const Tee := " ├─ "
  const Bar := " │  "
  const Gap := " │"
  const Elbow := " └─ "
  const Blank := "    "
  const BranchSep := "\n │\n ├─ "
  const Frame := "│ "

  /** `display_list`: a tree of items, ` ├─ ` before each but the last, ` └─ ` before the last. */
  function DisplayList(items: seq<string>): string
  {
    if |items| == 0 then ""
    else if |items| == 1 then Elbow + PrefixEachNextLine(items[0], Blank) + "\n"
    else
      TrimLines(
        Tee + Join(PrefixEach(items[..|items| - 1], Bar), BranchSep)
        + "\n" + Gap + "\n" + Elbow + PrefixEachNextLine(items[|items| - 1], Blank) + "\n")
  }

  /** `str::len`: the number of bytes of the UTF-8 encoding. */
  function Utf8Len(s: string): nat
  {
    if s == [] then 0
    else
      var n := s[0] as int;
      (if n < 0x80 then 1 else if n < 0x800 then 2 else if n < 0x10000 then 3 else 4) + Utf8Len(s[1..])
  }

  /** `display_block`: the header, a rule of `─` as long as the header's byte length, the body behind `│ `. */
  function DisplayBlock(header: string, body: string): string
  {
    var rule := "╭" + Repeat('─', Utf8Len(header));
    var framed := TrimEnd(TrimLines(PrefixEachLine(body, Frame)));
    " " + header + "\n" + (rule + "\n" + (framed + "\n" + "╰"))
  }

  // ---------------------------------------------------------------------------
  // Splitting and joining

  lemma {:induction false} JoinSplit(s: string)
    ensures Join(SplitOn(s), "\n") == s
  {
    if s != [] {
      JoinSplit(s[1..]);
      var rest := SplitOn(s[1..]);
      if s[0] != '\n' {
        if |rest| == 1 {
        } else {
          assert Join(rest, "\n") == rest[0] + "\n" + Join(rest[1..], "\n");
        }
      }
    }
  }

  lemma {:induction false} SplitNoNewline(a: string)
    requires '\n' !in a
    ensures SplitOn(a) == [a]
  {
    if a != [] {
      assert a[0] in a;
      assert forall c :: c in a[1..] ==> c in a;
      SplitNoNewline(a[1..]);
      assert [a[0]] + a[1..] == a;
    }
  }

  /** A line without a newline in front of `b` joins `b`'s first piece. */
  lemma {:induction false} SplitPrefix(a: string, b: string)
    requires '\n' !in a
    ensures SplitOn(a + b) == [a + SplitOn(b)[0]] + SplitOn(b)[1..]
  {
    if a != [] {
      assert (a + b)[1..] == a[1..] + b;
      assert forall c :: c in a[1..] ==> c in a;
      SplitPrefix(a[1..], b);
      assert [a[0]] + (a[1..] + SplitOn(b)[0]) == a + SplitOn(b)[0];
    } else {
      assert a + b == b;
      assert a + SplitOn(b)[0] == SplitOn(b)[0];
      assert SplitOn(b) == [SplitOn(b)[0]] + SplitOn(b)[1..];
    }
  }

  /** A newline separates the pieces of its two sides. */
  lemma {:induction false} SplitConcat(a: string, b: string)
    ensures SplitOn(a + "\n" + b) == SplitOn(a) + SplitOn(b)
  {
    if a == [] {
      assert a + "\n" + b == "\n" + b;
      assert ("\n" + b)[1..] == b;
    } else {
      assert (a + "\n" + b)[1..] == a[1..] + "\n" + b;
      SplitConcat(a[1..], b);
    }
  }

  /** Joining lines by newlines and splitting again gives the lines back. */
  lemma {:induction false} SplitJoin(parts: seq<string>)
    requires |parts| >= 1
    requires forall i :: 0 <= i < |parts| ==> '\n' !in parts[i]
    ensures SplitOn(Join(parts, "\n")) == parts
  {
    if |parts| == 1 {
      SplitNoNewline(parts[0]);
    } else {
      SplitJoin(parts[1..]);
      SplitNoNewline(parts[0]);
      SplitConcat(parts[0], Join(parts[1..], "\n"));
      assert parts == [parts[0]] + parts[1..];
    }
  }

  /** `lines` loses only the empty piece after a final newline. */
  lemma LinesJoin(s: string)
    ensures s == Join(Lines(s), "\n") + (if s != [] && s[|s| - 1] == '\n' then "\n" else "")
  {
    var pieces := SplitOn(s);
    JoinSplit(s);
    LastPieceEmpty(s);
    if pieces[|pieces| - 1] == "" && |pieces| >= 2 {
      JoinDropLast(pieces, "\n");
    }
  }

  lemma {:induction false} JoinDropLast(parts: seq<string>, sep: string)
    requires |parts| >= 2
    ensures Join(parts, sep) == Join(parts[..|parts| - 1], sep) + sep + parts[|parts| - 1]
  {
    if |parts| > 2 {
      JoinDropLast(parts[1..], sep);
      assert parts[1..][..|parts| - 2] == parts[..|parts| - 1][1..];
    }
  }

  /** The last piece is empty exactly when the string is empty or ends in a newline. */
  lemma LastPieceEmpty(s: string)
    ensures SplitOn(s)[|SplitOn(s)| - 1] == "" <==> (s == [] || s[|s| - 1] == '\n')
  {
    var pieces := SplitOn(s);
    JoinSplit(s);
    if |pieces| >= 2 {
      JoinDropLast(pieces, "\n");
    }
    if s != [] && s[|s| - 1] == '\n' {
      assert s == s[..|s| - 1] + "\n" + "";
      SplitConcat(s[..|s| - 1], "");
    }
  }

  // ---------------------------------------------------------------------------
  // Trimming

  lemma {:induction false} TrimAllConcat(a: seq<string>, b: seq<string>)
    ensures TrimAll(a + b) == TrimAll(a) + TrimAll(b)
  {
  }

  lemma TrimAllTwice(lines: seq<string>)
    ensures TrimAll(TrimAll(lines)) == TrimAll(lines)
  {
    forall i | 0 <= i < |lines| ensures TrimEnd(TrimEnd(lines[i])) == TrimEnd(lines[i]) {
      TrimEndNoop(TrimEnd(lines[i]));
    }
  }

  lemma TrimAllNoNewline(lines: seq<string>)
    requires forall i :: 0 <= i < |lines| ==> '\n' !in lines[i]
    ensures forall i :: 0 <= i < |lines| ==> '\n' !in TrimAll(lines)[i]
  {
    forall i | 0 <= i < |lines| ensures '\n' !in TrimAll(lines)[i] {
      TrimEndKeepsNoNewline(lines[i]);
    }
  }

  /** `trim_lines` gives one line per line of its input, right-trimmed (a single empty line when there are none). */
  lemma TrimLinesLines(s: string)
    ensures SplitOn(TrimLines(s)) == if Lines(s) == [] then [""] else TrimAll(Lines(s))
  {
    var lines := Lines(s);
    if lines != [] {
      TrimAllNoNewline(lines);
      SplitJoin(TrimAll(lines));
    }
  }

  /** After `trim_lines` no line ends in whitespace. */
  lemma TrimLinesTrimmed(s: string)
    ensures forall l :: l in SplitOn(TrimLines(s)) ==> l == [] || !IsWhitespace(l[|l| - 1])
  {
    var lines := Lines(s);
    var rows := SplitOn(TrimLines(s));
    assert rows == if lines == [] then [""] else TrimAll(lines) by {
      TrimLinesLines(s);
    }
    forall l | l in rows ensures l == [] || !IsWhitespace(l[|l| - 1]) {
      if lines != [] {
        var i :| 0 <= i < |rows| && rows[i] == l;
        assert l == TrimEnd(lines[i]);
      }
    }
  }

  // ---------------------------------------------------------------------------
  // Prefixing

  lemma {:induction false} ReplaceNoNewline(s: string, p: string)
    requires '\n' !in s
    ensures ReplaceNewlines(s, p) == s
  {
    if s != [] {
      assert forall c :: c in s[1..] ==> c in s;
      ReplaceNoNewline(s[1..], p);
    }
  }

  /** `replace` puts `p` in front of every piece but the first. */
  lemma {:induction false} ReplaceSplit(s: string, p: string)
    requires '\n' !in p
    ensures SplitOn(ReplaceNewlines(s, p)) == [SplitOn(s)[0]] + PrefixAll(SplitOn(s)[1..], p)
  {
    if s != [] {
      var r := ReplaceNewlines(s[1..], p);
      var tail := SplitOn(s[1..]);
      ReplaceSplit(s[1..], p);
      if s[0] == '\n' {
        assert ReplaceNewlines(s, p) == "\n" + (p + r);
        SplitConcat("", p + r);
        SplitPrefix(p, r);
        assert PrefixAll(tail, p) == [p + tail[0]] + PrefixAll(tail[1..], p);
      } else {
        assert ReplaceNewlines(s, p) == [s[0]] + r;
        SplitPrefix([s[0]], r);
      }
    }
  }

  /** Input without a newline only loses its trailing whitespace. */
  lemma PrefixSingleLine(s: string, p: string)
    requires '\n' !in s
    ensures PrefixEachNextLine(s, p) == TrimEnd(s)
  {
    ReplaceNoNewline(s, p);
    SplitNoNewline(s);
  }

  /** The lines of `prefix_each_next_line`: the first as it was, every later one behind `p`, all right-trimmed. */
  lemma PrefixEachNextLineLines(s: string, p: string)
    requires p != [] && '\n' !in p
    ensures SplitOn(PrefixEachNextLine(s, p)) == TrimAll([SplitOn(s)[0]] + PrefixAll(SplitOn(s)[1..], p))
  {
    var pieces := SplitOn(s);
    var r := ReplaceNewlines(s, p);
    ReplaceSplit(s, p);
    TrimLinesLines(r);
    if s == [] {
    } else {
      if |pieces| == 1 {
        JoinSplit(s);
      }
    }
  }

  /**
   * The lines of `prefix_each_line`: every line behind `p`, right-trimmed,
   * except that the first is trimmed before `p` is put in front.
   */
  lemma PrefixEachLineLines(s: string, p: string)
    requires p != [] && '\n' !in p
    ensures SplitOn(PrefixEachLine(s, p))
      == [p + TrimEnd(SplitOn(s)[0])] + TrimAll(PrefixAll(SplitOn(s)[1..], p))
  {
    var pieces := SplitOn(s);
    var q := SplitOn(PrefixEachNextLine(s, p));
    PrefixEachNextLineLines(s, p);
    SplitPrefix(p, PrefixEachNextLine(s, p));
    assert q == [TrimEnd(pieces[0])] + TrimAll(PrefixAll(pieces[1..], p));
  }

  // ---------------------------------------------------------------------------
  // The tree list

  /** The rows one item occupies: its first line behind `first`, later lines behind `cont`. */
  function ItemRows(first: string, cont: string, item: string): seq<string>
  {
    var pieces := SplitOn(item);
    [first + pieces[0]] + PrefixAll(pieces[1..], cont)
  }

  /** The rows of the items before the last: each followed by the connector row. */
  function BranchRows(items: seq<string>): seq<string>
  {
    if items == [] then [] else ItemRows(Tee, Bar, items[0]) + [Gap] + BranchRows(items[1..])
  }

  /** The rows of a tree list of two or more items, before right-trimming. */
  function TreeRows(items: seq<string>): seq<string>
    requires |items| >= 2
  {
    BranchRows(items[..|items| - 1]) + ItemRows(Elbow, Blank, items[|items| - 1])
  }

  /** The text the rendered items before the last occupy, up to the connector after the last of them. */
  function BranchText(rendered: seq<string>): string
  {
    Tee + Join(rendered, BranchSep) + "\n" + Gap
  }

  /** An item behind its marker, after `prefix_each_next_line`, trims to its rows. */
  lemma ItemRowsTrim(first: string, cont: string, item: string)
    requires '\n' !in first
    requires cont != [] && '\n' !in cont
    ensures TrimAll(SplitOn(first + PrefixEachNextLine(item, cont))) == TrimAll(ItemRows(first, cont, item))
  {
    var pieces := SplitOn(item);
    var q := SplitOn(PrefixEachNextLine(item, cont));
    PrefixEachNextLineLines(item, cont);
    SplitPrefix(first, PrefixEachNextLine(item, cont));
    TrimEndAppend(first, pieces[0]);
    assert q[1..] == TrimAll(PrefixAll(pieces[1..], cont));
    TrimAllTwice(PrefixAll(pieces[1..], cont));
    TrimAllConcat([first + q[0]], q[1..]);
    TrimAllConcat([first + pieces[0]], PrefixAll(pieces[1..], cont));
  }

  lemma BranchTextStep(rendered: seq<string>)
    requires |rendered| >= 2
    ensures BranchText(rendered)
      == (Tee + rendered[0]) + "\n" + (Gap + "\n" + BranchText(rendered[1..]))
  {
    assert Join(rendered, BranchSep) == rendered[0] + BranchSep + Join(rendered[1..], BranchSep);
    assert BranchSep == "\n" + Gap + "\n" + Tee;
  }

  /** Splitting `a`, a newline, the connector row, a newline and `b`. */
  lemma SplitAroundGap(a: string, b: string)
    ensures SplitOn(a + "\n" + (Gap + "\n" + b)) == SplitOn(a) + [Gap] + SplitOn(b)
  {
    SplitConcat(a, Gap + "\n" + b);
    SplitConcat(Gap, b);
    SplitNoNewline(Gap);
  }

  lemma TrimGap()
    ensures TrimAll([Gap]) == [Gap]
  {
    assert TrimEnd(Gap) == Gap;
  }

  lemma {:induction false} BranchRowsTrim(items: seq<string>)
    requires items != []
    ensures TrimAll(SplitOn(BranchText(PrefixEach(items, Bar)))) == TrimAll(BranchRows(items))
  {
    var rendered := PrefixEach(items, Bar);
    var head := Tee + rendered[0];
    var rows := ItemRows(Tee, Bar, items[0]);
    assert rendered == [PrefixEachNextLine(items[0], Bar)] + PrefixEach(items[1..], Bar);
    ItemRowsTrim(Tee, Bar, items[0]);
    TrimGap();
    if |items| == 1 {
      assert BranchText(rendered) == head + "\n" + Gap;
      SplitConcat(head, Gap);
      SplitNoNewline(Gap);
      TrimAllConcat(SplitOn(head), [Gap]);
      TrimAllConcat(rows, [Gap]);
      assert BranchRows(items) == rows + [Gap] + [];
    } else {
      var rest := BranchText(rendered[1..]);
      BranchTextStep(rendered);
      SplitAroundGap(head, rest);
      BranchRowsTrim(items[1..]);
      TrimAllConcat(SplitOn(head) + [Gap], SplitOn(rest));
      TrimAllConcat(SplitOn(head), [Gap]);
      TrimAllConcat(rows + [Gap], BranchRows(items[1..]));
      TrimAllConcat(rows, [Gap]);
    }
  }

  /** The lines of two pieces, each ended by a newline, after `trim_lines`. */
  lemma TrimLinesOfTwo(a: string, b: string)
    ensures SplitOn(TrimLines(a + "\n" + b + "\n")) == TrimAll(SplitOn(a) + SplitOn(b))
  {
    assert a + "\n" + b + "\n" == (a + "\n" + b) + "\n" + "";
    SplitConcat(a + "\n" + b, "");
    SplitConcat(a, b);
    assert Lines(a + "\n" + b + "\n") == SplitOn(a) + SplitOn(b);
    TrimLinesLines(a + "\n" + b + "\n");
  }

  /** The source's text of a tree list of two or more items, as branches and tip. */
  lemma DisplayListText(items: seq<string>)
    requires |items| >= 2
    ensures DisplayList(items)
      == TrimLines(BranchText(PrefixEach(items[..|items| - 1], Bar)) + "\n"
           + (Elbow + PrefixEachNextLine(items[|items| - 1], Blank)) + "\n")
  {
    var joined := Join(PrefixEach(items[..|items| - 1], Bar), BranchSep);
    var tip := PrefixEachNextLine(items[|items| - 1], Blank);
    assert Tee + joined + "\n" + Gap + "\n" + Elbow + tip + "\n"
        == (Tee + joined + "\n" + Gap) + "\n" + (Elbow + tip) + "\n";
  }

  /** The rows of a tree list of two or more items: `TreeRows`, right-trimmed; no trailing newline is added. */
  lemma DisplayListRows(items: seq<string>)
    requires |items| >= 2
    ensures SplitOn(DisplayList(items)) == TrimAll(TreeRows(items))
  {
    var init := items[..|items| - 1];
    var last := items[|items| - 1];
    var branches := BranchText(PrefixEach(init, Bar));
    var tip := Elbow + PrefixEachNextLine(last, Blank);
    DisplayListText(items);
    TrimLinesOfTwo(branches, tip);
    TrimAllConcat(SplitOn(branches), SplitOn(tip));
    BranchRowsTrim(init);
    ItemRowsTrim(Elbow, Blank, last);
    TrimAllConcat(BranchRows(init), ItemRows(Elbow, Blank, last));
  }

  /** A list of one item keeps its trailing newline and is not trimmed as a whole. */
  lemma DisplayListSingle(item: string)
    ensures SplitOn(DisplayList([item]))
      == [Elbow + TrimEnd(SplitOn(item)[0])] + TrimAll(PrefixAll(SplitOn(item)[1..], Blank)) + [""]
  {
    var body := PrefixEachNextLine(item, Blank);
    PrefixEachNextLineLines(item, Blank);
    assert DisplayList([item]) == (Elbow + body) + "\n" + "";
    SplitConcat(Elbow + body, "");
    SplitPrefix(Elbow, body);
  }

  /** The empty list is shown as nothing at all. */
  lemma DisplayListEmpty()
    ensures DisplayList([]) == ""
  {
  }

  // ---------------------------------------------------------------------------
  // The boxed block

  /** For an ASCII header the rule is as long as the header. */
  lemma {:induction false} AsciiUtf8Len(s: string)
    requires forall i :: 0 <= i < |s| ==> (s[i] as int) < 0x80
    ensures Utf8Len(s) == |s|
  {
    if s != [] {
      AsciiUtf8Len(s[1..]);
    }
  }

  /** A line that starts with a non-whitespace prefix keeps it when right-trimmed. */
  lemma FramedLine(f: string, x: string)
    requires f != [] && !IsWhitespace(f[0])
    ensures var t := TrimEnd(f + x); t != [] && t[0] == f[0] && !IsWhitespace(t[|t| - 1])
  {
    assert !IsWhitespace((f + x)[0]);
  }

  /** The last character of a join is that of its last part. */
  lemma JoinLast(parts: seq<string>)
    requires |parts| >= 1 && parts[|parts| - 1] != []
    ensures var j := Join(parts, "\n"); j != [] && j[|j| - 1] == parts[|parts| - 1][|parts[|parts| - 1]| - 1]
  {
    if |parts| >= 2 {
      JoinDropLast(parts, "\n");
    }
  }

  /** Trimming again after the first row was trimmed before its prefix went on changes nothing. */
  lemma Retrim(f: string, x: string, ys: seq<string>)
    ensures TrimAll([f + TrimEnd(x)] + TrimAll(ys)) == TrimAll([f + x] + ys)
  {
    TrimEndAppend(f, x);
    TrimAllConcat([f + TrimEnd(x)], TrimAll(ys));
    TrimAllTwice(ys);
    TrimAllConcat([f + x], ys);
  }

  /** The rows of `prefix_each_line` with prefix `f`, trimmed again by `trim_lines`. */
  lemma FramedRows(f: string, body: string)
    requires f != [] && !IsWhitespace(f[0]) && '\n' !in f
    ensures TrimLines(PrefixEachLine(body, f)) == Join(TrimAll(PrefixAll(SplitOn(body), f)), "\n")
  {
    var pieces := SplitOn(body);
    var framed := PrefixEachLine(body, f);
    var rest := TrimAll(PrefixAll(pieces[1..], f));
    var q := SplitOn(framed);
    assert q == [f + TrimEnd(pieces[0])] + rest by {
      PrefixEachLineLines(body, f);
    }
    assert Lines(framed) == q by {
      assert q[|q| - 1] != "" by {
        if |q| == 1 {
          assert q[0] == f + TrimEnd(pieces[0]);
        } else {
          FramedLine(f, pieces[|pieces| - 1]);
          assert q[|q| - 1] == rest[|rest| - 1];
        }
      }
    }
    assert TrimAll(q) == TrimAll(PrefixAll(pieces, f)) by {
      Retrim(f, pieces[0], PrefixAll(pieces[1..], f));
      assert PrefixAll(pieces, f) == [f + pieces[0]] + PrefixAll(pieces[1..], f);
    }
  }

  /** Rows that all start with `f` joined by newlines do not end in whitespace. */
  lemma FramedEnd(f: string, pieces: seq<string>)
    requires f != [] && !IsWhitespace(f[0]) && |pieces| >= 1
    ensures var j := Join(TrimAll(PrefixAll(pieces, f)), "\n"); TrimEnd(j) == j
  {
    var rows := TrimAll(PrefixAll(pieces, f));
    var last := rows[|rows| - 1];
    assert last != [] && !IsWhitespace(last[|last| - 1]) by {
      assert last == TrimEnd(f + pieces[|pieces| - 1]);
      FramedLine(f, pieces[|pieces| - 1]);
    }
    var j := Join(rows, "\n");
    assert j != [] && j[|j| - 1] == last[|last| - 1] by {
      JoinLast(rows);
    }
    TrimEndNoop(j);
  }

  /** Three lines and a text between them split into the three lines around the text's pieces. */
  lemma SplitFramed(a: string, b: string, c: string, d: string)
    requires '\n' !in a && '\n' !in b && '\n' !in d
    ensures SplitOn(a + "\n" + (b + "\n" + (c + "\n" + d))) == [a, b] + SplitOn(c) + [d]
  {
    var inner := SplitOn(c + "\n" + d);
    assert inner == SplitOn(c) + [d] by {
      SplitConcat(c, d);
      SplitNoNewline(d);
    }
    var middle := SplitOn(b + "\n" + (c + "\n" + d));
    assert middle == [b] + inner by {
      SplitConcat(b, c + "\n" + d);
      SplitNoNewline(b);
    }
    assert SplitOn(a + "\n" + (b + "\n" + (c + "\n" + d))) == [a] + middle by {
      SplitConcat(a, b + "\n" + (c + "\n" + d));
      SplitNoNewline(a);
    }
    RowsAround(a, b, SplitOn(c), d);
  }

  lemma RowsAround(a: string, b: string, xs: seq<string>, d: string)
    ensures [a] + ([b] + (xs + [d])) == [a, b] + xs + [d]
  {
  }

  /**
   * The rows of a block: the header, the rule, one row per line of the body
   * behind the frame and right-trimmed (an empty body still gives a row), and
   * the closing corner.
   */
  lemma DisplayBlockRows(header: string, body: string)
    requires '\n' !in header
    ensures SplitOn(DisplayBlock(header, body))
      == [" " + header, "╭" + Repeat('─', Utf8Len(header))] + TrimAll(PrefixAll(SplitOn(body), Frame)) + ["╰"]
  {
    var rows := TrimAll(PrefixAll(SplitOn(body), Frame));
    var rule := "╭" + Repeat('─', Utf8Len(header));
    assert '\n' !in Frame && !IsWhitespace(Frame[0]);
    FramedRows(Frame, body);
    FramedEnd(Frame, SplitOn(body));
    assert '\n' !in rule;
    SplitFramed(" " + header, rule, Join(rows, "\n"), "╰");
    TrimAllNoNewline(PrefixAll(SplitOn(body), Frame));
    SplitJoin(rows);
  }
}
