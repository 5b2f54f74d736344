/**
 * The text-editing helpers of the editor's `Content` object that do not depend on
 * the GtkSource buffer: tab expansion, substitution of the selection for a single
 * `•` placeholder, re-indentation of inserted text, the comment/uncomment toggle,
 * the `\usepackage` text and its anchor, and the synctex word truncation and
 * candidate selection.
 */
module Content {
  import opened Wrappers
  import opened Strings
  import opened Sequences
  import opened Numbers

  // ---------------------------------------------------------------- tabs

  /** `s.replace(c, rep)`: every occurrence of `c` is replaced. */
  function ReplaceAll(s: string, c: char, rep: string): string
    decreases |s|
  {
    if s == [] then [] else (if s[0] == c then rep else [s[0]]) + ReplaceAll(s[1..], c, rep)
  }

  lemma {:induction false} ReplaceAllAvoids(s: string, c: char, rep: string)
    requires c !in rep
    ensures c !in ReplaceAll(s, c, rep)
    decreases |s|
  {
    if s != [] {
      ReplaceAllAvoids(s[1..], c, rep);
    }
  }

  lemma {:induction false} ReplaceAllLength(s: string, c: char, rep: string)
    ensures |ReplaceAll(s, c, rep)| == |s| + Count(s, c) * (|rep| - 1)
    decreases |s|
  {
    if s != [] {
      ReplaceAllLength(s[1..], c, rep);
    }
  }

  /** What `ReplaceAllAt` says of character `x` placed at `j` in `r`. */
  predicate PlacedAt(r: string, j: int, x: char, c: char, rep: string)
  {
    if x == c then 0 <= j && j + |rep| <= |r| && r[j..j + |rep|] == rep
    else 0 <= j < |r| && r[j] == x
  }

  lemma PlacedAfter(head: string, rt: string, j: int, x: char, c: char, rep: string)
    requires PlacedAt(rt, j, x, c, rep)
    ensures PlacedAt(head + rt, |head| + j, x, c, rep)
  {
    if x == c {
      assert (head + rt)[|head| + j..|head| + j + |rep|] == rt[j..j + |rep|];
    }
  }

  lemma PlaceStep(i: int, d: int, ct: int, k: int)
    ensures i + (d + ct) * k == (1 + d * k) + (i - 1 + ct * k)
  {
    assert (d + ct) * k == d * k + ct * k;
  }

  /** Character `i` of `s` lands at `i` plus `|rep| - 1` for every earlier `c`: there `rep`
      stands in for a `c`, and any other character is copied. */
  lemma {:induction false} ReplaceAllAt(s: string, c: char, rep: string, i: int)
    requires 0 <= i < |s|
    ensures PlacedAt(ReplaceAll(s, c, rep), i + Count(s[..i], c) * (|rep| - 1), s[i], c, rep)
    decreases |s|
  {
    var head := if s[0] == c then rep else [s[0]];
    var t := s[1..];
    var rt := ReplaceAll(t, c, rep);
    var k := |rep| - 1;
    assert ReplaceAll(s, c, rep) == head + rt;
    if i == 0 {
      assert s[..0] == [];
      assert Count(s[..0], c) == 0;
      assert ReplaceAll(s, c, rep)[..|head|] == head;
    } else {
      ReplaceAllAt(t, c, rep, i - 1);
      var d := if s[0] == c then 1 else 0;
      var ct := Count(t[..i - 1], c);
      assert s[..i] == [s[0]] + t[..i - 1];
      CountAppend([s[0]], t[..i - 1], c);
      assert Count([s[0]], c) == d;
      assert t[i - 1] == s[i];
      PlaceStep(i, d, ct, k);
      assert |head| == 1 + d * k;
      PlacedAfter(head, rt, i - 1 + ct * k, s[i], c, rep);
    }
  }

  /** Every character is placed as `ReplaceAllAt` says. */
  lemma ReplaceAllInPlace(s: string, c: char, rep: string)
    ensures var r := ReplaceAll(s, c, rep);
            forall i :: 0 <= i < |s| ==>
              var j := i + Count(s[..i], c) * (|rep| - 1);
              if s[i] == c then 0 <= j && j + |rep| <= |r| && r[j..j + |rep|] == rep
              else 0 <= j < |r| && r[j] == s[i]
  {
    forall i | 0 <= i < |s|
      ensures var r := ReplaceAll(s, c, rep);
              var j := i + Count(s[..i], c) * (|rep| - 1);
              if s[i] == c then 0 <= j && j + |rep| <= |r| && r[j..j + |rep|] == rep
              else 0 <= j < |r| && r[j] == s[i]
    {
      ReplaceAllAt(s, c, rep, i);
    }
  }

  lemma {:induction false} ReplaceAllAbsent(s: string, c: char, rep: string)
    requires c !in s
    ensures ReplaceAll(s, c, rep) == s
    decreases |s|
  {
    if s != [] {
      assert s[0] != c;
      ReplaceAllAbsent(s[1..], c, rep);
      assert s == [s[0]] + s[1..];
    }
  }

  /** `' ' * n`. */
  function Spaces(n: nat): (r: string)
    ensures |r| == n && forall i :: 0 <= i < n ==> r[i] == ' '
  {
    seq(n, _ => ' ')
  }

  /** `replace_tabs_with_spaces_if_set`. */
  function ReplaceTabs(text: string, spacesInsteadOfTabs: bool, tabWidth: nat): string
  {
    if spacesInsteadOfTabs then ReplaceAll(text, '\t', Spaces(tabWidth)) else text
  }

  /** With the setting on, no tab is left, each tab became `tabWidth` spaces in place and
      every other character is kept, shifted by `tabWidth - 1` for each earlier tab; with the
      setting off, or without tabs, the text is unchanged. */
  lemma ReplaceTabsSpec(text: string, spacesInsteadOfTabs: bool, tabWidth: nat)
    ensures spacesInsteadOfTabs ==> '\t' !in ReplaceTabs(text, spacesInsteadOfTabs, tabWidth)
    ensures spacesInsteadOfTabs ==>
      |ReplaceTabs(text, spacesInsteadOfTabs, tabWidth)| == |text| + Count(text, '\t') * (tabWidth - 1)
    ensures spacesInsteadOfTabs ==>
      var r := ReplaceTabs(text, spacesInsteadOfTabs, tabWidth);
      forall i :: 0 <= i < |text| ==>
        var j := i + Count(text[..i], '\t') * (tabWidth - 1);
        if text[i] == '\t' then 0 <= j && j + tabWidth <= |r| && r[j..j + tabWidth] == Spaces(tabWidth)
        else 0 <= j < |r| && r[j] == text[i]
    ensures !spacesInsteadOfTabs || '\t' !in text ==> ReplaceTabs(text, spacesInsteadOfTabs, tabWidth) == text
  {
    var sp := Spaces(tabWidth);
    assert '\t' !in sp;
    ReplaceAllAvoids(text, '\t', sp);
    ReplaceAllLength(text, '\t', sp);
    ReplaceAllInPlace(text, '\t', sp);
    if '\t' !in text {
      ReplaceAllAbsent(text, '\t', sp);
    }
  }

  /** The width of a line's indentation as the indentation tags measure it: the length of the
      tab-expanded line minus the length of the left-stripped line. */
  function IndentationWidth(line: string, tabWidth: nat): int
  {
    |ReplaceAll(line, '\t', Spaces(tabWidth))| - |LStrip(line)|
  }

  /** Every tab of the line counts, also one after the first non-whitespace character. */
  lemma IndentationWidthCountsEveryTab(line: string, tabWidth: nat)
    ensures IndentationWidth(line, tabWidth) == |LeadingWhitespace(line)| + Count(line, '\t') * (tabWidth - 1)
  {
    ReplaceAllLength(line, '\t', Spaces(tabWidth));
  }

  // ---------------------------------------------------------------- placeholder

  const Dot: char := '•'

  /** `replace_first_dot_with_selection`; `selection` is the selected text, `None` without
      a selection. */
  function ReplaceFirstDot(text: string, selection: Option<string>): string
  {
    if Count(text, Dot) == 1 && selection.Some? && |selection.value| > 0 then
      ReplaceFirst(text, Dot, selection.value)
    else text
  }

  /** A character that occurs once is absent before and after its first index. */
  lemma OccursOnce(text: string, c: char)
    requires Count(text, c) == 1
    ensures var i := IndexOf(text, c);
      i < |text| && c !in text[..i] && c !in text[i + 1..]
  {
    var i := IndexOf(text, c);
    CountZero(text, c);
    assert text == text[..i] + ([text[i]] + text[i + 1..]);
    CountAppend(text[..i], [text[i]] + text[i + 1..], c);
    CountAppend([text[i]], text[i + 1..], c);
    CountZero(text[..i], c);
    CountZero(text[i + 1..], c);
  }

  /** The text changes only with exactly one `•` and a non-empty selection, and then exactly
      that `•` is replaced by the selection. */
  lemma ReplaceFirstDotSpec(text: string, selection: Option<string>)
    ensures !(Count(text, Dot) == 1 && selection.Some? && selection.value != []) ==>
      ReplaceFirstDot(text, selection) == text
    ensures Count(text, Dot) == 1 && selection.Some? && selection.value != [] ==>
      var i := IndexOf(text, Dot);
      && i < |text|
      && Dot !in text[..i] && Dot !in text[i + 1..]
      && ReplaceFirstDot(text, selection) == text[..i] + selection.value + text[i + 1..]
  {
    if Count(text, Dot) == 1 {
      OccursOnce(text, Dot);
    }
  }

  // ---------------------------------------------------------------- indentation

  /** The text `indent_text_with_whitespace_at_iter` produces: the lines of `text` joined by a
      newline followed by the leading whitespace of `wsLine`, the part of the cursor's line
      before the cursor. */
  function Indented(text: string, wsLine: string): string
  {
    Join(Split(text, '\n'), "\n" + LeadingWhitespace(wsLine))
  }

  method IndentText(text: string, wsLine: string) returns (finalText: string)
    ensures finalText == Indented(text, wsLine)
  {
    var lines := Split(text, '\n');
    var wsNumber := |wsLine| - |LStrip(wsLine)|;
    var whitespace := wsLine[..wsNumber];
    var separator := "\n" + whitespace;
    finalText := "";
    for no := 0 to |lines|
      invariant finalText == Join(lines[..no], separator)
    {
      PrefixStep(lines, no);
      JoinSnoc(lines[..no], lines[no], separator);
      if no != 0 {
        finalText := finalText + separator;
      }
      finalText := finalText + lines[no];
    }
    assert lines[..|lines|] == lines;
  }

  /** The lines of the re-indented text: the first line, then every other line prefixed with `w`. */
  function IndentedParts(lines: seq<string>, w: string): seq<string>
    requires |lines| >= 1
  {
    [lines[0]] + WithPrefix(lines[1..], w)
  }

  /** Every part prefixed with `w`. */
  function WithPrefix(parts: seq<string>, w: string): (r: seq<string>)
    ensures |r| == |parts| && forall k :: 0 <= k < |parts| ==> r[k] == w + parts[k]
  {
    seq(|parts|, k requires 0 <= k < |parts| => w + parts[k])
  }

  lemma JoinHead(w: string, a: string, rest: seq<string>, sep: string)
    ensures Join([w + a] + rest, sep) == w + Join([a] + rest, sep)
  {
    if rest == [] {
      assert [w + a] + rest == [w + a];
      assert [a] + rest == [a];
    } else {
      assert ([w + a] + rest)[1..] == rest;
      assert ([a] + rest)[1..] == rest;
    }
  }

  /** Joining with a newline and `w` is joining, with a newline, the first part and the
      other parts prefixed with `w`. */
  lemma {:induction false} JoinNewlineWhitespace(parts: seq<string>, w: string)
    requires |parts| >= 1
    ensures Join(parts, "\n" + w) == Join(IndentedParts(parts, w), "\n")
    decreases |parts|
  {
    if |parts| == 1 {
      assert [parts[0]] + WithPrefix(parts[1..], w) == [parts[0]];
    } else {
      var tail := parts[1..];
      var rest := WithPrefix(tail[1..], w);
      JoinNewlineWhitespace(tail, w);
      assert WithPrefix(tail, w) == [w + tail[0]] + rest;
      JoinHead(w, tail[0], rest, "\n");
      var q := [parts[0]] + ([w + tail[0]] + rest);
      assert q[1..] == [w + tail[0]] + rest;
      assert Join(parts, "\n" + w) == parts[0] + ("\n" + w) + Join(tail, "\n" + w);
      assert Join(q, "\n") == parts[0] + "\n" + Join([w + tail[0]] + rest, "\n");
    }
  }

  /** Re-indenting keeps the number of lines and the first line, and prefixes every later line
      with the leading whitespace of the cursor's line. */
  lemma IndentedLines(text: string, wsLine: string)
    requires '\n' !in wsLine
    ensures var lines, out := Split(text, '\n'), Split(Indented(text, wsLine), '\n');
      && |out| == |lines| && out[0] == lines[0]
      && forall k :: 1 <= k < |lines| ==> out[k] == LeadingWhitespace(wsLine) + lines[k]
  {
    var lines, ws := Split(text, '\n'), LeadingWhitespace(wsLine);
    var parts := IndentedParts(lines, ws);
    JoinNewlineWhitespace(lines, ws);
    NoNewlineInLeadingWhitespace(wsLine);
    PartsWithoutNewline(text, ws);
    SplitJoin(parts, '\n');
  }

  lemma NoNewlineInLeadingWhitespace(wsLine: string)
    requires '\n' !in wsLine
    ensures '\n' !in LeadingWhitespace(wsLine)
  {
    var ws := LeadingWhitespace(wsLine);
    assert ws + LStrip(wsLine) == wsLine;
    forall i | 0 <= i < |ws|
      ensures ws[i] != '\n'
    {
      assert ws[i] == wsLine[i];
    }
  }

  /** The lines of the re-indented text hold no newline. */
  lemma PartsWithoutNewline(text: string, ws: string)
    requires '\n' !in ws
    ensures forall k :: 0 <= k < |Split(text, '\n')| ==> '\n' !in IndentedParts(Split(text, '\n'), ws)[k]
  {
    var lines := Split(text, '\n');
    var parts := IndentedParts(lines, ws);
    SplitPartsAvoidSeparator(text, '\n');
    forall k | 0 <= k < |parts|
      ensures '\n' !in parts[k]
    {
      if k > 0 {
        assert parts[k] == ws + lines[k];
        assert '\n' !in lines[k];
      } else {
        assert '\n' !in lines[0];
      }
    }
  }

  /** Without leading whitespace on the cursor's line the text is inserted as it is. */
  lemma IndentedWithoutWhitespace(text: string, wsLine: string)
    requires LeadingWhitespace(wsLine) == []
    ensures Indented(text, wsLine) == text
  {
    assert "\n" + LeadingWhitespace(wsLine) == "\n";
    JoinSplit(text, '\n');
  }

  // ---------------------------------------------------------------- comment / uncomment

  /** What `comment_uncomment` works on: the cursor's line, or a selection given by its start
      line, end line and the end's column within its line. */
  datatype Target = Cursor(line: nat) | Range(startLine: nat, endLine: nat, endLineIndex: nat)

  /** The line numbers `comment_uncomment` edits, in increasing order. */
  function TargetLines(t: Target): (r: seq<nat>)
    ensures forall a, b :: 0 <= a < b < |r| ==> r[a] < r[b]
  {
    match t
    case Cursor(l) => [l]
    case Range(a, b, j) =>
      var end := if j > 0 then b + 1 else b;
      if end <= a then [] else seq(end - a, k => a + k)
  }

  /** The selection's end line belongs to the target only when the selection does not end at
      its first column. */
  lemma TargetLinesSpec(t: Target)
    ensures t.Cursor? ==> TargetLines(t) == [t.line]
    ensures t.Range? ==> forall l :: l in TargetLines(t) <==>
      t.startLine <= l && (l < t.endLine || (l == t.endLine && t.endLineIndex > 0))
  {
    if t.Range? {
      var r := TargetLines(t);
      forall l | t.startLine <= l && (l < t.endLine || (l == t.endLine && t.endLineIndex > 0))
        ensures l in r
      {
        assert r[l - t.startLine] == l;
      }
    }
  }

  predicate InRange(lines: seq<string>, targets: seq<nat>)
  {
    forall m :: 0 <= m < |targets| ==> targets[m] < |lines|
  }

  predicate Distinct(targets: seq<nat>)
  {
    forall a, b :: 0 <= a < b < |targets| ==> targets[a] != targets[b]
  }

  /** `line.lstrip().startswith('%')`. */
  predicate Commented(line: string)
  {
    var s := LStrip(line);
    s != [] && s[0] == '%'
  }

  /** The toggle comments when some target line is not commented. */
  predicate DoComment(lines: seq<string>, targets: seq<nat>)
    requires InRange(lines, targets)
  {
    exists m :: 0 <= m < |targets| && !Commented(lines[targets[m]])
  }

  /** The line without its first non-whitespace character. */
  function Uncomment(line: string): string
  {
    var o := |line| - |LStrip(line)|;
    if o < |line| then line[..o] + line[o + 1..] else line
  }

  /** The lines after editing every target line: `%` at column 0 when commenting, the first
      non-whitespace character removed when uncommenting. */
  function Edited(lines: seq<string>, targets: seq<nat>, comment: bool): (r: seq<string>)
    ensures |r| == |lines|
  {
    seq(|lines|, i requires 0 <= i < |lines| =>
      if i in targets then (if comment then "%" + lines[i] else Uncomment(lines[i])) else lines[i])
  }

  /** The lines after `comment_uncomment`. */
  function Toggled(lines: seq<string>, targets: seq<nat>): seq<string>
    requires InRange(lines, targets)
  {
    Edited(lines, targets, DoComment(lines, targets))
  }

  /** Lines outside the target are kept; target lines get a `%` in front when one of them is
      not commented, and otherwise lose the `%` that starts their text. */
  lemma ToggledSpec(lines: seq<string>, targets: seq<nat>, i: nat)
    requires InRange(lines, targets) && i < |lines|
    ensures |Toggled(lines, targets)| == |lines|
    ensures i !in targets ==> Toggled(lines, targets)[i] == lines[i]
    ensures i in targets && DoComment(lines, targets) ==> Toggled(lines, targets)[i] == "%" + lines[i]
    ensures i in targets && !DoComment(lines, targets) ==>
      var o := |LeadingWhitespace(lines[i])|;
      && o < |lines[i]| && lines[i][o] == '%'
      && Toggled(lines, targets)[i] == lines[i][..o] + lines[i][o + 1..]
  {
    if i in targets && !DoComment(lines, targets) {
      var m :| 0 <= m < |targets| && targets[m] == i;
      assert Commented(lines[targets[m]]);
      var line := lines[i];
      var o := |line| - |LStrip(line)|;
      assert LStrip(line) == line[o..];
      assert line[o] == LStrip(line)[0];
    }
  }

  /** A line with `%` put in front counts as commented, and uncommenting it gives the line back. */
  lemma CommentThenUncomment(line: string)
    ensures Commented("%" + line) && Uncomment("%" + line) == line
  {
    var c := "%" + line;
    assert LStrip(c) == c;
    assert c[1..] == line;
  }

  /** A toggle that comments is undone by the next toggle. */
  lemma ToggleTwiceRestores(lines: seq<string>, targets: seq<nat>)
    requires InRange(lines, targets) && DoComment(lines, targets)
    ensures Toggled(Toggled(lines, targets), targets) == lines
  {
    var once := Toggled(lines, targets);
    forall m | 0 <= m < |targets|
      ensures Commented(once[targets[m]])
    {
      CommentThenUncomment(lines[targets[m]]);
    }
    assert !DoComment(once, targets);
    var twice := Edited(once, targets, false);
    forall i | 0 <= i < |lines|
      ensures twice[i] == lines[i]
    {
      if i in targets {
        CommentThenUncomment(lines[i]);
      }
    }
  }

  /** The buffer, as the sequence of its lines without line terminators. */
  class SourceBuffer {
    var lines: seq<string>

    constructor (lines: seq<string>)
      ensures this.lines == lines
    {
      this.lines := lines;
    }

    /** `comment_uncomment`: decide from all target lines, then edit each of them. */
    method CommentUncomment(target: Target)
      requires InRange(lines, TargetLines(target))
      modifies this
      ensures lines == Toggled(old(lines), TargetLines(target))
    {
      var lineNumbers := TargetLines(target);
      var doComment := false;
      for i := 0 to |lineNumbers|
        invariant doComment <==> exists m :: 0 <= m < i && !Commented(lines[lineNumbers[m]])
      {
        if !Commented(lines[lineNumbers[i]]) {
          doComment := true;
        }
      }
      if doComment {
        CommentLines(lineNumbers);
      } else {
        UncommentLines(lineNumbers);
      }
    }

    /** Inserts `%` at the start of every given line. */
    method CommentLines(lineNumbers: seq<nat>)
      requires InRange(lines, lineNumbers) && Distinct(lineNumbers)
      modifies this
      ensures lines == Edited(old(lines), lineNumbers, true)
    {
      for k := 0 to |lineNumbers|
        invariant |lines| == |old(lines)|
        invariant forall i :: 0 <= i < |lines| ==>
          lines[i] == if i in lineNumbers[..k] then "%" + old(lines)[i] else old(lines)[i]
      {
        PrefixStep(lineNumbers, k);
        var n := lineNumbers[k];
        lines := lines[n := "%" + lines[n]];
      }
      assert lineNumbers[..|lineNumbers|] == lineNumbers;
    }

    /** Deletes the first non-whitespace character of every given line; each of them is
        commented, so that character is its `%`. */
    method UncommentLines(lineNumbers: seq<nat>)
      requires InRange(lines, lineNumbers) && Distinct(lineNumbers)
      requires forall m :: 0 <= m < |lineNumbers| ==> Commented(lines[lineNumbers[m]])
      modifies this
      ensures lines == Edited(old(lines), lineNumbers, false)
    {
      for k := 0 to |lineNumbers|
        invariant |lines| == |old(lines)|
        invariant forall i :: 0 <= i < |lines| ==>
          lines[i] == if i in lineNumbers[..k] then Uncomment(old(lines)[i]) else old(lines)[i]
      {
        PrefixStep(lineNumbers, k);
        var n := lineNumbers[k];
        var line := lines[n];
        assert line == old(lines)[n] && Commented(line);
        var offset := |line| - |LStrip(line)|;
        lines := lines[n := line[..offset] + line[offset + 1..]];
      }
      assert lineNumbers[..|lineNumbers|] == lineNumbers;
    }
  }

  // ---------------------------------------------------------------- packages

  function UsePackage(name: string): string
  {
    "\\usepackage{" + name + "}"
  }

  function UsePackages(names: seq<string>): (r: seq<string>)
    ensures |r| == |names| && forall k :: 0 <= k < |names| ==> r[k] == UsePackage(names[k])
  {
    seq(|names|, k requires 0 <= k < |names| => UsePackage(names[k]))
  }

  /** The text `add_packages` builds: one `\usepackage{…}` per name, separated by newlines. */
  function PackageText(names: seq<string>): string
  {
    Join(UsePackages(names), "\n")
  }

  /** The loop of `add_packages`, which puts a newline before every package but the first. */
  method BuildPackageText(packages: seq<string>) returns (text: string)
    ensures text == PackageText(packages)
  {
    var firstPackage := true;
    text := "";
    for i := 0 to |packages|
      invariant firstPackage <==> i == 0
      invariant text == Join(UsePackages(packages[..i]), "\n")
    {
      assert UsePackages(packages[..i + 1]) == UsePackages(packages[..i]) + [UsePackage(packages[i])];
      JoinSnoc(UsePackages(packages[..i]), UsePackage(packages[i]), "\n");
      if !firstPackage {
        text := text + "\n";
      }
      text := text + "\\usepackage{" + packages[i] + "}";
      firstPackage := false;
    }
    assert packages[..|packages|] == packages;
  }

  /** No packages give the empty text; otherwise the lines of the text are the
      `\usepackage{…}` lines in the order of the names, and the text ends with the last `}`. */
  lemma PackageTextLines(names: seq<string>)
    requires forall k :: 0 <= k < |names| ==> '\n' !in names[k]
    ensures names == [] ==> PackageText(names) == ""
    ensures names != [] ==> Split(PackageText(names), '\n') == UsePackages(names)
  {
    var lines := UsePackages(names);
    if names != [] {
      forall k | 0 <= k < |lines|
        ensures '\n' !in lines[k]
      {
        assert lines[k] == "\\usepackage{" + names[k] + "}";
      }
      SplitJoin(lines, '\n');
    }
  }

  /** The text has no trailing newline: it ends with the `}` of the last package. */
  lemma PackageTextEnd(names: seq<string>)
    requires names != []
    ensures PackageText(names) != [] && PackageText(names)[|PackageText(names)| - 1] == '}'
  {
    var lines := UsePackages(names);
    var n := |lines| - 1;
    assert lines == lines[..n] + [lines[n]];
    JoinSnoc(lines[..n], lines[n], "\n");
    var u := UsePackage(names[n]);
    assert u[|u| - 1] == '}';
  }

  /** A `\usepackage` statement found in the document: its offset and the length of its match. */
  datatype PackageMatch = PackageMatch(offset: nat, length: nat)

  function End(p: PackageMatch): nat
  {
    p.offset + p.length
  }

  /** The `max_end` scan: a package moves the maximum to its end only when it starts strictly
      after the current maximum. */
  function MaxEnd(ps: seq<PackageMatch>): nat
  {
    if ps == [] then 0
    else
      var m := MaxEnd(ps[..|ps| - 1]);
      var p := ps[|ps| - 1];
      if p.offset > m then End(p) else m
  }

  method MaxPackageEnd(packageData: seq<PackageMatch>) returns (maxEnd: nat)
    ensures maxEnd == MaxEnd(packageData)
  {
    maxEnd := 0;
    for i := 0 to |packageData|
      invariant maxEnd == MaxEnd(packageData[..i])
    {
      assert packageData[..i + 1][..i] == packageData[..i];
      var p := packageData[i];
      if p.offset > maxEnd {
        maxEnd := p.offset + p.length;
      }
    }
    assert packageData[..|packageData|] == packageData;
  }

  /** The maximum is 0 or the end of a package, and no package starts after it. */
  lemma {:induction false} MaxEndBounds(ps: seq<PackageMatch>)
    ensures MaxEnd(ps) == 0 || exists i :: 0 <= i < |ps| && MaxEnd(ps) == End(ps[i])
    ensures forall i :: 0 <= i < |ps| ==> ps[i].offset <= MaxEnd(ps)
    decreases |ps|
  {
    if ps != [] {
      var init := ps[..|ps| - 1];
      MaxEndBounds(init);
      forall i | 0 <= i < |ps| - 1
        ensures ps[i].offset <= MaxEnd(ps)
      {
        assert ps[i] == init[i];
      }
      if MaxEnd(ps) != 0 && MaxEnd(ps) == MaxEnd(init) {
        var i :| 0 <= i < |init| && MaxEnd(init) == End(init[i]);
        assert ps[i] == init[i];
      }
    }
  }

  /** Packages in document order with gaps between them: the maximum is the end of the last. */
  lemma {:induction false} MaxEndOrdered(ps: seq<PackageMatch>)
    requires ps != [] && ps[0].offset > 0
    requires forall i :: 0 <= i < |ps| - 1 ==> End(ps[i]) < ps[i + 1].offset
    ensures MaxEnd(ps) == End(ps[|ps| - 1])
    decreases |ps|
  {
    if |ps| > 1 {
      var init := ps[..|ps| - 1];
      forall i | 0 <= i < |init| - 1
        ensures End(init[i]) < init[i + 1].offset
      {
        assert init[i] == ps[i] && init[i + 1] == ps[i + 1];
      }
      MaxEndOrdered(init);
      assert End(ps[|ps| - 2]) < ps[|ps| - 1].offset;
    }
  }

  /** Where `insert_text_after_packages_if_possible` puts the text: after the line of the last
      package, else after the `\documentclass` line, else at the cursor (`None`); a newline
      goes in front whenever there is an anchor. `lineEnd` maps an offset to the end of its
      line and `documentclassLineEnd` is the end of the line of the last `\documentclass`. */
  method AddPackages(packages: seq<string>, packageData: seq<PackageMatch>,
                     documentclassLineEnd: Option<nat>, lineEnd: nat -> nat)
    returns (anchor: Option<nat>, text: string)
    ensures packageData != [] ==> anchor == Some(lineEnd(MaxEnd(packageData)))
    ensures packageData == [] ==> anchor == documentclassLineEnd
    ensures text == (if anchor.Some? then "\n" else "") + PackageText(packages)
  {
    var body := BuildPackageText(packages);
    if packageData != [] {
      var maxEnd := MaxPackageEnd(packageData);
      anchor, text := Some(lineEnd(maxEnd)), "\n" + body;
    } else if documentclassLineEnd.Some? {
      anchor, text := documentclassLineEnd, "\n" + body;
    } else {
      anchor, text := None, body;
    }
  }

  // ---------------------------------------------------------------- synctex

  /** `word.split(' ')[:2]` joined again; `None` for the empty word. */
  function TruncateWord(word: string): Option<string>
  {
    if word == [] then None
    else
      var parts := Split(word, ' ');
      Some(Join(if |parts| > 2 then parts[..2] else parts, " "))
  }

  /** The truncated word is `None` only for the empty word; its tokens are the first two tokens
      of the word, it is a prefix of the word, and a word of at most two tokens is kept. */
  lemma TruncateWordSpec(word: string)
    ensures TruncateWord(word).None? <==> word == []
    ensures word != [] ==>
      var parts := Split(word, ' ');
      && Split(TruncateWord(word).value, ' ') == (if |parts| > 2 then parts[..2] else parts)
      && TruncateWord(word).value <= word
      && (|parts| <= 2 ==> TruncateWord(word).value == word)
  {
    if word != [] {
      var parts := Split(word, ' ');
      var kept := if |parts| > 2 then parts[..2] else parts;
      SplitPartsAvoidSeparator(word, ' ');
      JoinSplit(word, ' ');
      forall k | 0 <= k < |kept|
        ensures ' ' !in kept[k]
      {
        assert kept[k] == parts[k];
      }
      SplitJoin(kept, ' ');
      if |parts| > 2 {
        assert Join(kept, " ") == parts[0] + " " + parts[1] by {
          assert kept[1..] == [parts[1]];
        }
        assert parts[1..][1..] == parts[2..];
        assert word == parts[0] + " " + (parts[1] + " " + Join(parts[2..], " "));
      }
    }
  }

  /** `w` occurs in `s` at index `k`. */
  predicate OccursAt(s: string, w: string, k: nat)
  {
    k + |w| <= |s| && s[k..k + |w|] == w
  }

  /** `s.find(w)` starting at `i`: the first index of `w`, or -1. */
  function FindFrom(s: string, w: string, i: nat): (r: int)
    ensures r >= -1
    decreases |s| - i
  {
    if i + |w| > |s| then -1 else if s[i..i + |w|] == w then i else FindFrom(s, w, i + 1)
  }

  function Find(s: string, w: string): int
  {
    FindFrom(s, w, 0)
  }

  /** The index found is the first occurrence at or after `i`; -1 means there is none. */
  lemma {:induction false} FindFromSpec(s: string, w: string, i: nat)
    ensures FindFrom(s, w, i) == -1 || (i <= FindFrom(s, w, i) && OccursAt(s, w, FindFrom(s, w, i)))
    ensures FindFrom(s, w, i) == -1 ==> forall k: nat :: i <= k ==> !OccursAt(s, w, k)
    ensures FindFrom(s, w, i) != -1 ==> forall k: nat :: i <= k < FindFrom(s, w, i) ==> !OccursAt(s, w, k)
    decreases |s| - i
  {
    if i + |w| <= |s| && s[i..i + |w|] != w {
      FindFromSpec(s, w, i + 1);
    }
  }

  /** A match of the search pattern: its start and end offsets and the one-character
      boundary groups before and after the word. */
  datatype RegexMatch = RegexMatch(start: nat, end: nat, group1: string, group2: string)

  /** The slice of the text compared with the context: the match widened by the context's
      characters before and after the word, clamped to the text. */
  function ContextWindow(textLength: nat, m: RegexMatch, context: string, word: string): (r: (nat, nat))
  {
    var offset1 := Find(context, word);
    var offset2 := |context| - offset1 - |word|;
    (Max(m.start - Max(offset1, 0), 0), Min(m.end + Max(offset2, 0), textLength))
  }

  /** The window covers the match; when the word occurs in the context and the text has room,
      it is exactly as long as the context with the match in place of the word. */
  lemma ContextWindowSpec(textLength: nat, m: RegexMatch, context: string, word: string)
    requires m.start <= m.end <= textLength
    ensures var (lo, hi) := ContextWindow(textLength, m, context, word);
      lo <= m.start && m.end <= hi <= textLength
    ensures var (lo, hi) := ContextWindow(textLength, m, context, word);
      var offset1 := Find(context, word);
      offset1 >= 0 && offset1 <= m.start && m.end + |context| - offset1 - |word| <= textLength ==>
        hi - lo == |context| - |word| + (m.end - m.start)
  {
    FindFromSpec(context, word, 0);
  }

  /** `text[lo:hi]`. */
  function Slice(text: string, lo: nat, hi: nat): string
  {
    Drop(Take(text, hi), lo)
  }

  /** What the selection loop uses of one match: whether a boundary group is non-empty, the
      similarity score of its window, and the match trimmed by its boundary groups. */
  datatype Candidate = Candidate(qualifies: bool, score: real, bounds: (int, int))

  /** `bool(match.group(1)) or bool(match.group(2))`. */
  predicate HasBoundary(m: RegexMatch)
  {
    m.group1 != [] || m.group2 != []
  }

  /** The match without its boundary groups. */
  function Trimmed(m: RegexMatch): (int, int)
  {
    (m.start + |m.group1|, m.end - |m.group2|)
  }

  /** `match_text`: the text in the window of the match. */
  function WindowText(text: string, context: string, word: string, m: RegexMatch): string
  {
    var (lo, hi) := ContextWindow(|text|, m, context, word);
    Slice(text, lo, hi)
  }

  /** The similarity of the match's window with the context. */
  function Score(text: string, context: string, word: string, ratio: (string, string) -> real,
                 m: RegexMatch): real
  {
    ratio(WindowText(text, context, word, m), context)
  }

  function CandidateOf(text: string, context: string, word: string, ratio: (string, string) -> real,
                       m: RegexMatch): Candidate
  {
    Candidate(HasBoundary(m), Score(text, context, word, ratio, m), Trimmed(m))
  }

  function CandidatesOf(text: string, context: string, word: string, ratio: (string, string) -> real,
                        ms: seq<RegexMatch>): (r: seq<Candidate>)
    ensures |r| == |ms| && forall k :: 0 <= k < |ms| ==> r[k] == CandidateOf(text, context, word, ratio, ms[k])
  {
    seq(|ms|, k requires 0 <= k < |ms| => CandidateOf(text, context, word, ratio, ms[k]))
  }

  /** The running state of the loop: `top_score` and the kept ranges. */
  datatype Pick = Pick(threshold: real, kept: seq<(int, int)>)

  /** One iteration: a qualifying score more than 0.1 above the threshold replaces the kept
      ranges and becomes the threshold; a score more than 0.1 below it is dropped; any other
      qualifying score is kept beside the others. */
  function Step(p: Pick, c: Candidate): Pick
  {
    if !c.qualifies then p
    else if c.score > p.threshold + 0.1 then Pick(c.score, [c.bounds])
    else if c.score > p.threshold - 0.1 then Pick(p.threshold, p.kept + [c.bounds])
    else p
  }

  function Fold(cs: seq<Candidate>): Pick
  {
    if cs == [] then Pick(0.1, []) else Step(Fold(cs[..|cs| - 1]), cs[|cs| - 1])
  }

  lemma FoldSnoc(cs: seq<Candidate>, i: nat)
    requires i < |cs|
    ensures Fold(cs[..i + 1]) == Step(Fold(cs[..i]), cs[i])
  {
    assert cs[..i + 1][..i] == cs[..i];
  }

  /** The threshold starts at 0.1 and only rises, no qualifying score exceeds the final
      threshold by more than 0.1, and something is kept exactly when some qualifying
      candidate scores above 0. */
  lemma {:induction false} FoldThreshold(cs: seq<Candidate>)
    ensures Fold(cs).threshold >= 0.1
    ensures Fold(cs).kept == [] ==> Fold(cs).threshold == 0.1
    ensures forall k :: 0 <= k < |cs| && cs[k].qualifies ==> cs[k].score <= Fold(cs).threshold + 0.1
    ensures Fold(cs).kept != [] <==> exists k :: 0 <= k < |cs| && cs[k].qualifies && cs[k].score > 0.0
    decreases |cs|
  {
    if cs != [] {
      var init := cs[..|cs| - 1];
      FoldThreshold(init);
      forall k | 0 <= k < |init|
        ensures cs[k] == init[k]
      {
      }
      if Fold(init).kept == [] && Fold(cs).kept != [] {
        assert cs[|cs| - 1].qualifies && cs[|cs| - 1].score > 0.0;
      }
      if Fold(cs).kept == [] {
        assert Fold(init).kept == [];
      }
    }
  }

  /** Range `b` is the trimmed range of a qualifying candidate whose score lies within 0.1 of
      `threshold`. */
  predicate Justified(cs: seq<Candidate>, threshold: real, b: (int, int))
  {
    exists k :: 0 <= k < |cs| && cs[k].qualifies && cs[k].bounds == b &&
      threshold - 0.1 < cs[k].score <= threshold + 0.1
  }

  /** Every kept range is the trimmed range of a qualifying candidate whose score lies within
      0.1 of the final threshold. */
  lemma {:induction false} FoldKept(cs: seq<Candidate>)
    ensures forall j :: 0 <= j < |Fold(cs).kept| ==> Justified(cs, Fold(cs).threshold, Fold(cs).kept[j])
    decreases |cs|
  {
    if cs != [] {
      var init, n := cs[..|cs| - 1], |cs| - 1;
      FoldKept(init);
      var p, q := Fold(init), Fold(cs);
      assert q == Step(p, cs[n]);
      forall j | 0 <= j < |q.kept|
        ensures Justified(cs, q.threshold, q.kept[j])
      {
        if cs[n].qualifies && cs[n].score > p.threshold + 0.1 {
          assert j == 0 && q.kept[j] == cs[n].bounds && q.threshold == cs[n].score;
          assert cs[n].qualifies && q.threshold - 0.1 < cs[n].score <= q.threshold + 0.1;
        } else if j < |p.kept| {
          assert q.threshold == p.threshold && q.kept[j] == p.kept[j];
          assert Justified(init, p.threshold, p.kept[j]);
          var k :| 0 <= k < |init| && init[k].qualifies && init[k].bounds == p.kept[j] &&
            p.threshold - 0.1 < init[k].score <= p.threshold + 0.1;
          assert cs[k] == init[k];
        } else {
          assert q.threshold == p.threshold && q.kept[j] == cs[n].bounds;
          assert cs[n].qualifies && q.threshold - 0.1 < cs[n].score <= q.threshold + 0.1;
        }
      }
    }
  }

  /** The result of `get_synctex_word_bounds` for a text, the word at the synctex position and
      its context; `finder` stands for the matches of the search pattern built from the
      truncated word, and `ratio` for the similarity of two strings. */
  function WordBounds(text: string, word: string, context: string,
                      finder: string -> seq<RegexMatch>, ratio: (string, string) -> real): Option<seq<(int, int)>>
  {
    match TruncateWord(word)
    case None => None
    case Some(w) =>
      var p := Fold(CandidatesOf(text, context, w, ratio, finder(w)));
      if p.kept == [] then None else Some(p.kept)
  }

  method SynctexWordBounds(text: string, word: string, context: string,
                           finder: string -> seq<RegexMatch>, ratio: (string, string) -> real)
    returns (r: Option<seq<(int, int)>>)
    ensures r == WordBounds(text, word, context, finder, ratio)
  {
    var truncated := TruncateWord(word);
    if truncated.None? {
      return None;
    }
    var w := truncated.value;
    var topScore, matches := SelectMatches(text, w, context, finder(w), ratio);
    if |matches| > 0 {
      return Some(matches);
    } else {
      return None;
    }
  }

  /** The loop over the matches of `get_synctex_word_bounds`, for the truncated word `w`. */
  method SelectMatches(text: string, w: string, context: string, ms: seq<RegexMatch>,
                       ratio: (string, string) -> real)
    returns (topScore: real, matches: seq<(int, int)>)
    ensures Pick(topScore, matches) == Fold(CandidatesOf(text, context, w, ratio, ms))
  {
    ghost var cs := CandidatesOf(text, context, w, ratio, ms);
    matches := [];
    topScore := 0.1;
    for i := 0 to |ms|
      invariant topScore == Fold(cs[..i]).threshold
      invariant matches == Fold(cs[..i]).kept
    {
      var m := ms[i];
      var matchText := WindowText(text, context, w, m);
      var score := ratio(matchText, context);
      assert cs[i] == Candidate(HasBoundary(m), score, Trimmed(m));
      FoldSnoc(cs, i);
      if m.group1 != [] || m.group2 != [] {
        if score > topScore + 0.1 {
          topScore := score;
          matches := [(m.start + |m.group1|, m.end - |m.group2|)];
        } else if score > topScore - 0.1 {
          matches := matches + [(m.start + |m.group1|, m.end - |m.group2|)];
        }
      }
    }
    assert cs[..|ms|] == cs;
  }

  /** `b` is the trimmed range of a match with a non-empty boundary group. */
  predicate TrimmedMatch(ms: seq<RegexMatch>, b: (int, int))
  {
    exists k :: 0 <= k < |ms| && HasBoundary(ms[k]) && b == Trimmed(ms[k])
  }

  /** The bounds are `None` exactly for an empty word or when no match with a non-empty boundary
      group scores above 0. */
  lemma WordBoundsNone(text: string, word: string, context: string,
                       finder: string -> seq<RegexMatch>, ratio: (string, string) -> real)
    ensures WordBounds(text, word, context, finder, ratio).None? <==>
      word == [] ||
      var w := TruncateWord(word).value;
      forall k :: 0 <= k < |finder(w)| && HasBoundary(finder(w)[k]) ==> Score(text, context, w, ratio, finder(w)[k]) <= 0.0
  {
    if word != [] {
      var w := TruncateWord(word).value;
      var cs := CandidatesOf(text, context, w, ratio, finder(w));
      FoldThreshold(cs);
    }
  }

  /** Every range of the bounds is the trimmed range of a match with a non-empty boundary group. */
  lemma WordBoundsTrimmed(text: string, word: string, context: string,
                          finder: string -> seq<RegexMatch>, ratio: (string, string) -> real)
    requires WordBounds(text, word, context, finder, ratio).Some?
    ensures var r := WordBounds(text, word, context, finder, ratio).value;
      forall j :: 0 <= j < |r| ==> TrimmedMatch(finder(TruncateWord(word).value), r[j])
  {
    var w := TruncateWord(word).value;
    var ms := finder(w);
    var cs := CandidatesOf(text, context, w, ratio, ms);
    var r := Fold(cs).kept;
    assert WordBounds(text, word, context, finder, ratio) == Some(r);
    FoldKept(cs);
    forall j | 0 <= j < |r|
      ensures TrimmedMatch(ms, r[j])
    {
      assert Justified(cs, Fold(cs).threshold, r[j]);
      var k :| 0 <= k < |cs| && cs[k].qualifies && cs[k].bounds == r[j] &&
        Fold(cs).threshold - 0.1 < cs[k].score <= Fold(cs).threshold + 0.1;
      assert cs[k] == CandidateOf(text, context, w, ratio, ms[k]);
    }
  }
}
