/**
 * The autocomplete controller: it decides on every buffer change whether a completion
 * mode starts (the begin/end mode inside `\begin{…}`/`\end{…}`, or the default mode when
 * the provider offers completions for the command at the cursor), switches modes,
 * dispatches keys while the popup is visible and fills the popup's list.
 *
 * The modes, the provider and the view are collaborators: what they answer is an input,
 * and what is asked of them is recorded, in order, in `effects`.
 */
module Autocomplete {
  import opened Wrappers
  import opened Strings

  // ---------------------------------------------------------------- the begin/end pattern

  /** The marker put into the line at the cursor before matching. */
  const Marker: string := "%•%"

  /** `line[:offset] + '%•%' + line[offset:]`. */
  function MarkedLine(line: string, col: nat): string
  {
    Take(line, col) + Marker + Drop(line, col)
  }

  /** The characters `[^\{\[\(]` excludes. */
  predicate IsOpening(c: char)
  {
    c == '{' || c == '[' || c == '('
  }

  /** No opening bracket in `s[lo..hi]`. */
  predicate OpenFree(s: string, lo: nat, hi: nat)
  {
    hi <= |s| && forall i :: lo <= i < hi ==> !IsOpening(s[i])
  }

  /** `\begin{` starts at `a`. */
  predicate BeginAt(s: string, a: nat)
  {
    a + 7 <= |s| && s[a] == '\\' && s[a + 1] == 'b' && s[a + 2] == 'e' && s[a + 3] == 'g' &&
    s[a + 4] == 'i' && s[a + 5] == 'n' && s[a + 6] == '{'
  }

  /** `\end{` starts at `a`. */
  predicate EndAt(s: string, a: nat)
  {
    a + 5 <= |s| && s[a] == '\\' && s[a + 1] == 'e' && s[a + 2] == 'n' && s[a + 3] == 'd' && s[a + 4] == '{'
  }

  /** No newline before `a`: the leading `.*` cannot cross one, since `.` does not match it. */
  predicate NoNewlineBefore(s: string, a: nat)
  {
    a <= |s| && forall i :: 0 <= i < a ==> s[i] != '\n'
  }

  /** The marker starts at `p`. */
  predicate MarkerAt(s: string, p: nat)
  {
    p + 3 <= |s| && s[p] == '%' && s[p + 1] == '•' && s[p + 2] == '%'
  }

  /** The offset just after `\begin{` or `\end{` starting at `a`. */
  function KeywordEnd(s: string, a: nat): (r: Option<nat>)
    ensures r.Some? ==> a < r.value <= |s| && s[r.value - 1] == '{'
  {
    if BeginAt(s, a) then Some(a + 7) else if EndAt(s, a) then Some(a + 5) else None
  }

  /** One way the pattern `.*\\(begin|end)\{([^\{\[\(]*)%•%([^\{\[\(]*)\}` matches at the start
      of a line: the backslash at `a`, group 2 from `h` with `g2` characters, and group 3 with
      `g3` characters right after the marker. The trailing `.*` matches anything. */
  datatype BeginEndMatch = BeginEndMatch(a: nat, h: nat, g2: nat, g3: nat)

  /** Group 3 can have `k` characters from `m`. */
  predicate Group3Fits(s: string, m: nat, k: nat)
  {
    m + k < |s| && OpenFree(s, m, m + k) && s[m + k] == '}'
  }

  /** Group 2 can have `k` characters from `h`, followed by the marker. */
  predicate Group2Fits(s: string, h: nat, k: nat)
  {
    OpenFree(s, h, h + k) && MarkerAt(s, h + k)
  }

  predicate Valid(s: string, mt: BeginEndMatch)
  {
    && NoNewlineBefore(s, mt.a)
    && KeywordEnd(s, mt.a) == Some(mt.h)
    && Group2Fits(s, mt.h, mt.g2)
    && Group3Fits(s, mt.h + mt.g2 + 3, mt.g3)
  }

  /** The order in which backtracking tries the ways to match: the greedy `.*` first takes as
      much as it can, then each greedy group does. */
  predicate TriedBefore(x: BeginEndMatch, y: BeginEndMatch)
  {
    x.a > y.a || (x.a == y.a && (x.g2 > y.g2 || (x.g2 == y.g2 && x.g3 >= y.g3)))
  }

  /** The longest group 3 of at most `k` characters from `m`: backtracking tries the longest
      run first and gives up one character at a time. */
  function BestGroup3(s: string, m: nat, k: nat): (r: Option<nat>)
    ensures r.Some? ==> r.value <= k
    decreases k
  {
    if Group3Fits(s, m, k) then Some(k) else if k == 0 then None else BestGroup3(s, m, k - 1)
  }

  /** Some group 3 fits from `m`. */
  predicate Group3Possible(s: string, m: nat)
  {
    exists k :: 0 <= k < |s| && Group3Fits(s, m, k)
  }

  /** Group 2 has `k` characters and the rest of the pattern can follow. */
  predicate Group2Works(s: string, h: nat, k: nat)
  {
    Group2Fits(s, h, k) && Group3Possible(s, h + k + 3)
  }

  /** Some group 2 from `h` works. */
  predicate Group2Possible(s: string, h: nat)
  {
    exists k :: 0 <= k < |s| && Group2Works(s, h, k)
  }

  /** The longest group 2 of at most `k` characters from `h` after which the pattern can go on. */
  function BestGroup2(s: string, h: nat, k: nat): (r: Option<nat>)
    ensures r.Some? ==> r.value <= k && h + r.value + 3 <= |s|
    decreases k
  {
    if Group2Works(s, h, k) then Some(k) else if k == 0 then None else BestGroup2(s, h, k - 1)
  }

  /** The backslash can be at `a` and the pattern can go on from it. */
  predicate StartWorks(s: string, a: nat)
  {
    && NoNewlineBefore(s, a)
    && KeywordEnd(s, a).Some?
    && Group2Possible(s, KeywordEnd(s, a).value)
  }

  /** The last backslash position at most `a` from which the pattern matches. */
  function BestStart(s: string, a: nat): (r: Option<nat>)
    ensures r.Some? ==> r.value <= a
    decreases a
  {
    if StartWorks(s, a) then Some(a) else if a == 0 then None else BestStart(s, a - 1)
  }

  /** `BestGroup3` finds the greatest fitting length, if there is one. */
  lemma {:induction false} BestGroup3Spec(s: string, m: nat, k: nat)
    ensures BestGroup3(s, m, k).Some? ==> Group3Fits(s, m, BestGroup3(s, m, k).value)
    ensures forall j :: 0 <= j <= k && Group3Fits(s, m, j) ==>
      BestGroup3(s, m, k).Some? && j <= BestGroup3(s, m, k).value
    decreases k
  {
    if !Group3Fits(s, m, k) && k > 0 {
      BestGroup3Spec(s, m, k - 1);
    }
  }

  /** `BestGroup2` finds the greatest length that works, if there is one. */
  lemma {:induction false} BestGroup2Spec(s: string, h: nat, k: nat)
    ensures BestGroup2(s, h, k).Some? ==> Group2Works(s, h, BestGroup2(s, h, k).value)
    ensures forall j :: 0 <= j <= k && Group2Works(s, h, j) ==>
      BestGroup2(s, h, k).Some? && j <= BestGroup2(s, h, k).value
    decreases k
  {
    if !Group2Works(s, h, k) && k > 0 {
      BestGroup2Spec(s, h, k - 1);
    }
  }

  /** `BestStart` finds the last position that works, if there is one. */
  lemma {:induction false} BestStartSpec(s: string, a: nat)
    ensures BestStart(s, a).Some? ==> StartWorks(s, BestStart(s, a).value)
    ensures forall j :: 0 <= j <= a && StartWorks(s, j) ==>
      BestStart(s, a).Some? && j <= BestStart(s, a).value
    decreases a
  {
    if !StartWorks(s, a) && a > 0 {
      BestStartSpec(s, a - 1);
    }
  }

  /** `re.match` of the begin/end pattern: the first way to match in backtracking order. */
  function MatchBeginEnd(s: string): Option<BeginEndMatch>
  {
    match BestStart(s, |s|)
    case None => None
    case Some(a) => MatchFrom(s, a)
  }

  /** The rest of the match once the backslash is placed at `a`. */
  function MatchFrom(s: string, a: nat): Option<BeginEndMatch>
  {
    match KeywordEnd(s, a)
    case None => None
    case Some(h) =>
      match BestGroup2(s, h, |s| - h)
      case None => None
      case Some(g2) => MatchGroup3(s, a, h, g2)
  }

  /** The rest of the match once group 2 is placed too. */
  function MatchGroup3(s: string, a: nat, h: nat, g2: nat): Option<BeginEndMatch>
    requires h + g2 + 3 <= |s|
  {
    match BestGroup3(s, h + g2 + 3, |s| - (h + g2 + 3))
    case None => None
    case Some(g3) => Some(BeginEndMatch(a, h, g2, g3))
  }

  /** The search for group 3 succeeds when some group 3 fits. */
  lemma Group3Found(s: string, m: nat)
    requires Group3Possible(s, m)
    ensures m <= |s| && BestGroup3(s, m, |s| - m).Some?
  {
    var k :| 0 <= k < |s| && Group3Fits(s, m, k);
    BestGroup3Spec(s, m, |s| - m);
  }

  /** The search for group 2 succeeds when some group 2 works. */
  lemma Group2Found(s: string, h: nat)
    requires Group2Possible(s, h)
    ensures h <= |s| && BestGroup2(s, h, |s| - h).Some?
  {
    var k :| 0 <= k < |s| && Group2Works(s, h, k);
    BestGroup2Spec(s, h, |s| - h);
  }

  /** Every valid way to match makes the start search, and then the group searches, succeed. */
  lemma ValidWorks(s: string, mt: BeginEndMatch)
    requires Valid(s, mt)
    ensures Group2Works(s, mt.h, mt.g2)
    ensures StartWorks(s, mt.a)
  {
    var m := mt.h + mt.g2 + 3;
    assert Group3Fits(s, m, mt.g3);
    assert Group2Works(s, mt.h, mt.g2);
  }

  /** The match found is made of the three searches' results. */
  lemma MatchParts(s: string)
    requires MatchBeginEnd(s).Some?
    ensures var r := MatchBeginEnd(s).value;
      && BestStart(s, |s|) == Some(r.a) && KeywordEnd(s, r.a) == Some(r.h)
      && r.h <= |s| && BestGroup2(s, r.h, |s| - r.h) == Some(r.g2)
      && r.h + r.g2 + 3 <= |s| && BestGroup3(s, r.h + r.g2 + 3, |s| - (r.h + r.g2 + 3)) == Some(r.g3)
  {
    var a := BestStart(s, |s|).value;
    assert MatchFrom(s, a).Some?;
  }

  /** The match found is a valid split. */
  lemma MatchIsValid(s: string)
    requires MatchBeginEnd(s).Some?
    ensures Valid(s, MatchBeginEnd(s).value)
  {
    MatchParts(s);
    var r := MatchBeginEnd(s).value;
    BestStartSpec(s, |s|);
    BestGroup2Spec(s, r.h, |s| - r.h);
    BestGroup3Spec(s, r.h + r.g2 + 3, |s| - (r.h + r.g2 + 3));
  }

  /** `MatchBeginEnd` assembles the results of the three searches. */
  lemma MatchBeginEndOf(s: string, a: nat, h: nat, g2: nat, g3: nat)
    requires BestStart(s, |s|) == Some(a) && KeywordEnd(s, a) == Some(h)
    requires h <= |s| && BestGroup2(s, h, |s| - h) == Some(g2)
    requires h + g2 + 3 <= |s| && BestGroup3(s, h + g2 + 3, |s| - (h + g2 + 3)) == Some(g3)
    ensures MatchBeginEnd(s) == Some(BeginEndMatch(a, h, g2, g3))
  {
    assert MatchGroup3(s, a, h, g2) == Some(BeginEndMatch(a, h, g2, g3));
    assert MatchFrom(s, a) == Some(BeginEndMatch(a, h, g2, g3));
  }

  /** The pattern matches when some valid split exists. */
  lemma MatchExists(s: string, mt: BeginEndMatch)
    requires Valid(s, mt)
    ensures MatchBeginEnd(s).Some?
  {
    ValidWorks(s, mt);
    BestStartSpec(s, |s|);
    var a := BestStart(s, |s|).value;
    var h := KeywordEnd(s, a).value;
    Group2Found(s, h);
    BestGroup2Spec(s, h, |s| - h);
    var g2 := BestGroup2(s, h, |s| - h).value;
    Group3Found(s, h + g2 + 3);
    var g3 := BestGroup3(s, h + g2 + 3, |s| - (h + g2 + 3)).value;
    MatchBeginEndOf(s, a, h, g2, g3);
  }

  /** Every valid split makes the pattern match, and the match found is tried before it. */
  lemma MatchIsFirst(s: string, mt: BeginEndMatch)
    requires Valid(s, mt)
    ensures MatchBeginEnd(s).Some? && TriedBefore(MatchBeginEnd(s).value, mt)
  {
    MatchExists(s, mt);
    MatchParts(s);
    ValidWorks(s, mt);
    var r := MatchBeginEnd(s).value;
    BestStartSpec(s, |s|);
    if r.a == mt.a {
      BestGroup2Spec(s, r.h, |s| - r.h);
      if r.g2 == mt.g2 {
        BestGroup3Spec(s, r.h + r.g2 + 3, |s| - (r.h + r.g2 + 3));
      }
    }
  }

  /** The pattern matches exactly when the line can be split as it describes, and then the
      match found is a valid split that backtracking tries before every other one. */
  lemma MatchBeginEndSpec(s: string)
    ensures MatchBeginEnd(s).Some? ==> Valid(s, MatchBeginEnd(s).value)
    ensures MatchBeginEnd(s).Some? ==> forall mt :: Valid(s, mt) ==> TriedBefore(MatchBeginEnd(s).value, mt)
    ensures MatchBeginEnd(s).None? ==> forall mt :: !Valid(s, mt)
  {
    if MatchBeginEnd(s).Some? {
      MatchIsValid(s);
    }
    forall mt | Valid(s, mt)
      ensures MatchBeginEnd(s).Some? && TriedBefore(MatchBeginEnd(s).value, mt)
    {
      MatchIsFirst(s, mt);
    }
  }

  /** The marked line is the line with the marker's three characters inserted at `col`. */
  lemma MarkedLineShape(line: string, col: nat)
    requires col <= |line|
    ensures |MarkedLine(line, col)| == |line| + 3
    ensures forall i :: 0 <= i < col ==> MarkedLine(line, col)[i] == line[i]
    ensures forall i :: col + 3 <= i < |line| + 3 ==> MarkedLine(line, col)[i] == line[i - 3]
    ensures MarkerAt(MarkedLine(line, col), col)
  {
    assert MarkedLine(line, col) == line[..col] + Marker + line[col..];
  }

  /** The split of the line the begin/end mode relies on: `\begin{` or `\end{` at `a` ending at
      `h`, group 2 from `h` up to the cursor at `col`, then group 3 up to a `}`, with no opening
      bracket in either group. */
  predicate AtCursor(line: string, col: nat, mt: BeginEndMatch)
  {
    && KeywordEnd(line, mt.a) == Some(mt.h) && mt.h + mt.g2 == col
    && col + mt.g3 < |line| && line[col + mt.g3] == '}'
    && OpenFree(line, mt.h, col + mt.g3)
  }

  /** A valid split of the marked line, when the line holds no `•`, uses the marker put at
      the cursor. */
  lemma ValidAtCursor(line: string, col: nat, mt: BeginEndMatch)
    requires '•' !in line && col <= |line|
    requires Valid(MarkedLine(line, col), mt)
    ensures AtCursor(line, col, mt)
  {
    MarkedLineShape(line, col);
    ShapedValidAtCursor(line, col, MarkedLine(line, col), mt);
  }

  /** `ValidAtCursor` for any string of the marked line's shape. */
  lemma ShapedValidAtCursor(line: string, col: nat, s: string, mt: BeginEndMatch)
    requires '•' !in line && col <= |line|
    requires |s| == |line| + 3 && MarkerAt(s, col)
    requires forall i :: 0 <= i < col ==> s[i] == line[i]
    requires forall i :: col + 3 <= i < |line| + 3 ==> s[i] == line[i - 3]
    requires Valid(s, mt)
    ensures AtCursor(line, col, mt)
  {
    var p := mt.h + mt.g2;
    forall i | 0 <= i < |s| && i != col + 1
      ensures s[i] != '•'
    {
      if i < col {
        assert line[i] in line;
      } else if col + 3 <= i {
        assert line[i - 3] in line;
      }
    }
    assert s[p + 1] == '•';
    assert p == col;
    assert forall i :: mt.a <= i < mt.h ==> s[i] == line[i];
    assert KeywordEnd(line, mt.a) == Some(mt.h);
    assert s[col + 3 + mt.g3] == line[col + mt.g3];
    forall i | mt.h <= i < col + mt.g3
      ensures !IsOpening(line[i])
    {
      if i < col {
        assert s[i] == line[i];
      } else {
        assert s[i + 3] == line[i];
      }
    }
  }

  /** When the line holds no `•`, the marker that matches is the one put at the cursor: group 2
      is the text from the `{` of `\begin{`/`\end{` up to the cursor, group 3 the text from the
      cursor up to the `}`, and neither holds an opening bracket. */
  lemma MatchAtCursor(line: string, col: nat)
    requires '•' !in line && col <= |line|
    requires MatchBeginEnd(MarkedLine(line, col)).Some?
    ensures AtCursor(line, col, MatchBeginEnd(MarkedLine(line, col)).value)
  {
    var s := MarkedLine(line, col);
    MatchIsValid(s);
    ValidAtCursor(line, col, MatchBeginEnd(s).value);
  }

  // ---------------------------------------------------------------- activation

  /** The mode objects the controller switches between: the blank mode, the default mode and
      a begin/end mode for the word at `wordOffset` of `wordLength` characters. */
  datatype Mode = Blank | Default | BeginEnd(wordOffset: int, wordLength: nat)

  /** The mode `activate_if_possible` starts, `None` when it returns without starting one.
      `line` is the cursor's line and `col` the cursor's column in it, `cursorOffset` the
      cursor's buffer offset, `currentWord` the LaTeX command at the cursor and `commands` the
      commands of the items the provider offers for it. */
  function Activation(line: string, col: nat, cursorOffset: int, currentWord: string,
                      commands: seq<string>): Option<Mode>
  {
    match MatchBeginEnd(MarkedLine(line, col))
    case Some(mt) => Some(BeginEnd(cursorOffset - mt.g2, mt.g2 + mt.g3))
    case None => if commands == [] || currentWord in commands then None else Some(Default)
  }

  /** The begin/end mode starts exactly when the pattern matches; its word holds the cursor.
      Otherwise nothing starts when the provider offers nothing or offers the word itself, and
      the default mode starts in every other case. */
  lemma ActivationSpec(line: string, col: nat, cursorOffset: int, currentWord: string, commands: seq<string>)
    ensures var r := Activation(line, col, cursorOffset, currentWord, commands);
      (r.Some? && r.value.BeginEnd?) <==> MatchBeginEnd(MarkedLine(line, col)).Some?
    ensures var r := Activation(line, col, cursorOffset, currentWord, commands);
      r.Some? && r.value.BeginEnd? ==>
        r.value.wordOffset <= cursorOffset <= r.value.wordOffset + r.value.wordLength
    ensures MatchBeginEnd(MarkedLine(line, col)).None? ==>
      (Activation(line, col, cursorOffset, currentWord, commands).None? <==> commands == [] || currentWord in commands)
    ensures MatchBeginEnd(MarkedLine(line, col)).None? && Activation(line, col, cursorOffset, currentWord, commands).Some? ==>
      Activation(line, col, cursorOffset, currentWord, commands) == Some(Default)
    ensures Activation(line, col, cursorOffset, currentWord, commands) != Some(Blank)
  {
  }

  lemma ActivationOfMatch(line: string, col: nat, cursorOffset: int, currentWord: string,
                          commands: seq<string>)
    requires MatchBeginEnd(MarkedLine(line, col)).Some?
    ensures var mt := MatchBeginEnd(MarkedLine(line, col)).value;
      Activation(line, col, cursorOffset, currentWord, commands) == Some(BeginEnd(cursorOffset - mt.g2, mt.g2 + mt.g3))
  {
  }

  /** Without a `•` in the line, the begin/end word is the text between the braces around the
      cursor. */
  lemma BeginEndWordIsBraced(line: string, col: nat, cursorOffset: int, currentWord: string,
                              commands: seq<string>)
    requires '•' !in line && col <= |line|
    requires MatchBeginEnd(MarkedLine(line, col)).Some?
    ensures Activation(line, col, cursorOffset, currentWord, commands).Some?
    ensures BracedWord(line, col, cursorOffset, Activation(line, col, cursorOffset, currentWord, commands).value)
  {
    ActivationOfMatch(line, col, cursorOffset, currentWord, commands);
    MatchAtCursor(line, col);
    AtCursorBraced(line, col, cursorOffset, MatchBeginEnd(MarkedLine(line, col)).value);
  }

  lemma AtCursorBraced(line: string, col: nat, cursorOffset: int, mt: BeginEndMatch)
    requires AtCursor(line, col, mt)
    ensures BracedWord(line, col, cursorOffset, BeginEnd(cursorOffset - mt.g2, mt.g2 + mt.g3))
  {
  }

  /** The begin/end mode's word, seen from the cursor at `col` of `line` (buffer offset
      `cursorOffset`), starts right after a `{` and ends right before a `}` and holds no
      opening bracket. */
  predicate BracedWord(line: string, col: nat, cursorOffset: int, m: Mode)
  {
    m.BeginEnd? &&
    var first := col - (cursorOffset - m.wordOffset);
    var last := first + m.wordLength;
    && 1 <= first <= col <= last < |line|
    && line[first - 1] == '{' && line[last] == '}'
    && OpenFree(line, first, last)
  }

  // ---------------------------------------------------------------- keys

  /** The keys the popup handles itself; every other key is `OtherKey`. */
  datatype Key = Down | Up | Escape | Return | OtherKey

  /** What `on_keypress` does with a key. */
  datatype Handling = SelectNext | SelectPrevious | CancelMode | SubmitMode | ForwardToMode

  /** `is_visible`: the mode wants the popup shown, its position is on screen and it is not
      hidden for lack of focus. */
  predicate IsVisible(willShow: bool, positionIsVisible: bool, focusHide: bool)
  {
    willShow && positionIsVisible && !focusHide
  }

  function Dispatch(visible: bool, key: Key, state: bv32, modifiers: bv32): Handling
  {
    if visible && state & modifiers == 0 then
      match key
      case Down => SelectNext
      case Up => SelectPrevious
      case Escape => CancelMode
      case Return => SubmitMode
      case OtherKey => ForwardToMode
    else ForwardToMode
  }

  /** The popup handles a key itself exactly when it is visible, no modifier is held and the
      key is Down, Up, Escape or Return; each of the four has its own action. */
  lemma DispatchSpec(visible: bool, key: Key, state: bv32, modifiers: bv32)
    ensures Dispatch(visible, key, state, modifiers) != ForwardToMode <==>
      visible && state & modifiers == 0 && key != OtherKey
    ensures Dispatch(visible, key, state, modifiers) == SelectNext ==> key == Down
    ensures Dispatch(visible, key, state, modifiers) == SelectPrevious ==> key == Up
    ensures Dispatch(visible, key, state, modifiers) == CancelMode ==> key == Escape
    ensures Dispatch(visible, key, state, modifiers) == SubmitMode ==> key == Return
  {
  }

  // ---------------------------------------------------------------- the controller

  /** A request made of a collaborator: the mode (which one is named) or the view. */
  datatype Effect =
    | ModeUpdate(mode: Mode)
    | ModeBufferChanged(mode: Mode)
    | ModeCancel(mode: Mode)
    | ModeSubmit(mode: Mode)
    | ModeKeypress(mode: Mode)
    | ViewSelectNext
    | ViewSelectPrevious

  /** A row of the popup list: a command and the offset the completion applies at. */
  datatype Row = Row(command: string, offset: int)

  function RowsOf(items: seq<string>, offset: int): (r: seq<Row>)
    ensures |r| == |items| && forall k :: 0 <= k < |items| ==> r[k] == Row(items[k], offset)
  {
    seq(|items|, k requires 0 <= k < |items| => Row(items[k], offset))
  }

  class AutocompleteController {
    var mode: Mode
    /** The commands the current mode has put up for completion. */
    var items: seq<string>
    /** The popup list and its selected row. */
    var rows: seq<Row>
    var selected: Option<nat>
    var effects: seq<Effect>

    constructor ()
      ensures mode == Blank && items == [] && rows == [] && selected == None && effects == []
    {
      mode := Blank;
      items := [];
      rows := [];
      selected := None;
      effects := [];
    }

    /** `start_mode`: switch to the mode, then update it. */
    method StartMode(m: Mode)
      modifies this
      ensures mode == m && effects == old(effects) + [ModeUpdate(m)]
      ensures items == old(items) && rows == old(rows) && selected == old(selected)
    {
      mode := m;
      effects := effects + [ModeUpdate(mode)];
    }

    /** `end_mode`: back to the blank mode, then update it. */
    method EndMode()
      modifies this
      ensures mode == Blank && effects == old(effects) + [ModeUpdate(Blank)]
      ensures items == old(items) && rows == old(rows) && selected == old(selected)
    {
      mode := Blank;
      effects := effects + [ModeUpdate(mode)];
    }

    /** `update`: the mode is updated only while it is active (`isActive` is its answer). */
    method Update(isActive: bool)
      modifies this
      ensures mode == old(mode) && items == old(items) && rows == old(rows) && selected == old(selected)
      ensures effects == old(effects) + (if isActive then [ModeUpdate(mode)] else [])
    {
      if isActive {
        effects := effects + [ModeUpdate(mode)];
      }
    }

    /** `activate_if_possible`, with the collaborators' answers as inputs. */
    method ActivateIfPossible(line: string, col: nat, cursorOffset: int, currentWord: string,
                              commands: seq<string>)
      modifies this
      ensures var r := Activation(line, col, cursorOffset, currentWord, commands);
        && mode == (if r.Some? then r.value else old(mode))
        && effects == old(effects) + (if r.Some? then [ModeUpdate(r.value)] else [])
      ensures items == old(items) && rows == old(rows) && selected == old(selected)
    {
      var marked := Take(line, col) + "%•%" + Drop(line, col);
      var found := MatchBeginEnd(marked);
      if found.Some? {
        var wordOffset := cursorOffset - found.value.g2;
        var wordLength := found.value.g2 + found.value.g3;
        StartMode(BeginEnd(wordOffset, wordLength));
      } else {
        if commands == [] {
          return;
        }
        for i := 0 to |commands|
          invariant currentWord !in commands[..i]
        {
          if commands[i] == currentWord {
            assert currentWord in commands;
            return;
          }
          assert commands[..i + 1] == commands[..i] + [commands[i]];
        }
        assert commands[..|commands|] == commands;
        StartMode(Default);
      }
    }

    /** `on_buffer_changed`: activation first, then the (possibly new) mode hears of the change. */
    method OnBufferChanged(line: string, col: nat, cursorOffset: int, currentWord: string,
                           commands: seq<string>)
      modifies this
      ensures var r := Activation(line, col, cursorOffset, currentWord, commands);
        && mode == (if r.Some? then r.value else old(mode))
        && effects == old(effects) + (if r.Some? then [ModeUpdate(r.value)] else []) + [ModeBufferChanged(mode)]
      ensures items == old(items) && rows == old(rows) && selected == old(selected)
    {
      ActivateIfPossible(line, col, cursorOffset, currentWord, commands);
      effects := effects + [ModeBufferChanged(mode)];
    }

    /** `on_keypress`: returns whether the key was handled. `willShow`, `positionIsVisible` and
        `focusHide` are what `is_visible` reads from the mode and the view; `modeAnswer` is what
        the mode's own `on_keypress` returns. */
    method OnKeypress(willShow: bool, positionIsVisible: bool, focusHide: bool, key: Key,
                      state: bv32, modifiers: bv32, modeAnswer: bool)
      returns (handled: bool)
      modifies this
      ensures var d := Dispatch(IsVisible(willShow, positionIsVisible, focusHide), key, state, modifiers);
        && handled == (d != ForwardToMode || modeAnswer)
        && effects == old(effects) + [match d
                                      case SelectNext => ViewSelectNext
                                      case SelectPrevious => ViewSelectPrevious
                                      case CancelMode => ModeCancel(mode)
                                      case SubmitMode => ModeSubmit(mode)
                                      case ForwardToMode => ModeKeypress(mode)]
      ensures mode == old(mode) && items == old(items) && rows == old(rows) && selected == old(selected)
    {
      if IsVisible(willShow, positionIsVisible, focusHide) {
        if key == Down && state & modifiers == 0 {
          effects := effects + [ViewSelectNext];
          return true;
        }
        if key == Up && state & modifiers == 0 {
          effects := effects + [ViewSelectPrevious];
          return true;
        }
        if key == Escape && state & modifiers == 0 {
          effects := effects + [ModeCancel(mode)];
          return true;
        }
        if key == Return && state & modifiers == 0 {
          effects := effects + [ModeSubmit(mode)];
          return true;
        }
      }
      effects := effects + [ModeKeypress(mode)];
      return modeAnswer;
    }

    /** `populate`: empty the list, prepend a row per item from the last item to the first,
        and select the first row when there is one. */
    method Populate(offset: int)
      modifies this
      ensures rows == RowsOf(items, offset)
      ensures selected == if items != [] then Some(0) else None
      ensures mode == old(mode) && items == old(items) && effects == old(effects)
    {
      rows := [];
      selected := None;
      var i := |items|;
      while i > 0
        invariant 0 <= i <= |items|
        invariant rows == RowsOf(items[i..], offset)
        invariant selected == None
        invariant mode == old(mode) && items == old(items) && effects == old(effects)
      {
        i := i - 1;
        assert items[i..] == [items[i]] + items[i + 1..];
        rows := [Row(items[i], offset)] + rows;
      }
      assert items[0..] == items;
      if |items| > 0 {
        selected := Some(0);
      }
    }
  }
}
