/** The styling of a message so that no line break is printed in style. */
module StyledMessage {

  const ESC: char := 27 as char
  const LF: char := '\n'
  const CR: char := '\r'

  /** Switching on, and off, red and bold. */
  const OPEN: string := "\U{1B}[31m\U{1B}[1m"
  const CLOSE: string := "\U{1B}[22m\U{1B}[39m"

  function LineEnd(crlf: bool): string {
    if crlf then "\r\n" else "\n"
  }

  /** What stands in the result for a line ending. */
  function Piece(crlf: bool, prefix: string, postfix: string): string {
    prefix + LineEnd(crlf) + postfix
  }

  /** Every line ending, LF or CRLF, is put between `prefix` and `postfix`. */
  function Encased(s: string, prefix: string, postfix: string): string {
    if s == "" then ""
    else if s[0] == LF then Piece(false, prefix, postfix) + Encased(s[1..], prefix, postfix)
    else if s[0] == CR && |s| > 1 && s[1] == LF then Piece(true, prefix, postfix) + Encased(s[2..], prefix, postfix)
    else [s[0]] + Encased(s[1..], prefix, postfix)
  }

  predicate FirstLf(s: string, start: nat, index: int) {
    && start <= index < |s| && s[index] == LF
    && (forall k :: start <= k < index ==> s[k] != LF)
  }

  /** Whether the line feed at `i` belongs to a CRLF. */
  predicate AfterCr(s: string, i: nat) {
    1 <= i <= |s| && s[i - 1] == CR
  }

  /** Where the line that ends with the line feed at `i` stops. */
  function LineStop(s: string, i: nat): nat {
    if AfterCr(s, i) then i - 1 else i
  }

  /** The index of the first line feed from `start` on, or -1. */
  method IndexOfLf(s: string, start: nat) returns (r: int)
    requires start <= |s|
    ensures r == -1 ==> forall k :: start <= k < |s| ==> s[k] != LF
    ensures r != -1 ==> FirstLf(s, start, r)
  {
    var i := start;
    while i < |s|
      invariant start <= i <= |s|
      invariant forall k :: start <= k < i ==> s[k] != LF
    {
      if s[i] == LF { return i; }
      i := i + 1;
    }
    r := -1;
  }

  method StringEncaseCRLFWithFirstIndex(value: string, prefix: string, postfix: string, first: nat)
      returns (returnValue: string)
    requires FirstLf(value, 0, first)
    ensures returnValue == Encased(value, prefix, postfix)
  {
    hide Encased, Piece;
    var index: int := first;
    var endIndex := 0;
    returnValue := "";
    assert value[0..] == value;
    while index != -1
      invariant 0 <= endIndex <= |value|
      invariant returnValue + Encased(value[endIndex..], prefix, postfix) == Encased(value, prefix, postfix)
      invariant endIndex == 0 || value[endIndex - 1] == LF
      invariant index != -1 ==> FirstLf(value, endIndex, index)
      invariant index == -1 ==> forall k :: endIndex <= k < |value| ==> value[k] != LF
      decreases |value| - endIndex, index
    {
      var gotCR := index >= 1 && value[index - 1] == CR;
      var piece := Piece(gotCR, prefix, postfix);
      EncasedFrom(value, endIndex, index, prefix, postfix);
      Regroup(returnValue, value[endIndex..LineStop(value, index)], piece, Encased(value[index + 1..], prefix, postfix));
      returnValue := returnValue + value[endIndex..if gotCR then index - 1 else index] + piece;
      endIndex := index + 1;
      index := IndexOfLf(value, endIndex);
    }
    EncasedPlain(value[endIndex..], prefix, postfix);
    returnValue := returnValue + value[endIndex..];
  }

  lemma Regroup(a: string, b: string, c: string, d: string)
    ensures (a + b + c) + d == a + (b + c + d)
  {
  }

  /** Text without line feeds is left alone. */
  lemma {:induction false} EncasedPlain(s: string, prefix: string, postfix: string)
    requires forall k :: 0 <= k < |s| ==> s[k] != LF
    ensures Encased(s, prefix, postfix) == s
  {
    if s != "" {
      EncasedPlain(s[1..], prefix, postfix);
    }
  }

  /** The first line of a text: its characters, then its ending. */
  lemma {:induction false} EncasedLine(s: string, i: nat, prefix: string, postfix: string)
    requires FirstLf(s, 0, i)
    ensures Encased(s, prefix, postfix)
         == s[..LineStop(s, i)] + Piece(AfterCr(s, i), prefix, postfix) + Encased(s[i + 1..], prefix, postfix)
  {
    hide Piece;
    var crlf := AfterCr(s, i);
    var piece := Piece(crlf, prefix, postfix);
    if i == 0 || (i == 1 && crlf) {
      assert s[..0] + piece == piece;
    } else {
      var t, end := s[1..], LineStop(s, i);
      EncasedLine(t, i - 1, prefix, postfix);
      assert t[i..] == s[i + 1..];
      Onto(s[0], t[..end - 1], piece, Encased(s[i + 1..], prefix, postfix));
      assert s[..end] == [s[0]] + t[..end - 1];
    }
  }

  lemma Onto(c: char, a: string, b: string, d: string)
    ensures [c] + (a + b + d) == ([c] + a) + b + d
  {
  }

  lemma EncasedFrom(value: string, start: nat, index: nat, prefix: string, postfix: string)
    requires FirstLf(value, start, index)
    requires start == 0 || value[start - 1] == LF
    ensures start <= LineStop(value, index)
    ensures Encased(value[start..], prefix, postfix)
         == value[start..LineStop(value, index)] + Piece(AfterCr(value, index), prefix, postfix)
          + Encased(value[index + 1..], prefix, postfix)
  {
    hide Encased, Piece;
    var s, i := value[start..], index - start;
    EncasedLine(s, i, prefix, postfix);
    assert s[i + 1..] == value[index + 1..];
    var end := LineStop(value, index);
    assert s[..end - start] == value[start..end];
  }

  method StyleMessage(message: string) returns (r: string)
    ensures r == OPEN + Encased(message, CLOSE, OPEN) + CLOSE
  {
    var styledMessage := message;
    var lfIndex := IndexOfLf(styledMessage, 0);
    if lfIndex != -1 {
      styledMessage := StringEncaseCRLFWithFirstIndex(styledMessage, CLOSE, OPEN, lfIndex);
    } else {
      EncasedPlain(message, CLOSE, OPEN);
    }
    r := OPEN + styledMessage + CLOSE;
  }

  // ---------- What a terminal shows ----------

  datatype Style = Style(red: bool, bold: bool)

  const OFF: Style := Style(false, false)
  const ON: Style := Style(true, true)

  function Apply(code: string, st: Style): Style {
    if code == "[31" then st.(red := true)
    else if code == "[39" then st.(red := false)
    else if code == "[1" then st.(bold := true)
    else if code == "[22" then st.(bold := false)
    else st
  }

  /** Everything up to the `m` that ends an escape sequence, and what follows it. */
  function SplitCode(s: string): (r: (string, string))
    ensures |r.1| <= |s|
  {
    if s == "" then ("", "")
    else if s[0] == 'm' then ("", s[1..])
    else var t := SplitCode(s[1..]); ([s[0]] + t.0, t.1)
  }

  /** The characters shown, each in the style in force. */
  function Render(s: string, st: Style): seq<(char, Style)>
    decreases |s|
  {
    if s == "" then []
    else if s[0] == ESC then
      var (code, rest) := SplitCode(s[1..]); Render(rest, Apply(code, st))
    else [(s[0], st)] + Render(s[1..], st)
  }

  /** The characters of a line ending, out of style. */
  function EndOff(crlf: bool): seq<(char, Style)> {
    if crlf then [(CR, OFF), (LF, OFF)] else [(LF, OFF)]
  }

  /** The message with its line endings out of style and everything else in style. */
  function LinesStyled(s: string): seq<(char, Style)> {
    if s == "" then []
    else if s[0] == LF then EndOff(false) + LinesStyled(s[1..])
    else if s[0] == CR && |s| > 1 && s[1] == LF then EndOff(true) + LinesStyled(s[2..])
    else [(s[0], ON)] + LinesStyled(s[1..])
  }

  lemma RenderCode(code: string, rest: string, st: Style)
    requires 'm' !in code
    ensures Render([ESC] + code + "m" + rest, st) == Render(rest, Apply(code, st))
  {
    var s := [ESC] + code + "m" + rest;
    assert s[1..] == code + "m" + rest;
    SplitCodeOf(code, rest);
  }

  lemma {:induction false} SplitCodeOf(code: string, rest: string)
    requires 'm' !in code
    ensures SplitCode(code + "m" + rest) == (code, rest)
  {
    var s := code + "m" + rest;
    if code == "" {
      assert s[1..] == rest;
    } else {
      assert s[1..] == code[1..] + "m" + rest && s[0] == code[0];
      SplitCodeOf(code[1..], rest);
      assert code == [code[0]] + code[1..];
    }
  }

  lemma RenderOpen(rest: string, st: Style)
    ensures Render(OPEN + rest, st) == Render(rest, ON)
  {
    var tail := [ESC] + "[1" + "m" + rest;
    assert OPEN + rest == [ESC] + "[31" + "m" + tail;
    RenderCode("[31", tail, st);
    RenderCode("[1", rest, st.(red := true));
  }

  lemma RenderClose(rest: string, st: Style)
    ensures Render(CLOSE + rest, st) == Render(rest, OFF)
  {
    var tail := [ESC] + "[39" + "m" + rest;
    assert CLOSE + rest == [ESC] + "[22" + "m" + tail;
    RenderCode("[22", tail, st);
    RenderCode("[39", rest, st.(bold := false));
  }

  lemma RenderLineEnd(crlf: bool, rest: string)
    ensures Render(LineEnd(crlf) + rest, OFF) == EndOff(crlf) + Render(rest, OFF)
  {
    if crlf {
      assert (LineEnd(true) + rest)[1..] == LineEnd(false) + rest;
      RenderLineEnd(false, rest);
    } else {
      assert (LineEnd(false) + rest)[1..] == rest;
    }
  }

  lemma RenderPiece(crlf: bool, rest: string, st: Style)
    ensures Render(Piece(crlf, CLOSE, OPEN) + rest, st) == EndOff(crlf) + Render(rest, ON)
  {
    Nested(CLOSE, LineEnd(crlf), OPEN, rest);
    RenderClose(LineEnd(crlf) + (OPEN + rest), st);
    RenderLineEnd(crlf, OPEN + rest);
    RenderOpen(rest, OFF);
  }

  lemma Nested(a: string, b: string, c: string, d: string)
    ensures (a + b + c) + d == a + (b + (c + d))
  {
  }

  lemma Assoc(a: string, b: string, c: string)
    ensures (a + b) + c == a + (b + c)
  {
  }

  predicate AtLineEnd(s: string) {
    s != "" && (s[0] == LF || (s[0] == CR && |s| > 1 && s[1] == LF))
  }

  /** No escape sequence of the message runs past the end of its line. */
  predicate CodesEnd(s: string)
    decreases |s|
  {
    if s == "" then true
    else if s[0] == ESC then var (code, rest) := SplitCode(s[1..]); LF !in code && CodesEnd(rest)
    else CodesEnd(s[1..])
  }

  /** The message with its own codes obeyed, its line endings out of style, and each line styled anew. */
  function LinesShown(s: string, st: Style): seq<(char, Style)>
    decreases |s|
  {
    if s == "" then []
    else if s[0] == LF then EndOff(false) + LinesShown(s[1..], ON)
    else if s[0] == CR && |s| > 1 && s[1] == LF then EndOff(true) + LinesShown(s[2..], ON)
    else if s[0] == ESC then
      var (code, rest) := SplitCode(s[1..]); LinesShown(rest, Apply(code, st))
    else [(s[0], st)] + LinesShown(s[1..], st)
  }

  lemma {:induction false} SplitCodeIs(s: string)
    ensures var (code, rest) := SplitCode(s);
            'm' !in code && if 'm' in s then s == code + "m" + rest else s == code && rest == ""
  {
    if s != "" && s[0] != 'm' {
      SplitCodeIs(s[1..]);
      assert s == [s[0]] + s[1..];
    }
  }

  lemma RenderPlain(c: char, rest: string, st: Style)
    requires c != ESC
    ensures Render([c] + rest, st) == [(c, st)] + Render(rest, st)
  {
    assert ([c] + rest)[1..] == rest;
  }

  /** What a terminal shows of a message in the middle of its styling. */
  function Shown(s: string, st: Style): seq<(char, Style)> {
    Render(Encased(s, CLOSE, OPEN) + CLOSE, st)
  }

  lemma ShownEmpty(st: Style)
    ensures Shown("", st) == []
  {
    assert Encased("", CLOSE, OPEN) + CLOSE == CLOSE + "";
    RenderClose("", st);
  }

  lemma ShownPlain(s: string, st: Style)
    requires s != "" && s[0] != ESC && !AtLineEnd(s)
    ensures Shown(s, st) == [(s[0], st)] + Shown(s[1..], st)
  {
    Assoc([s[0]], Encased(s[1..], CLOSE, OPEN), CLOSE);
    RenderPlain(s[0], Encased(s[1..], CLOSE, OPEN) + CLOSE, st);
  }

  /** Where a text that is at a line end goes on. */
  function NextLine(s: string): string
    requires AtLineEnd(s)
  {
    if s[0] == CR then s[2..] else s[1..]
  }

  lemma ShownLineEnd(s: string, st: Style)
    requires AtLineEnd(s)
    ensures Shown(s, st) == EndOff(s[0] == CR) + Shown(NextLine(s), ON)
  {
    var crlf, rest := s[0] == CR, NextLine(s);
    Assoc(Piece(crlf, CLOSE, OPEN), Encased(rest, CLOSE, OPEN), CLOSE);
    RenderPiece(crlf, Encased(rest, CLOSE, OPEN) + CLOSE, st);
  }

  /** A code that ends on its line is obeyed. */
  lemma ShownCode(s: string, st: Style)
    requires s != "" && s[0] == ESC && LF !in SplitCode(s[1..]).0
    ensures var (code, rest) := SplitCode(s[1..]); Shown(s, st) == Shown(rest, Apply(code, st))
  {
    var (code, rest) := SplitCode(s[1..]);
    SplitCodeIs(s[1..]);
    if 'm' in s[1..] {
      assert s == [ESC] + code + "m" + rest;
      var after := Encased(rest, CLOSE, OPEN);
      EncasedOnto([ESC] + code + "m", rest, CLOSE, OPEN);
      Assoc([ESC] + code + "m", after, CLOSE);
      RenderCode(code, after + CLOSE, st);
    } else {
      assert s == [ESC] + code;
      EncasedPlain(s, CLOSE, OPEN);
      RenderCutCode(code, "", st);
      assert s + CLOSE == [ESC] + code + CLOSE + "";
      ShownEmpty(Apply(code, st));
    }
  }

  /** A code cut by the switching off takes up to the first `m`. */
  lemma RenderCutCode(code: string, rest: string, st: Style)
    requires 'm' !in code
    ensures Render([ESC] + code + CLOSE + rest, st) == Render(rest, Apply(code + [ESC] + "[22", st).(red := false))
  {
    var cut, tail := code + [ESC] + "[22", [ESC] + "[39" + "m" + rest;
    assert [ESC] + code + CLOSE + rest == [ESC] + cut + "m" + tail;
    RenderCode(cut, tail, st);
    RenderCode("[39", rest, Apply(cut, st));
  }

  lemma {:induction false} ShownIsLines(s: string, st: Style)
    requires CodesEnd(s)
    ensures Shown(s, st) == LinesShown(s, st)
    decreases |s|
  {
    hide Shown;
    if s == "" {
      ShownEmpty(st);
    } else if AtLineEnd(s) {
      ShownLineEnd(s, st);
      CodesEndNextLine(s);
      ShownIsLines(NextLine(s), ON);
    } else if s[0] == ESC {
      ShownCode(s, st);
      ShownIsLines(SplitCode(s[1..]).1, Apply(SplitCode(s[1..]).0, st));
    } else {
      ShownPlain(s, st);
      ShownIsLines(s[1..], st);
    }
  }

  lemma CodesEndNextLine(s: string)
    requires AtLineEnd(s)
    ensures CodesEnd(s) == CodesEnd(NextLine(s))
  {
    if s[0] == CR {
      assert s[1..][1..] == s[2..];
    }
  }

  /** Text without line feeds that does not end in a carriage return is left alone before any text. */
  lemma {:induction false} EncasedOnto(a: string, b: string, prefix: string, postfix: string)
    requires LF !in a && a != "" && a[|a| - 1] != CR
    ensures Encased(a + b, prefix, postfix) == a + Encased(b, prefix, postfix)
  {
    assert a[0] in a && (a + b)[1..] == a[1..] + b;
    if |a| == 1 {
      assert a[1..] + b == b;
    } else {
      assert a[1] in a;
      EncasedOnto(a[1..], b, prefix, postfix);
      Assoc([a[0]], a[1..], Encased(b, prefix, postfix));
      assert a == [a[0]] + a[1..];
    }
  }

  // ---------- Characters, whatever their style ----------

  /** The characters a terminal shows of a text. */
  function Visible(s: string): string
    decreases |s|
  {
    if s == "" then ""
    else if s[0] == ESC then Visible(SplitCode(s[1..]).1)
    else [s[0]] + Visible(s[1..])
  }

  function Chars(shown: seq<(char, Style)>): string {
    if shown == [] then "" else [shown[0].0] + Chars(shown[1..])
  }

  lemma {:induction false} CharsOnto(c: char, st: Style, shown: seq<(char, Style)>)
    ensures Chars([(c, st)] + shown) == [c] + Chars(shown)
  {
    assert ([(c, st)] + shown)[1..] == shown;
  }

  lemma {:induction false} RenderVisible(s: string, st: Style)
    ensures Chars(Render(s, st)) == Visible(s)
    decreases |s|
  {
    if s == "" {
    } else if s[0] == ESC {
      var (code, rest) := SplitCode(s[1..]);
      RenderVisible(rest, Apply(code, st));
    } else {
      RenderVisible(s[1..], st);
      CharsOnto(s[0], st, Render(s[1..], st));
    }
  }

  lemma CharsEndOff(crlf: bool, shown: seq<(char, Style)>)
    ensures Chars(EndOff(crlf) + shown) == LineEnd(crlf) + Chars(shown)
  {
    CharsOnto(LF, OFF, shown);
    if crlf {
      CharsOnto(CR, OFF, [(LF, OFF)] + shown);
      assert EndOff(true) + shown == [(CR, OFF)] + ([(LF, OFF)] + shown);
    }
  }

  lemma VisibleNextLine(s: string)
    requires AtLineEnd(s)
    ensures Visible(s) == LineEnd(s[0] == CR) + Visible(NextLine(s))
  {
    if s[0] == CR {
      assert s[1..][1..] == s[2..];
    }
  }

  /** Obeying codes line by line shows the same characters. */
  lemma {:induction false} LinesVisible(s: string, st: Style)
    ensures Chars(LinesShown(s, st)) == Visible(s)
    decreases |s|
  {
    if s == "" {
    } else if AtLineEnd(s) {
      LinesVisible(NextLine(s), ON);
      CharsEndOff(s[0] == CR, LinesShown(NextLine(s), ON));
      VisibleNextLine(s);
    } else if s[0] == ESC {
      var (code, rest) := SplitCode(s[1..]);
      LinesVisible(rest, Apply(code, st));
    } else {
      LinesVisible(s[1..], st);
      CharsOnto(s[0], st, LinesShown(s[1..], st));
    }
  }

  /** What follows a code is visible when the code's own text is. */
  lemma {:induction false} VisibleAfter(code: string, rest: string)
    requires 'm' !in code
    ensures |Visible(code + "m" + rest)| >= |Visible(rest)|
  {
    var s := code + "m" + rest;
    if code == "" {
      assert s[1..] == rest;
    } else {
      assert s[1..] == code[1..] + "m" + rest;
      if s[0] == ESC {
        SplitCodeOf(code[1..], rest);
      } else {
        VisibleAfter(code[1..], rest);
      }
    }
  }

  lemma RenderLineEndLength(crlf: bool, rest: string, st: Style)
    ensures |Render(LineEnd(crlf) + rest, st)| == |LineEnd(crlf)| + |Render(rest, st)|
  {
    assert (LineEnd(false) + rest)[1..] == rest;
    assert crlf ==> (LineEnd(true) + rest)[1..] == LineEnd(false) + rest;
  }

  /** A code that runs past the end of its line is cut, so that the line ending is shown. */
  lemma ShownCut(s: string, i: nat, st: Style)
    requires s != "" && s[0] == ESC && FirstLf(s, 0, i) && 'm' !in s[..i]
    ensures |Shown(s, st)| > |Shown(s[i + 1..], ON)|
  {
    hide Render, Encased, Apply;
    var end, crlf, rest := LineStop(s, i), AfterCr(s, i), Encased(s[i + 1..], CLOSE, OPEN) + CLOSE;
    var code, tail := s[1..end], LineEnd(crlf) + (OPEN + rest);
    EncasedLine(s, i, CLOSE, OPEN);
    CutText(s[..end], crlf, Encased(s[i + 1..], CLOSE, OPEN));
    assert s[..end] == [ESC] + code;
    assert 'm' !in code by {
      assert code == s[..i][1..end];
    }
    RenderCutCode(code, tail, st);
    RenderLineEndLength(crlf, OPEN + rest, Apply(code + [ESC] + "[22", st).(red := false));
    RenderOpen(rest, Apply(code + [ESC] + "[22", st).(red := false));
  }

  lemma CutText(a: string, crlf: bool, b: string)
    ensures a + Piece(crlf, CLOSE, OPEN) + b + CLOSE == a + CLOSE + (LineEnd(crlf) + (OPEN + (b + CLOSE)))
  {
    Assoc(a + Piece(crlf, CLOSE, OPEN), b, CLOSE);
    Assoc(a, Piece(crlf, CLOSE, OPEN), b + CLOSE);
    Nested(CLOSE, LineEnd(crlf), OPEN, b + CLOSE);
    Assoc(a, CLOSE, LineEnd(crlf) + (OPEN + (b + CLOSE)));
  }

  lemma {:induction false} FirstLfIn(s: string) returns (i: nat)
    requires LF in s
    ensures FirstLf(s, 0, i)
  {
    if s[0] == LF {
      i := 0;
    } else {
      assert s == [s[0]] + s[1..];
      i := FirstLfIn(s[1..]);
      i := i + 1;
    }
  }

  /** The styling hides nothing, and shows more when a code runs past the end of its line. */
  lemma {:induction false} NothingHidden(s: string, st: Style)
    ensures |Shown(s, st)| >= |Visible(s)|
    ensures CodesEnd(s) || |Shown(s, st)| > |Visible(s)|
    decreases |s|
  {
    hide Shown;
    if s == "" {
    } else if AtLineEnd(s) {
      ShownLineEnd(s, st);
      VisibleNextLine(s);
      CodesEndNextLine(s);
      NothingHidden(NextLine(s), ON);
    } else if s[0] != ESC {
      ShownPlain(s, st);
      NothingHidden(s[1..], st);
    } else if LF !in SplitCode(s[1..]).0 {
      ShownCode(s, st);
      NothingHidden(SplitCode(s[1..]).1, Apply(SplitCode(s[1..]).0, st));
    } else {
      var i := CutAt(s);
      ShownCut(s, i, st);
      NothingHidden(s[i + 1..], ON);
    }
  }

  /** Where a code is cut; after it there is at least as much to see as after the whole code. */
  lemma CutAt(s: string) returns (i: nat)
    requires s != "" && s[0] == ESC && LF in SplitCode(s[1..]).0
    ensures FirstLf(s, 0, i) && 'm' !in s[..i]
    ensures |Visible(s[i + 1..])| >= |Visible(s)|
  {
    hide SplitCode;
    var (code, rest) := SplitCode(s[1..]);
    SplitCodeIs(s[1..]);
    var j := FirstLfIn(code);
    i := j + 1;
    assert s[..i] == [ESC] + code[..j];
    if 'm' in s[1..] {
      assert s == [ESC] + (code + "m" + rest);
      assert s[i + 1..] == code[j + 1..] + "m" + rest;
      VisibleAfter(code[j + 1..], rest);
    }
  }

  lemma {:induction false} CharsLength(shown: seq<(char, Style)>)
    ensures |Chars(shown)| == |shown|
  {
    if shown != [] {
      CharsLength(shown[1..]);
    }
  }

  lemma RenderStyled(message: string)
    ensures Render(OPEN + Encased(message, CLOSE, OPEN) + CLOSE, OFF) == Shown(message, ON)
  {
    Assoc(OPEN, Encased(message, CLOSE, OPEN), CLOSE);
    RenderOpen(Encased(message, CLOSE, OPEN) + CLOSE, OFF);
  }

  /**
   * A terminal shows the styled message as the message itself with every line ending out of style
   * and every line red and bold from its start, where the message's own codes do not say otherwise:
   * exactly for messages whose own codes each end on their line.
   */
  lemma StyledMessageShows(message: string)
    ensures Render(OPEN + Encased(message, CLOSE, OPEN) + CLOSE, OFF) == LinesShown(message, ON) <==> CodesEnd(message)
  {
    RenderStyled(message);
    if CodesEnd(message) {
      ShownIsLines(message, ON);
    } else {
      NothingHidden(message, ON);
      LinesVisible(message, ON);
      CharsLength(LinesShown(message, ON));
    }
  }

  /**
   * The terminal shows the characters it shows of the message itself, nothing lost, added or moved:
   * again exactly for messages whose own codes each end on their line.
   */
  lemma CharactersKeptIff(message: string, st: Style)
    ensures Chars(Render(OPEN + Encased(message, CLOSE, OPEN) + CLOSE, OFF)) == Chars(Render(message, st))
            <==> CodesEnd(message)
  {
    RenderStyled(message);
    RenderVisible(message, st);
    LinesVisible(message, ON);
    if CodesEnd(message) {
      ShownIsLines(message, ON);
    } else {
      NothingHidden(message, ON);
      CharsLength(Shown(message, ON));
    }
  }

  /** A message that ends its only line in the middle of a code. */
  const CUT: string := [ESC] + "[31\n"

  /** By itself it shows nothing; once styled, its line ending is shown. */
  lemma CutCodeIsShown()
    ensures !CodesEnd(CUT) && Chars(Render(CUT, OFF)) == ""
    ensures Chars(Render(OPEN + Encased(CUT, CLOSE, OPEN) + CLOSE, OFF)) == "\n"
  {
    hide Render, Visible, Encased, SplitCode, Apply, Chars;
    var code, tail := "[31", LineEnd(false) + (OPEN + (Encased("", CLOSE, OPEN) + CLOSE));
    CutByItself();
    RenderStyled(CUT);
    EncasedLine(CUT, 4, CLOSE, OPEN);
    assert CUT[..4] == [ESC] + code && CUT[5..] == "";
    CutText(CUT[..4], false, Encased("", CLOSE, OPEN));
    RenderCutCode(code, tail, ON);
    CutTailShown(Apply(code + [ESC] + "[22", ON).(red := false));
  }

  lemma CutByItself()
    ensures !CodesEnd(CUT) && Chars(Render(CUT, OFF)) == ""
  {
    SplitCodeIs("[31\n");
    assert CUT[1..] == "[31\n" && LF in "[31\n";
    RenderVisible(CUT, OFF);
  }

  lemma CutTailShown(st: Style)
    ensures Chars(Render(LineEnd(false) + (OPEN + (Encased("", CLOSE, OPEN) + CLOSE)), st)) == "\n"
  {
    RenderPlain(LF, OPEN + (Encased("", CLOSE, OPEN) + CLOSE), st);
    RenderOpen(Encased("", CLOSE, OPEN) + CLOSE, st);
    ShownEmpty(ON);
    CharsOnto(LF, st, []);
  }

  /** Every character is kept in its place: between nothing and nothing the text stays as it is. */
  lemma {:induction false} EncasedInNothing(s: string)
    ensures Encased(s, "", "") == s
    decreases |s|
  {
    if s == "" {
    } else if AtLineEnd(s) {
      EncasedInNothing(NextLine(s));
      assert s == Piece(s[0] == CR, "", "") + NextLine(s);
    } else {
      EncasedInNothing(s[1..]);
      assert s == [s[0]] + s[1..];
    }
  }

  /** A message without codes is shown red and bold throughout, but for its line endings. */
  lemma {:induction false} PlainMessageShows(s: string)
    requires ESC !in s
    ensures CodesEnd(s) && LinesShown(s, ON) == LinesStyled(s)
    decreases |s|
  {
    if s == "" {
    } else {
      PlainMessageShows(s[1..]);
      if s[0] == CR && |s| > 1 && s[1] == LF { PlainMessageShows(s[2..]); }
    }
  }

  /** The lines styled throughout have the characters of the message, in order. */
  lemma {:induction false} EveryCharacterShown(s: string)
    ensures Chars(LinesStyled(s)) == s
    decreases |s|
  {
    if s == "" {
    } else if s[0] == LF {
      EveryCharacterShown(s[1..]);
      assert LinesStyled(s)[1..] == LinesStyled(s[1..]);
    } else if s[0] == CR && |s| > 1 && s[1] == LF {
      EveryCharacterShown(s[2..]);
      var shown := LinesStyled(s);
      assert shown[1..][1..] == LinesStyled(s[2..]);
      assert shown[1..] != [] && shown[1..][0] == (LF, OFF);
    } else {
      EveryCharacterShown(s[1..]);
      assert LinesStyled(s)[1..] == LinesStyled(s[1..]);
    }
  }
}
