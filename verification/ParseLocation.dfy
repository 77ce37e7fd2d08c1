/** Source locations that are moved character by character, against counting lines from the start. */
module ParseLocation {

  datatype Location = Location(offset: nat, line: int, col: int)

  const LF: char := '\n'

  predicate IsLf(content: string, i: int) {
    0 <= i < |content| && content[i] == '\n'
  }

  // ---------- Counting from the start of the text ----------

  function LineOf(content: string, offset: nat): nat {
    if offset == 0 then 0 else LineOf(content, offset - 1) + if IsLf(content, offset - 1) then 1 else 0
  }

  /** The index of the last line feed before `n`, or -1. */
  function LastLf(content: string, n: nat): (r: int)
    ensures -1 <= r < n
    ensures r >= 0 ==> IsLf(content, r)
    ensures forall i :: r < i < n ==> !IsLf(content, i)
  {
    if n == 0 then -1 else if IsLf(content, n - 1) then n - 1 else LastLf(content, n - 1)
  }

  function ColOf(content: string, offset: nat): nat {
    offset - (LastLf(content, offset) + 1)
  }

  /** The line and column are those of the offset. */
  predicate Consistent(content: string, loc: Location) {
    loc.line == LineOf(content, loc.offset) && loc.col == ColOf(content, loc.offset)
  }

  predicate NoLf(content: string, a: int, b: int) {
    forall i :: a <= i < b ==> !IsLf(content, i)
  }

  // ---------- Moving ----------

  function BackStep(content: string, loc: Location): Location
    requires loc.offset > 0
  {
    var offset := loc.offset - 1;
    if IsLf(content, offset) then
      var priorLine := if offset == 0 then -1 else LastLf(content, offset - 1);
      Location(offset, loc.line - 1, if priorLine > 0 then offset - priorLine else offset)
    else Location(offset, loc.line, loc.col - 1)
  }

  function Back(content: string, loc: Location, d: nat): Location
    decreases d
  {
    if d == 0 || loc.offset == 0 then loc else Back(content, BackStep(content, loc), d - 1)
  }

  function ForwardStep(content: string, loc: Location): Location {
    if IsLf(content, loc.offset) then Location(loc.offset + 1, loc.line + 1, 0)
    else Location(loc.offset + 1, loc.line, loc.col + 1)
  }

  function Forward(content: string, loc: Location, d: nat): Location
    decreases d
  {
    if d == 0 || loc.offset >= |content| then loc else Forward(content, ForwardStep(content, loc), d - 1)
  }

  function Moved(content: string, loc: Location, delta: int): Location {
    if delta < 0 then Back(content, loc, -delta) else Forward(content, loc, delta)
  }

  /** The last line feed in the first `end` characters, as `substring` and `lastIndexOf` find it. */
  method LastIndexOfLf(content: string, end: int) returns (r: int)
    ensures r == if end <= 0 then -1 else LastLf(content, end)
  {
    r := end - 1;
    while r >= 0 && !IsLf(content, r)
      invariant end <= 0 ==> r == end - 1
      invariant end > 0 ==> -1 <= r < end && LastLf(content, end) == LastLf(content, r + 1)
    {
      r := r - 1;
    }
    if r < 0 { r := -1; }
  }

  method MoveBy(content: string, loc: Location, delta: int) returns (r: Location)
    ensures r == Moved(content, loc, delta)
  {
    var offset, line, col := loc.offset, loc.line, loc.col;
    var left := delta;
    while offset > 0 && left < 0
      invariant 0 <= offset && (delta < 0 ==> left <= 0) && (delta >= 0 ==> left == delta)
      invariant delta >= 0 ==> Location(offset, line, col) == loc
      invariant delta < 0 ==> Back(content, Location(offset, line, col), -left) == Back(content, loc, -delta)
      decreases offset
    {
      offset := offset - 1;
      left := left + 1;
      if IsLf(content, offset) {
        line := line - 1;
        var priorLine := LastIndexOfLf(content, offset - 1);
        col := if priorLine > 0 then offset - priorLine else offset;
      } else {
        col := col - 1;
      }
    }
    while offset < |content| && left > 0
      invariant 0 <= offset && (delta >= 0 ==> left >= 0) && (delta < 0 ==> left <= 0)
      invariant delta < 0 ==> Location(offset, line, col) == Back(content, loc, -delta)
      invariant delta >= 0 ==> Forward(content, Location(offset, line, col), left) == Forward(content, loc, delta)
      decreases left
    {
      var ch := content[offset];
      offset := offset + 1;
      left := left - 1;
      if ch == LF {
        line := line + 1;
        col := 0;
      } else {
        col := col + 1;
      }
    }
    r := Location(offset, line, col);
  }

  // ---------- Forward moves ----------

  /** Forward moves add the lines crossed; the column is reset by the last line feed crossed. */
  lemma {:induction false} ForwardExact(content: string, loc: Location, d: nat)
    requires loc.offset + d <= |content|
    ensures var r := Forward(content, loc, d);
            && r.offset == loc.offset + d
            && r.line == loc.line + LineOf(content, loc.offset + d) - LineOf(content, loc.offset)
            && r.col == if NoLf(content, loc.offset, loc.offset + d) then loc.col + d
                        else ColOf(content, loc.offset + d)
    decreases d
  {
    if d > 0 {
      var next := ForwardStep(content, loc);
      ForwardExact(content, next, d - 1);
      LineSum(content, loc.offset, loc.offset + 1);
      if IsLf(content, loc.offset) && NoLf(content, loc.offset + 1, loc.offset + d) {
        LastLfUnique(content, loc.offset + d, loc.offset);
      }
      assert NoLf(content, loc.offset, loc.offset + d)
        <==> !IsLf(content, loc.offset) && NoLf(content, loc.offset + 1, loc.offset + d);
    }
  }

  lemma LineSum(content: string, a: nat, b: nat)
    requires b == a + 1
    ensures LineOf(content, b) == LineOf(content, a) + if IsLf(content, a) then 1 else 0
  {
  }

  lemma LastLfUnique(content: string, n: nat, i: int)
    requires -1 <= i < n && (i >= 0 ==> IsLf(content, i)) && NoLf(content, i + 1, n)
    ensures LastLf(content, n) == i
  {
    var r := LastLf(content, n);
  }

  lemma ForwardClamps(content: string, loc: Location, d: nat)
    requires loc.offset <= |content|
    ensures d > |content| - loc.offset ==> Forward(content, loc, d) == Forward(content, loc, |content| - loc.offset)
    decreases d
  {
    if d > |content| - loc.offset && loc.offset < |content| {
      ForwardClamps(content, ForwardStep(content, loc), d - 1);
    }
  }

  /** A forward move from a consistent location gives the consistent location at its end. */
  lemma ForwardConsistent(content: string, loc: Location, d: nat)
    requires loc.offset <= |content| && Consistent(content, loc)
    ensures var r := Moved(content, loc, d);
            Consistent(content, r) && r.offset == if loc.offset + d <= |content| then loc.offset + d else |content|
  {
    var k := if loc.offset + d <= |content| then d else |content| - loc.offset;
    ForwardClamps(content, loc, d);
    ForwardExact(content, loc, k);
    if NoLf(content, loc.offset, loc.offset + k) {
      LastLfUnique(content, loc.offset + k, LastLf(content, loc.offset));
    }
  }

  lemma {:induction false} ForwardAdds(content: string, loc: Location, a: nat, b: nat)
    ensures Forward(content, Forward(content, loc, a), b) == Forward(content, loc, a + b)
    decreases a
  {
    if a > 0 && loc.offset < |content| {
      ForwardAdds(content, ForwardStep(content, loc), a - 1, b);
    }
  }

  lemma {:induction false} BackAdds(content: string, loc: Location, a: nat, b: nat)
    ensures Back(content, Back(content, loc, a), b) == Back(content, loc, a + b)
    decreases a
  {
    if a > 0 && loc.offset > 0 {
      BackAdds(content, BackStep(content, loc), a - 1, b);
    }
  }

  /** Moves in the same direction add up. */
  lemma SameDirectionAdds(content: string, loc: Location, a: int, b: int)
    requires (a >= 0 && b >= 0) || (a < 0 && b < 0)
    ensures Moved(content, Moved(content, loc, a), b) == Moved(content, loc, a + b)
  {
    if a < 0 { BackAdds(content, loc, -a, -b); } else { ForwardAdds(content, loc, a, b); }
  }

  // ---------- Backward moves ----------

  /** The line is that of the offset, and so is the column unless it comes after a line feed crossed. */
  predicate BackFits(content: string, from: nat, r: Location) {
    && r.line == LineOf(content, r.offset)
    && (if NoLf(content, r.offset, from) || NoLf(content, 0, r.offset)
        then r.col == ColOf(content, r.offset) else r.col > ColOf(content, r.offset))
  }

  /**
   * Offset and line of a backward move are exact. The column is exact when no line feed is
   * crossed or the move ends on the first line, and too large otherwise.
   */
  lemma {:induction false} BackExact(content: string, loc: Location, d: nat)
    requires loc.offset <= |content| && Consistent(content, loc) && d <= loc.offset
    ensures Back(content, loc, d).offset == loc.offset - d
    ensures BackFits(content, loc.offset, Back(content, loc, d))
  {
    if d > 0 {
      hide BackFits, BackStep;
      BackExact(content, loc, d - 1);
      LastStep(content, loc, d);
      BackStepFits(content, loc.offset, Back(content, loc, d - 1));
    }
  }

  /** The last line feed among the characters before `end`, or -1. */
  predicate IsLastLfBefore(content: string, end: int, i: int) {
    && -1 <= i && (i >= 0 ==> i < end && IsLf(content, i))
    && forall k :: i < k < end ==> !IsLf(content, k)
  }

  /** Without a line feed on the way the column of a backward move falls with every character. */
  lemma {:induction false} BackOnLine(content: string, loc: Location, d: nat)
    requires loc.offset <= |content| && d <= loc.offset && NoLf(content, loc.offset - d, loc.offset)
    ensures Back(content, loc, d).col == loc.col - d
  {
    if d > 0 {
      BackOnLine(content, loc, d - 1);
      BackOffset(content, loc, d - 1);
      LastStep(content, loc, d);
    }
  }

  /**
   * Otherwise it falls from the line feed `f` crossed last, at which it is set: the search for the
   * line feed before that one leaves out the character next to it and takes one at the start of
   * the text for none, so that the column counts from there, or from the start of the text.
   */
  lemma {:induction false} BackColumn(content: string, loc: Location, d: nat, f: nat, prior: int)
    requires loc.offset <= |content| && d <= loc.offset && loc.offset - d <= f < loc.offset
    requires IsLf(content, f) && NoLf(content, loc.offset - d, f) && IsLastLfBefore(content, f - 1, prior)
    ensures Back(content, loc, d).col == (if prior > 0 then f - prior else f) - (f - (loc.offset - d))
  {
    BackOffset(content, loc, d - 1);
    LastStep(content, loc, d);
    if f == loc.offset - d {
      if f > 0 { LastLfUnique(content, f - 1, prior); }
    } else {
      BackColumn(content, loc, d - 1, f, prior);
    }
  }

  lemma {:induction false} BackOffset(content: string, loc: Location, d: nat)
    requires d <= loc.offset
    ensures Back(content, loc, d).offset == loc.offset - d
    decreases d
  {
    if d > 0 { BackOffset(content, BackStep(content, loc), d - 1); }
  }

  lemma LastStep(content: string, loc: Location, d: nat)
    requires 0 < d <= loc.offset && Back(content, loc, d - 1).offset == loc.offset - (d - 1)
    ensures Back(content, loc, d) == BackStep(content, Back(content, loc, d - 1))
    ensures BackStep(content, Back(content, loc, d - 1)).offset == loc.offset - d
  {
    var q := Back(content, loc, d - 1);
    BackAdds(content, loc, d - 1, 1);
    assert Back(content, q, 1) == BackStep(content, q);
  }

  lemma BackStepFits(content: string, from: nat, q: Location)
    requires 0 < q.offset <= from && BackFits(content, from, q)
    ensures BackFits(content, from, BackStep(content, q))
  {
    var o := q.offset - 1;
    if IsLf(content, o) {
      BackOverLf(content, q);
      assert !NoLf(content, o, from);
    } else {
      LastLfUnique(content, o + 1, LastLf(content, o));
      assert NoLf(content, o, from) <==> NoLf(content, o + 1, from);
      assert NoLf(content, 0, o) <==> NoLf(content, 0, o + 1);
    }
  }

  lemma BackOverLf(content: string, q: Location)
    requires q.offset > 0 && IsLf(content, q.offset - 1)
    ensures var r := BackStep(content, q);
            if NoLf(content, 0, r.offset) then r.col == ColOf(content, r.offset) else r.col > ColOf(content, r.offset)
  {
    var o := q.offset - 1;
    var last := LastLf(content, o);
    if NoLf(content, 0, o) {
      LastLfUnique(content, o, -1);
      if o > 0 { LastLfUnique(content, o - 1, -1); }
    } else {
      var i :| 0 <= i < o && IsLf(content, i);
      assert last >= 0 && o > 0;
      var prior := LastLf(content, o - 1);
      assert prior <= last;
    }
  }

  /** A backward move gives the consistent location exactly when no line feed lies on one side of its end. */
  lemma BackConsistentIff(content: string, loc: Location, d: nat)
    requires loc.offset <= |content| && Consistent(content, loc) && 0 < d <= loc.offset
    ensures Consistent(content, Moved(content, loc, -(d as int)))
       <==> NoLf(content, loc.offset - d, loc.offset) || NoLf(content, 0, loc.offset - d)
  {
    BackExact(content, loc, d);
  }

  /** Moving back and forth returns to the same offset, line and column. */
  lemma BackAndForth(content: string, loc: Location, d: nat)
    requires loc.offset <= |content| && Consistent(content, loc) && d <= loc.offset
    ensures Moved(content, Moved(content, loc, -(d as int)), d) == loc
  {
    BackExact(content, loc, d);
    var r := Moved(content, loc, -(d as int));
    ForwardExact(content, r, d);
    if NoLf(content, r.offset, loc.offset) {
      LastLfUnique(content, loc.offset, LastLf(content, r.offset));
    }
  }

  // ---------- The text around a location ----------

  function LfCount(content: string, a: int, b: int): nat
    decreases b - a
  {
    if a >= b then 0 else LfCount(content, a, b - 1) + if IsLf(content, b - 1) then 1 else 0
  }

  lemma {:induction false} LfCountLow(content: string, a: int, b: int)
    requires a < b
    ensures LfCount(content, a, b) == LfCount(content, a + 1, b) + if IsLf(content, a) then 1 else 0
    decreases b - a
  {
    if a + 1 < b {
      LfCountLow(content, a, b - 1);
    }
  }

  /**
   * `start` is as far before `from` as the limits allow: the text between holds at most
   * `maxChars` characters, stops at the `maxLines`-th line feed, and ends early for no other
   * reason than the start of the text.
   */
  predicate IsContextStart(content: string, from: int, maxChars: int, maxLines: int, start: int) {
    && start <= from && (from >= 0 ==> start >= 0) && (from < 0 ==> start == from)
    && (start < from ==> from - start <= maxChars)
    && (forall i :: start < i < from && IsLf(content, i) ==> LfCount(content, i, from) != maxLines)
    && (start <= 0 || from - start >= maxChars
        || (start < from && IsLf(content, start) && LfCount(content, start, from) == maxLines))
  }

  predicate IsContextEnd(content: string, from: int, maxChars: int, maxLines: int, end: int) {
    && from <= end && (from < |content| ==> end < |content|) && (from >= |content| ==> end == from)
    && (from < end ==> end - from <= maxChars)
    && (forall i :: from < i < end && IsLf(content, i) ==> LfCount(content, from + 1, i + 1) != maxLines)
    && (end >= |content| - 1 || end - from >= maxChars
        || (from < end && IsLf(content, end) && LfCount(content, from + 1, end + 1) == maxLines))
  }

  lemma ContextUnique(content: string, from: int, maxChars: int, maxLines: int, a: int, b: int)
    requires
      || (IsContextStart(content, from, maxChars, maxLines, a) && IsContextStart(content, from, maxChars, maxLines, b))
      || (IsContextEnd(content, from, maxChars, maxLines, a) && IsContextEnd(content, from, maxChars, maxLines, b))
    ensures a == b
  {
  }

  function Clamp(content: string, i: int): nat {
    if i < 0 then 0 else if i > |content| then |content| else i
  }

  function Substring(content: string, a: int, b: int): string {
    if Clamp(content, a) <= Clamp(content, b) then content[Clamp(content, a)..Clamp(content, b)]
    else content[Clamp(content, b)..Clamp(content, a)]
  }

  method ContextStart(content: string, from: int, maxChars: int, maxLines: int) returns (startOffset: int)
    requires from < |content|
    ensures IsContextStart(content, from, maxChars, maxLines, startOffset)
  {
    startOffset := from;
    var ctxChars, ctxLines := 0, 0;
    while ctxChars < maxChars && startOffset > 0
      invariant startOffset <= from && (from >= 0 ==> startOffset >= 0) && (from < 0 ==> startOffset == from)
      invariant ctxChars == from - startOffset && (ctxChars > 0 ==> ctxChars <= maxChars)
      invariant ctxLines == LfCount(content, startOffset, from)
      invariant forall i :: startOffset <= i < from && IsLf(content, i) ==> LfCount(content, i, from) != maxLines
      decreases startOffset
    {
      LfCountLow(content, startOffset - 1, from);
      startOffset := startOffset - 1;
      ctxChars := ctxChars + 1;
      if content[startOffset] == LF {
        ctxLines := ctxLines + 1;
        if ctxLines == maxLines { break; }
      }
    }
  }

  method ContextEnd(content: string, from: int, maxChars: int, maxLines: int) returns (endOffset: int)
    requires -1 <= from < |content|
    ensures IsContextEnd(content, from, maxChars, maxLines, endOffset)
  {
    endOffset := from;
    var ctxChars, ctxLines := 0, 0;
    while ctxChars < maxChars && endOffset < |content| - 1
      invariant from <= endOffset <= |content| - 1
      invariant ctxChars == endOffset - from && (ctxChars > 0 ==> ctxChars <= maxChars)
      invariant ctxLines == LfCount(content, from + 1, endOffset + 1)
      invariant forall i :: from < i <= endOffset && IsLf(content, i) ==> LfCount(content, from + 1, i + 1) != maxLines
      decreases |content| - endOffset
    {
      endOffset := endOffset + 1;
      ctxChars := ctxChars + 1;
      if content[endOffset] == LF {
        ctxLines := ctxLines + 1;
        if ctxLines == maxLines { break; }
      }
    }
  }

  /** The text from one position up to another. */
  predicate IsText(t: string, content: string, from: int, to: int) {
    && 0 <= from <= to <= |content| && |t| == to - from
    && forall i :: 0 <= i < |t| ==> t[i] == content[from + i]
  }

  lemma SubstringIs(content: string, a: int, b: int)
    ensures 0 <= a <= b <= |content| ==> IsText(Substring(content, a, b), content, a, b)
    ensures 0 <= a <= |content| <= b ==> IsText(Substring(content, a, b), content, a, |content|)
    ensures content == "" || (a >= |content| && b >= |content|) ==> Substring(content, a, b) == ""
  {
  }

  /** The texts reach from `start` to the offset and from there to `end`, which are as far as the limits allow. */
  predicate IsContext(content: string, offset: nat, maxChars: int, maxLines: int, start: int, end: int,
                      before: string, after: string)
  {
    var from := if offset > |content| - 1 then |content| - 1 else offset;
    && IsContextStart(content, from, maxChars, maxLines, start)
    && IsContextEnd(content, from, maxChars, maxLines, end)
    && if content == "" then before == after == ""
       else if offset < |content| then
         IsText(before, content, start, offset) && IsText(after, content, offset, end + 1)
       else IsText(before, content, start, |content|) && after == ""
  }

  /**
   * The text on both sides of a location, up to the limits. For an offset behind the end of the
   * text, what precedes it ends with the text and nothing follows.
   */
  method GetContext(content: string, loc: Location, maxChars: int, maxLines: int)
      returns (before: string, after: string)
    ensures exists start, end :: IsContext(content, loc.offset, maxChars, maxLines, start, end, before, after)
  {
    var startOffset: int := loc.offset;
    if startOffset > |content| - 1 {
      startOffset := |content| - 1;
    }
    var start := ContextStart(content, startOffset, maxChars, maxLines);
    var end := ContextEnd(content, startOffset, maxChars, maxLines);
    before := Substring(content, start, loc.offset);
    after := Substring(content, loc.offset, end + 1);
    SubstringIs(content, start, loc.offset);
    SubstringIs(content, loc.offset, end + 1);
    hide Substring, IsText;
    assert IsContext(content, loc.offset, maxChars, maxLines, start, end, before, after);
  }
}
