/** The bracket scanner of extension.ts (`parse`, `findSyntax`, `nextSymbol`,
    `newLineCheck`): two passes over the document, one per delimiter pair, each
    collecting the spans from an opening delimiter to the first closing one. */
module Scanner {
  import opened Positions
  import opened Sorting

  /** One scanned region (the object returned by `findSyntax`). */
  datatype Span = Span(
    syntax: string,       // captured characters, line feeds and carriage returns dropped
    startLine: nat,
    startPos: nat,        // column of the opening delimiter
    endLine: nat,
    endPos: nat,          // column where the capture stopped
    charPosStart: nat,    // index of the opening delimiter
    charPosEnd: nat)      // index of the closing delimiter, if one was found

  function SpanKey(s: Span): Pos
  {
    Pos(s.startLine, s.startPos)
  }

  /** The delimiter pairs, scanned in this order. */
  const Syntaxes: seq<(char, char)> := [('[', ']'), ('{', '}')]

  /** First index at or after `i` holding `c`, or `|t|` when there is none. */
  function FirstFrom(t: string, c: char, i: nat): (j: nat)
    requires i <= |t|
    ensures i <= j <= |t|
    ensures j < |t| ==> t[j] == c
    decreases |t| - i
  {
    if i == |t| || t[i] == c then i else FirstFrom(t, c, i + 1)
  }

  /** Any index with the defining properties of FirstFrom is FirstFrom. */
  lemma {:induction false} FirstFromUnique(t: string, c: char, i: nat, j: nat)
    requires i <= j <= |t|
    requires j < |t| ==> t[j] == c
    requires forall k :: i <= k < j ==> t[k] != c
    ensures FirstFrom(t, c, i) == j
    decreases j - i
  {
    if i < j {
      FirstFromUnique(t, c, i + 1, j);
    }
  }

  /** FirstFrom finds the first occurrence: nothing before it is `c`, and it
      reaches the end exactly when the suffix from `i` has no `c`. */
  lemma {:induction false} FirstFromIsFirst(t: string, c: char, i: nat)
    requires i <= |t|
    ensures forall k :: i <= k < FirstFrom(t, c, i) ==> t[k] != c
    ensures FirstFrom(t, c, i) == |t| <==> c !in t[i..]
    decreases |t| - i
  {
    if i < |t| && t[i] != c {
      FirstFromIsFirst(t, c, i + 1);
      assert t[i..] == [t[i]] + t[i + 1..];
    }
  }

  /** The characters of `s` other than line feeds and carriage returns, in order. */
  function Strip(s: string): (r: string)
    ensures |r| <= |s|
  {
    if s == [] then []
    else
      var last := s[|s| - 1];
      Strip(s[..|s| - 1]) + (if last == '\n' || last == '\r' then [] else [last])
  }

  /** No line feed or carriage return survives the capture. */
  lemma {:induction false} StripDropsBreaks(s: string)
    ensures '\n' !in Strip(s) && '\r' !in Strip(s)
  {
    if s != [] {
      StripDropsBreaks(s[..|s| - 1]);
    }
  }

  /** Appending a character to the input appends it to the output unless it is
      a line feed or a carriage return. */
  lemma StripSnoc(s: string, c: char)
    ensures Strip(s + [c]) == Strip(s) + (if c == '\n' || c == '\r' then [] else [c])
  {
    assert (s + [c])[..|s + [c]| - 1] == s;
  }

  /** Extending a captured region of `t` by one character extends its capture
      by that character, unless it is a line break. */
  lemma StripExtend(t: string, p0: nat, p: nat)
    requires p0 <= p < |t|
    ensures Strip(t[p0..p + 1]) == Strip(t[p0..p]) + (if t[p] == '\n' || t[p] == '\r' then [] else [t[p]])
  {
    assert t[p0..p + 1] == t[p0..p] + [t[p]];
    StripSnoc(t[p0..p], t[p]);
  }

  /** Strip keeps every other character, with its multiplicity. */
  lemma {:induction false} StripKeepsOtherChars(s: string, c: char)
    requires c != '\n' && c != '\r'
    ensures multiset(Strip(s))[c] == multiset(s)[c]
  {
    if s != [] {
      StripKeepsOtherChars(s[..|s| - 1], c);
      assert s == s[..|s| - 1] + [s[|s| - 1]];
    }
  }

  /** Where one `findSyntax` call started at `pos` leaves the cursor: on the
      first closing delimiter after the next opening one, or at the end. */
  function StopFrom(t: string, open: char, close: char, pos: nat): (q: nat)
    requires pos <= |t|
    ensures pos <= q <= |t|
    ensures open != close && open in t[pos..] ==> pos < q
  {
    FirstFromIsFirst(t, open, pos);
    FirstFrom(t, close, FirstFrom(t, open, pos))
  }

  /** The span one `findSyntax` call started at `pos` returns. When no closing
      delimiter follows, `charPosEnd` keeps the cursor's starting value. */
  function SpanFrom(t: string, open: char, close: char, pos: nat): (r: Span)
    requires pos <= |t|
    ensures pos <= r.charPosStart <= |t|
    ensures r.charPosStart < |t| ==> t[r.charPosStart] == open
    ensures r.charPosEnd == pos || (r.charPosEnd < |t| && t[r.charPosEnd] == close)
  {
    var p := FirstFrom(t, open, pos);
    var q := FirstFrom(t, close, p);
    var closed := q < |t|;
    Span(Strip(t[p..q]) + (if closed then [close] else []),
         LineOf(t, p), ColOf(t, p), LineOf(t, q), ColOf(t, q),
         p, if closed then q else pos)
  }

  /** The spans a pass produces from cursor `pos` on: it goes on while the
      unscanned suffix still contains both delimiters. */
  function ScanFrom(t: string, open: char, close: char, pos: nat): (r: seq<Span>)
    requires pos <= |t| && open != close
    ensures |r| <= |t| - pos
    decreases |t| - pos
  {
    if open in t[pos..] && close in t[pos..] then
      [SpanFrom(t, open, close, pos)] + ScanFrom(t, open, close, StopFrom(t, open, close, pos))
    else
      []
  }

  function ScanPass(t: string, open: char, close: char): seq<Span>
    requires open != close
  {
    ScanFrom(t, open, close, 0)
  }

  /** The spans of the passes for `pairs`, concatenated in pass order. */
  function ScanPasses(t: string, pairs: seq<(char, char)>): seq<Span>
    requires forall k :: 0 <= k < |pairs| ==> pairs[k].0 != pairs[k].1
  {
    if pairs == [] then []
    else ScanPasses(t, pairs[..|pairs| - 1]) + ScanPass(t, pairs[|pairs| - 1].0, pairs[|pairs| - 1].1)
  }

  /** Everything both passes of `parse` find, before sorting. */
  function ScanAll(t: string): seq<Span>
  {
    ScanPasses(t, Syntaxes)
  }

  /** Prepending a character to the input prepends it to the output unless it
      is a line feed or a carriage return. */
  lemma {:induction false} StripCons(c: char, s: string)
    ensures Strip([c] + s) == (if c == '\n' || c == '\r' then [] else [c]) + Strip(s)
    decreases |s|
  {
    if s == [] {
      assert [c] + s == [] + [c];
      StripSnoc([], c);
    } else {
      var init, last := s[..|s| - 1], s[|s| - 1];
      assert [c] + s == ([c] + init) + [last];
      assert s == init + [last];
      StripSnoc([c] + init, last);
      StripSnoc(init, last);
      StripCons(c, init);
    }
  }

  /** Text without line breaks is its own stripped form. */
  lemma {:induction false} StripWithoutBreaks(s: string)
    requires '\n' !in s && '\r' !in s
    ensures Strip(s) == s
  {
    if s != [] {
      assert s == s[..|s| - 1] + [s[|s| - 1]];
      StripWithoutBreaks(s[..|s| - 1]);
    }
  }

  /** Neither delimiter of a pair is a line break. */
  predicate PrintableDelimiters(open: char, close: char)
  {
    open != close && open != '\n' && open != '\r' && close != '\n' && close != '\r'
  }

  /** The closing delimiter was found: it ends the captured text. */
  predicate Closed(s: Span, close: char)
  {
    |s.syntax| > 0 && s.syntax[|s.syntax| - 1] == close
  }

  /** Text that begins with the opening delimiter and holds no closing one
      keeps that start, and no closing delimiter, once stripped. */
  lemma StrippedCapture(u: string, open: char, close: char)
    requires PrintableDelimiters(open, close) && u != [] && u[0] == open && close !in u
    ensures Strip(u) != [] && Strip(u)[0] == open && multiset(Strip(u))[close] == 0
  {
    assert u == [u[0]] + u[1..];
    StripCons(u[0], u[1..]);
    StripKeepsOtherChars(u, close);
  }

  /** What one `findSyntax` call captures: the text from the opening delimiter
      at `charPosStart` to the stop position without line breaks, then the
      closing delimiter when there is one; the start and end coordinates are
      those of the opening delimiter and of the stop position. */
  lemma SpanFromShape(t: string, open: char, close: char, pos: nat)
    requires pos <= |t| && PrintableDelimiters(open, close) && open in t[pos..]
    ensures var s := SpanFrom(t, open, close, pos); var q := StopFrom(t, open, close, pos);
      && pos <= s.charPosStart < q
      && t[s.charPosStart] == open
      && s.syntax == Strip(t[s.charPosStart..q]) + (if q < |t| then [close] else [])
      && |s.syntax| > 0 && s.syntax[0] == open
      && SpanKey(s) == PosOf(t, s.charPosStart)
      && Pos(s.endLine, s.endPos) == PosOf(t, q)
      && (Closed(s, close) <==> q < |t|)
      && (q < |t| ==> s.charPosEnd == q && t[q] == close)
      && multiset(s.syntax)[close] == (if q < |t| then 1 else 0)
  {
    var p := FirstFrom(t, open, pos);
    var q := FirstFrom(t, close, p);
    FirstFromIsFirst(t, open, pos);
    FirstFromIsFirst(t, close, p);
    assert t[p] == open;
    var u := t[p..q];
    assert u[0] == open;
    assert forall k :: 0 <= k < |u| ==> u[k] == t[p + k];
    StrippedCapture(u, open, close);
    var body := Strip(u);
    var s := SpanFrom(t, open, close, pos);
    assert s.syntax == body + (if q < |t| then [close] else []);
    if q == |t| {
      assert body[|body| - 1] in multiset(body);
    }
  }

  /** The facts about one span that the pass lemmas use. */
  lemma SpanFromStart(t: string, open: char, close: char, pos: nat)
    requires pos <= |t| && PrintableDelimiters(open, close) && open in t[pos..]
    ensures var s := SpanFrom(t, open, close, pos); var q := StopFrom(t, open, close, pos);
      && pos <= s.charPosStart < q && t[s.charPosStart] == open
      && SpanKey(s) == PosOf(t, s.charPosStart)
      && (q < |t| ==> Closed(s, close))
  {
    SpanFromShape(t, open, close, pos);
  }

  /** The spans of a pass from `pos` on, once the first is split off. */
  lemma ScanFromUnfold(t: string, open: char, close: char, pos: nat)
    requires pos <= |t| && open != close && open in t[pos..] && close in t[pos..]
    ensures var r := ScanFrom(t, open, close, pos); var q := StopFrom(t, open, close, pos);
      && r != [] && r[0] == SpanFrom(t, open, close, pos) && r[1..] == ScanFrom(t, open, close, q)
      && (q == |t| ==> |r| == 1)
  {
    var q := StopFrom(t, open, close, pos);
    if q == |t| {
      assert t[q..] == [];
    }
  }

  /** Span `s` starts at an opening delimiter at or after `pos`, and carries
      that delimiter's coordinates. */
  predicate OpensAt(t: string, open: char, pos: nat, s: Span)
  {
    pos <= s.charPosStart < |t| && t[s.charPosStart] == open && SpanKey(s) == PosOf(t, s.charPosStart)
  }

  /** Every span of a pass from `pos` on starts at an opening delimiter after
      `pos`, and carries that delimiter's coordinates. */
  lemma {:induction false} ScanFromStarts(t: string, open: char, close: char, pos: nat)
    requires pos <= |t| && PrintableDelimiters(open, close)
    ensures forall i :: 0 <= i < |ScanFrom(t, open, close, pos)| ==>
              OpensAt(t, open, pos, ScanFrom(t, open, close, pos)[i])
    decreases |t| - pos
  {
    if open in t[pos..] && close in t[pos..] {
      var q := StopFrom(t, open, close, pos);
      SpanFromStart(t, open, close, pos);
      ScanFromUnfold(t, open, close, pos);
      ScanFromStarts(t, open, close, q);
      var r := ScanFrom(t, open, close, pos);
      forall i | 0 < i < |r|
        ensures r[i] == r[1..][i - 1]
      {
      }
    }
  }

  /** The spans of a pass start at strictly increasing indices. */
  lemma {:induction false} ScanFromIncreasing(t: string, open: char, close: char, pos: nat)
    requires pos <= |t| && PrintableDelimiters(open, close)
    ensures forall i, j :: 0 <= i < j < |ScanFrom(t, open, close, pos)| ==>
              ScanFrom(t, open, close, pos)[i].charPosStart < ScanFrom(t, open, close, pos)[j].charPosStart
    decreases |t| - pos
  {
    if open in t[pos..] && close in t[pos..] {
      var q := StopFrom(t, open, close, pos);
      SpanFromStart(t, open, close, pos);
      ScanFromUnfold(t, open, close, pos);
      ScanFromStarts(t, open, close, q);
      ScanFromIncreasing(t, open, close, q);
      var r := ScanFrom(t, open, close, pos);
      forall i | 0 < i < |r|
        ensures r[i] == r[1..][i - 1]
      {
      }
    }
  }

  /** Only the last span of a pass can lack its closing delimiter. */
  lemma {:induction false} ScanFromClosedButLast(t: string, open: char, close: char, pos: nat)
    requires pos <= |t| && PrintableDelimiters(open, close)
    ensures forall i :: 0 <= i < |ScanFrom(t, open, close, pos)| - 1 ==>
              Closed(ScanFrom(t, open, close, pos)[i], close)
    decreases |t| - pos
  {
    if open in t[pos..] && close in t[pos..] {
      var q := StopFrom(t, open, close, pos);
      SpanFromStart(t, open, close, pos);
      ScanFromUnfold(t, open, close, pos);
      ScanFromClosedButLast(t, open, close, q);
      var r := ScanFrom(t, open, close, pos);
      forall i | 0 < i < |r|
        ensures r[i] == r[1..][i - 1]
      {
      }
    }
  }

  /** A pass finds nothing in a text that lacks either of its delimiters; in
      particular an opening delimiter with no closing one anywhere is never
      reported. */
  lemma PassWithoutDelimiterIsSilent(t: string, open: char, close: char)
    requires open != close && (open !in t || close !in t)
    ensures ScanPass(t, open, close) == []
  {
    assert t[0..] == t;
  }

  /** `parse` finds the spans of the `[` pass, then those of the `{` pass. */
  lemma ScanAllIsBothPasses(t: string)
    ensures ScanAll(t) == ScanPass(t, '[', ']') + ScanPass(t, '{', '}')
  {
    var first := Syntaxes[..1];
    assert first == [('[', ']')] && first[..0] == [] && Syntaxes[..1] == first;
    assert ScanPasses(t, first) == [] + ScanPass(t, '[', ']');
  }

  /** Spans starting at increasing indices of one delimiter, followed by spans
      starting at increasing indices of another, have pairwise distinct
      coordinates. */
  lemma TwoRunsKeysDistinct(t: string, a: seq<Span>, b: seq<Span>)
    requires forall i :: 0 <= i < |a| ==> OpensAt(t, '[', 0, a[i])
    requires forall i :: 0 <= i < |b| ==> OpensAt(t, '{', 0, b[i])
    requires forall i, j :: 0 <= i < j < |a| ==> a[i].charPosStart < a[j].charPosStart
    requires forall i, j :: 0 <= i < j < |b| ==> b[i].charPosStart < b[j].charPosStart
    ensures KeysDistinct(a + b, SpanKey)
  {
    var r := a + b;
    forall i, j | 0 <= i < j < |r|
      ensures SpanKey(r[i]) != SpanKey(r[j])
    {
      if j < |a| {
        assert r[i] == a[i] && r[j] == a[j];
      } else if i >= |a| {
        assert r[i] == b[i - |a|] && r[j] == b[j - |a|];
      } else {
        assert r[i] == a[i] && r[j] == b[j - |a|];
      }
      var x, y := r[i].charPosStart, r[j].charPosStart;
      if x < y {
        PosOfStrictlyIncreasing(t, x, y);
      } else {
        PosOfStrictlyIncreasing(t, y, x);
      }
    }
  }

  /** Both passes together: every span starts at a `[` or a `{`, and no two spans
      start at the same coordinate. */
  lemma ScanAllKeysDistinct(t: string)
    ensures forall i :: 0 <= i < |ScanAll(t)| ==>
              OpensAt(t, '[', 0, ScanAll(t)[i]) || OpensAt(t, '{', 0, ScanAll(t)[i])
    ensures KeysDistinct(ScanAll(t), SpanKey)
  {
    var a := ScanFrom(t, '[', ']', 0);
    var b := ScanFrom(t, '{', '}', 0);
    ScanAllIsBothPasses(t);
    ScanFromStarts(t, '[', ']', 0);
    ScanFromStarts(t, '{', '}', 0);
    ScanFromIncreasing(t, '[', ']', 0);
    ScanFromIncreasing(t, '{', '}', 0);
    TwoRunsKeysDistinct(t, a, b);
    forall i | 0 <= i < |a + b|
      ensures OpensAt(t, '[', 0, (a + b)[i]) || OpensAt(t, '{', 0, (a + b)[i])
    {
      if i >= |a| {
        assert (a + b)[i] == b[i - |a|];
      }
    }
  }

  /** The state the closures of `parse` share. */
  class Parser {
    const chars: string       // textToChars
    var toShift: string       // textToShift, the unscanned suffix
    var textPos: nat
    var startLine: nat
    var lineNum: nat

    /** The shifted array is always the suffix from the cursor. */
    ghost predicate Valid()
      reads this
    {
      textPos <= |chars| && toShift == chars[textPos..]
    }

    constructor (text: string)
      ensures Valid()
      ensures chars == text && toShift == text
      ensures textPos == 0 && startLine == 0 && lineNum == 0
    {
      chars := text;
      toShift := text;
      textPos := 0;
      startLine := 0;
      lineNum := 0;
    }

    /** Shifts one character off the suffix and advances the cursor. */
    method NextSymbol()
      requires Valid() && textPos < |chars|
      modifies this
      ensures Valid()
      ensures textPos == old(textPos) + 1 && toShift == old(toShift)[1..]
      ensures startLine == old(startLine) && lineNum == old(lineNum)
    {
      toShift := toShift[1..];
      textPos := textPos + 1;
    }

    /** Whether the cursor is on a line feed (false past the end). */
    predicate NewLineCheck(): (r: bool)
      reads this
      ensures textPos < |chars| ==> (r <==> LineOf(chars, textPos + 1) == LineOf(chars, textPos) + 1)
      ensures textPos >= |chars| ==> !r
    {
      if textPos < |chars| then PosOfStep(chars, textPos); chars[textPos] == '\n' else false
    }

    /** The first loop of `findSyntax`: skips every character up to the next
        `charOpen`, keeping `startLine` and the returned column on the cursor. */
    method SkipToOpen(charOpen: char, end: nat) returns (startPos: nat)
      requires Valid()
      requires startLine == LineOf(chars, textPos) && end == ColOf(chars, textPos)
      modifies this
      ensures Valid()
      ensures textPos == FirstFrom(chars, charOpen, old(textPos))
      ensures startLine == LineOf(chars, textPos) && startPos == ColOf(chars, textPos)
      ensures lineNum == old(lineNum)
    {
      startPos := end;
      ghost var pos0 := textPos;
      while textPos < |chars| && chars[textPos] != charOpen
        invariant Valid() && pos0 <= textPos
        invariant forall k :: pos0 <= k < textPos ==> chars[k] != charOpen
        invariant startLine == LineOf(chars, textPos) && startPos == ColOf(chars, textPos)
        invariant lineNum == old(lineNum)
        decreases |chars| - textPos
      {
        // a line feed starts the next line at column 0; anything else moves one column on
        PosOfStep(chars, textPos);
        if NewLineCheck() {
          startLine := startLine + 1;
          startPos := 0;
        } else {
          startPos := startPos + 1;
        }
        NextSymbol();
      }
      FirstFromUnique(chars, charOpen, pos0, textPos);
    }

    /** The second loop of `findSyntax`: captures every character up to the next
        `charClose`, dropping line feeds and carriage returns, and counts the
        lines crossed in `lineNum`. */
    method CaptureToClose(charClose: char, startPos: nat) returns (builder: string, endPos: nat)
      requires Valid()
      requires startPos == ColOf(chars, textPos)
      modifies this
      ensures Valid() && old(textPos) <= textPos
      ensures textPos == FirstFrom(chars, charClose, old(textPos))
      ensures builder == Strip(chars[old(textPos)..textPos])
      ensures lineNum == old(lineNum) + LineOf(chars, textPos) - LineOf(chars, old(textPos))
      ensures endPos == ColOf(chars, textPos) && startLine == old(startLine)
    {
      builder := "";
      endPos := startPos;
      ghost var pos0 := textPos;
      while textPos < |chars| && chars[textPos] != charClose
        invariant Valid() && pos0 <= textPos
        invariant forall k :: pos0 <= k < textPos ==> chars[k] != charClose
        invariant lineNum == old(lineNum) + LineOf(chars, textPos) - LineOf(chars, pos0)
        invariant endPos == ColOf(chars, textPos) && startLine == old(startLine)
        invariant builder == Strip(chars[pos0..textPos])
        decreases |chars| - textPos
      {
        ghost var p := textPos;
        PosOfStep(chars, p);
        StripExtend(chars, pos0, p);
        if NewLineCheck() {
          lineNum := lineNum + 1;
          endPos := 0;
        } else {
          endPos := endPos + 1;
          if chars[textPos] != '\r' {
            builder := builder + [chars[textPos]];
          }
        }
        assert builder == Strip(chars[pos0..p + 1]);
        NextSymbol();
      }
      FirstFromUnique(chars, charClose, pos0, textPos);
    }

    /** `findSyntax`: skips to the next `charOpen`, then captures up to the next
        `charClose`. The caller keeps `startLine` and `end` on the cursor's line
        and column. */
    method FindSyntax(charOpen: char, charClose: char, end: nat) returns (data: Span)
      requires Valid()
      requires startLine == LineOf(chars, textPos) && end == ColOf(chars, textPos)
      modifies this
      ensures Valid()
      ensures data == SpanFrom(chars, charOpen, charClose, old(textPos))
      ensures textPos == StopFrom(chars, charOpen, charClose, old(textPos))
      ensures startLine == data.startLine && startLine + lineNum == data.endLine
    {
      var endPosChar := textPos;
      lineNum := 0;
      var startPos := SkipToOpen(charOpen, end);
      var startPosChar := textPos;
      var builder, endPos := CaptureToClose(charClose, startPos);

      // only a found closer is appended and recorded as the end index
      if textPos < |chars| && chars[textPos] == charClose {
        builder := builder + [charClose];
        endPosChar := textPos;
      }

      data := Span(builder, startLine, startPos, startLine + lineNum, endPos, startPosChar, endPosChar);
    }

    /** One pass of `parse` for a delimiter pair: the cursor and the counters
        start over, then spans are collected while the unscanned suffix still
        holds both delimiters. */
    method Pass(charOpen: char, charClose: char) returns (spans: seq<Span>)
      requires charOpen != charClose
      modifies this
      ensures Valid()
      ensures spans == ScanPass(chars, charOpen, charClose)
    {
      toShift := chars;
      textPos := 0;
      lineNum := 0;
      startLine := 0;
      // the column the previous span ended at, where the next search starts
      var end := 0;
      spans := [];
      assert chars[0..] == chars;
      while charOpen in toShift && charClose in toShift
        invariant Valid()
        invariant startLine == LineOf(chars, textPos) && end == ColOf(chars, textPos)
        invariant spans + ScanFrom(chars, charOpen, charClose, textPos) == ScanPass(chars, charOpen, charClose)
        decreases |chars| - textPos
      {
        ghost var pos := textPos;
        ScanFromUnfold(chars, charOpen, charClose, pos);
        var data := FindSyntax(charOpen, charClose, end);
        assert ScanFrom(chars, charOpen, charClose, pos) == [data] + ScanFrom(chars, charOpen, charClose, textPos);
        spans := spans + [data];
        end := data.endPos;
        startLine := data.endLine;
      }
    }
  }

  /** Both scanning passes of `parse`, then the sort by position. */
  method Parse(text: string) returns (found: seq<Span>)
    ensures SortedBy(found, SpanKey)
    ensures multiset(found) == multiset(ScanAll(text))
    ensures KeysDistinct(found, SpanKey)
  {
    var p := new Parser(text);
    found := [];
    for i := 0 to |Syntaxes|
      invariant p.chars == text
      invariant found == ScanPasses(text, Syntaxes[..i])
    {
      var spans := p.Pass(Syntaxes[i].0, Syntaxes[i].1);
      found := found + spans;
      assert Syntaxes[..i + 1][..i] == Syntaxes[..i];
    }
    assert Syntaxes[..|Syntaxes|] == Syntaxes;
    found := SortByPosition(found, SpanKey);
    ScanAllKeysDistinct(text);
    PermutationKeepsKeysDistinct(found, ScanAll(text), SpanKey);
  }
}
