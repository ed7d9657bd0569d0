/** `readFileContents` of extension.ts: scan the active HTML document, classify
    the spans and run the balance check over them. */
module Analysis {
  import opened Wrappers
  import opened Positions
  import opened Sorting
  import opened Scanner
  import opened Checks
  import opened Classifier
  import opened BalanceChecker

  /** The active text editor: the document's file name and its text. */
  datatype Editor = Editor(fileName: string, text: string)

  /** Only files whose name ends in `.html` are analysed. */
  predicate IsHtml(fileName: string): (r: bool)
    ensures r <==> |fileName| >= 5 && fileName == fileName[..|fileName| - 5] + ".html"
  {
    |fileName| >= 5 && fileName[|fileName| - 5..] == ".html"
  }

  /** The findings for the active editor, sorted by position. With no editor,
      or a file that is not HTML, there are none. Otherwise `spans` is what
      `parse` returns, and the findings are the stack the balance loop leaves
      when it starts from the error tokens and runs over the classified spans. */
  method ReadFileContents(editor: Option<Editor>) returns (results: seq<Match>, ghost spans: seq<Span>)
    ensures !(editor.Some? && IsHtml(editor.value.fileName)) ==> results == [] && spans == []
    ensures editor.Some? && IsHtml(editor.value.fileName) ==>
              && SortedBy(spans, SpanKey) && KeysDistinct(spans, SpanKey)
              && multiset(spans) == multiset(ScanAll(editor.value.text))
    ensures SortedBy(results, MatchKey)
    ensures editor.Some? && IsHtml(editor.value.fileName) ==>
              var order := Tags(editor.value.text, spans);
              multiset(results) == multiset(Balance(Errors(order), order))
    ensures editor.Some? && IsHtml(editor.value.fileName) ==>
              var order := Tags(editor.value.text, spans);
              && (forall m :: m in Errors(order) ==> m in results)
              && (forall m :: m in results ==> m in order && m.code != Ignored)
  {
    var order: seq<Match> := [];
    var stack: seq<Match> := [];
    spans := [];
    // with no editor or a file name not ending in `.html`, nothing is scanned
    if editor.Some? && IsHtml(editor.value.fileName) {
      var text := editor.value.text;
      var tmp := Parse(text);
      spans := tmp;
      order, stack := ClassifyAll(text, tmp);
      TagsKeepOrder(text, tmp);
    }
    ghost var sortedOrder;
    results, sortedOrder := CheckBalance(order, stack);
    if editor.Some? && IsHtml(editor.value.fileName) {
      FindingsComeFromTokens(order, results);
    }
  }

  /** Findings that are a rearrangement of the balance loop's stack include every
      error token and consist of classified spans with a code other than -1. */
  lemma FindingsComeFromTokens(order: seq<Match>, results: seq<Match>)
    requires multiset(results) == multiset(Balance(Errors(order), order))
    ensures forall m :: m in Errors(order) ==> m in results
    ensures forall m :: m in results ==> m in order && m.code != Ignored
  {
    var left := Balance(Errors(order), order);
    ErrorsStayReported(order);
    forall m | m in Errors(order)
      ensures m in results
    {
      var i :| 0 <= i < |Errors(order)| && Errors(order)[i] == m;
      assert left[i] == m;
      assert m in multiset(left);
    }
    forall m | m in results
      ensures m in left
    {
      assert m in multiset(results);
    }
  }

  /** The opener of the nested block below: `[#if a==b]` on line 0. */
  lemma NestedBlockOpener(t: string)
    requires t == "[#if a==b]\nhello\n[/#if]"
    ensures SpanFrom(t, '[', ']', 0) == Span("[#if a==b]", 0, 0, 0, 9, 0, 9)
    ensures StopFrom(t, '[', ']', 0) == 9
  {
    FirstFromUnique(t, '[', 0, 0);
    FirstFromUnique(t, ']', 0, 9);
    assert t[0..9] == "[#if a==b";
    StripWithoutBreaks(t[0..9]);
    PosOfAcrossLine(t, 0, 9);
  }

  /** The third line of the nested block starts at index 17. */
  lemma NestedBlockThirdLine(t: string)
    requires t == "[#if a==b]\nhello\n[/#if]"
    ensures PosOf(t, 17) == Pos(2, 0)
  {
    PosOfAcrossLine(t, 0, 10);
    PosOfStep(t, 10);
    PosOfAcrossLine(t, 11, 16);
    PosOfStep(t, 16);
  }

  /** The closer of the nested block, found from the opener's closing bracket
      on: `[/#if]` on line 2. */
  lemma NestedBlockCloser(t: string)
    requires t == "[#if a==b]\nhello\n[/#if]"
    ensures SpanFrom(t, '[', ']', 9) == Span("[/#if]", 2, 0, 2, 5, 17, 22)
    ensures StopFrom(t, '[', ']', 9) == 22
  {
    FirstFromUnique(t, '[', 9, 17);
    FirstFromUnique(t, ']', 17, 22);
    assert t[17..22] == "[/#if";
    StripWithoutBreaks(t[17..22]);
    NestedBlockThirdLine(t);
    PosOfAcrossLine(t, 17, 22);
  }

  /** The nested block has no braces, so its `{` pass finds nothing. */
  lemma NestedBlockBracePass(t: string)
    requires t == "[#if a==b]\nhello\n[/#if]"
    ensures ScanPass(t, '{', '}') == []
  {
    assert forall k :: 0 <= k < |t| ==> t[k] != '{';
    PassWithoutDelimiterIsSilent(t, '{', '}');
  }

  /** The `[` pass of the nested block: the opener, then the closer. */
  lemma NestedBlockBracketPass(t: string)
    requires t == "[#if a==b]\nhello\n[/#if]"
    ensures ScanPass(t, '[', ']') == [Span("[#if a==b]", 0, 0, 0, 9, 0, 9), Span("[/#if]", 2, 0, 2, 5, 17, 22)]
  {
    NestedBlockOpener(t);
    NestedBlockCloser(t);
    assert t[0..][0] == '[' && t[0..][9] == ']';
    ScanFromUnfold(t, '[', ']', 0);
    assert t[9..][8] == '[' && t[9..][0] == ']';
    ScanFromUnfold(t, '[', ']', 9);
    assert t[22..] == "]";
    assert ScanFrom(t, '[', ']', 22) == [];
  }

  /** A correctly nested `#if` block spread over three lines has two spans,
      the opener on line 0 and the closer on line 2. */
  lemma NestedBlockScan(t: string)
    requires t == "[#if a==b]\nhello\n[/#if]"
    ensures ScanAll(t) == [Span("[#if a==b]", 0, 0, 0, 9, 0, 9), Span("[/#if]", 2, 0, 2, 5, 17, 22)]
  {
    ScanAllIsBothPasses(t);
    NestedBlockBracketPass(t);
    NestedBlockBracePass(t);
  }

  /** The text of its first span is an opening marker ... */
  lemma NestedBlockOpenerMarker()
    ensures Contains("[#if a==b]", "#if") && !Contains("[#if a==b]", "/#if")
  {
    assert "[#if a==b]"[1..][..3] == "#if";
    assert '/' !in "[#if a==b]";
    MissingCharNotContained("[#if a==b]", "/#if");
  }

  /** ... with a well-formed condition ... */
  lemma NestedBlockOpenerCondition()
    ensures WellFormedOperators("[#if a==b]")
  {
  }

  /** ... one `#` and both brackets. */
  lemma NestedBlockOpenerStructure(s: string)
    requires s == "[#if a==b]"
    ensures multiset(s)['#'] == 1 && BracketsAgree(s)
  {
    SingleOccurrence(s, '#', 1);
    assert s[0] == '[' && s[9] == ']';
  }

  /** So its first span classifies as an opener. */
  lemma NestedBlockOpenerCode(t: string, sp: Span)
    requires sp == Span("[#if a==b]", 0, 0, 0, 9, 0, 9)
    ensures Classify(t, sp) == Opening
  {
    NestedBlockOpenerMarker();
    NestedBlockOpenerCondition();
    NestedBlockOpenerStructure(sp.syntax);
    ClassifyTable(t, sp);
  }

  /** The text of its second span is a closing marker ... */
  lemma NestedBlockCloserMarker()
    ensures Contains("[/#if]", "/#if")
  {
    assert "[/#if]"[1..][..4] == "/#if";
  }

  /** ... with one `#`, one `/` and both brackets. */
  lemma NestedBlockCloserStructure(s: string)
    requires s == "[/#if]"
    ensures multiset(s)['#'] == 1 && multiset(s)['/'] == 1 && BracketsAgree(s)
  {
    SingleOccurrence(s, '/', 1);
    SingleOccurrence(s, '#', 2);
    assert s[0] == '[' && s[5] == ']';
  }

  /** So its second span classifies as a closer. */
  lemma NestedBlockCloserCode(t: string, sp: Span)
    requires sp == Span("[/#if]", 2, 0, 2, 5, 17, 22)
    ensures Classify(t, sp) == Closing
  {
    NestedBlockCloserMarker();
    NestedBlockCloserStructure(sp.syntax);
    ClassifyTable(t, sp);
  }

  /** An opener followed by a closer leaves no finding. */
  lemma OpenerThenCloserCancel(opener: Span, closer: Span)
    ensures var order := [Match(Opening, opener), Match(Closing, closer)];
      Balance(Errors(order), order) == []
  {
    var order := [Match(Opening, opener), Match(Closing, closer)];
    var first := order[..1];
    assert first[..0] == [];
    assert Errors(first) == [];
    assert Errors(order) == Errors(first);
    assert order[1..] == [order[1]] && order[1..][1..] == [];
    assert Balance([], order) == Balance([order[0]], order[1..]) == Balance([], []);
  }

  /** After a closed span the cursor rests on its closer, so the guard still
      sees a closer and the pass goes on: in `[a] [#if x` the opener at index 4
      has no closer after it and is still captured, up to the end. */
  lemma UnclosedTailFirst(t: string)
    requires t == "[a] [#if x"
    ensures SpanFrom(t, '[', ']', 0) == Span("[a]", 0, 0, 0, 2, 0, 2)
    ensures StopFrom(t, '[', ']', 0) == 2
  {
    FirstFromUnique(t, '[', 0, 0);
    FirstFromUnique(t, ']', 0, 2);
    assert t[0..2] == "[a";
    StripWithoutBreaks(t[0..2]);
    PosOfAcrossLine(t, 0, 2);
  }

  /** `[a] [#if x` is one line, so index and column agree. */
  lemma UnclosedTailOneLine(t: string)
    requires t == "[a] [#if x"
    ensures PosOf(t, 4) == Pos(0, 4) && PosOf(t, 10) == Pos(0, 10)
  {
    PosOfAcrossLine(t, 0, 4);
    PosOfAcrossLine(t, 0, 10);
  }

  lemma UnclosedTailSecond(t: string)
    requires t == "[a] [#if x"
    ensures SpanFrom(t, '[', ']', 2) == Span("[#if x", 0, 4, 0, 10, 4, 2)
    ensures StopFrom(t, '[', ']', 2) == 10
  {
    FirstFromUnique(t, '[', 2, 4);
    FirstFromUnique(t, ']', 4, 10);
    assert t[4..10] == "[#if x";
    StripWithoutBreaks(t[4..10]);
    UnclosedTailOneLine(t);
  }

  /** The `[` pass of `[a] [#if x` reports the unclosed opener, without its
      closer and with `charPosEnd` left at the cursor the call started from. */
  lemma UnclosedTailPass(t: string)
    requires t == "[a] [#if x"
    ensures ScanPass(t, '[', ']') == [Span("[a]", 0, 0, 0, 2, 0, 2), Span("[#if x", 0, 4, 0, 10, 4, 2)]
  {
    UnclosedTailFirst(t);
    UnclosedTailSecond(t);
    assert t[0..][0] == '[' && t[0..][2] == ']';
    ScanFromUnfold(t, '[', ']', 0);
    assert t[2..][2] == '[' && t[2..][0] == ']';
    ScanFromUnfold(t, '[', ']', 2);
  }

  /** That span has a `[` and no `]`, so it is Malformed. */
  lemma UnclosedTailIsMalformed(t: string, sp: Span)
    requires sp == Span("[#if x", 0, 4, 0, 10, 4, 2)
    ensures Classify(t, sp) == Malformed
  {
    assert sp.syntax[0] == '[' && ']' !in sp.syntax;
  }

  /** Whatever sort produced them, the sorted spans of the nested block are
      its opener and its closer, in that order. */
  lemma NestedBlockSpans(t: string, spans: seq<Span>)
    requires t == "[#if a==b]\nhello\n[/#if]"
    requires SortedBy(spans, SpanKey) && multiset(spans) == multiset(ScanAll(t))
    ensures spans == [Span("[#if a==b]", 0, 0, 0, 9, 0, 9), Span("[/#if]", 2, 0, 2, 5, 17, 22)]
  {
    var both := [Span("[#if a==b]", 0, 0, 0, 9, 0, 9), Span("[/#if]", 2, 0, 2, 5, 17, 22)];
    NestedBlockScan(t);
    assert SpanKey(both[0]) == Pos(0, 0) && SpanKey(both[1]) == Pos(2, 0);
    SortedPermutationUnique(both, spans, SpanKey);
  }

  /** Tagging two spans gives their two tokens. */
  lemma TagsOfTwo(text: string, a: Span, b: Span)
    ensures Tags(text, [a, b]) == [Match(Classify(text, a), a), Match(Classify(text, b), b)]
  {
  }

  /** ... and they classify as an opener and a closer. */
  lemma NestedBlockTags(t: string, spans: seq<Span>)
    requires t == "[#if a==b]\nhello\n[/#if]"
    requires SortedBy(spans, SpanKey) && multiset(spans) == multiset(ScanAll(t))
    ensures Tags(t, spans) == [Match(Opening, Span("[#if a==b]", 0, 0, 0, 9, 0, 9)),
                               Match(Closing, Span("[/#if]", 2, 0, 2, 5, 17, 22))]
  {
    var opener := Span("[#if a==b]", 0, 0, 0, 9, 0, 9);
    var closer := Span("[/#if]", 2, 0, 2, 5, 17, 22);
    NestedBlockSpans(t, spans);
    NestedBlockOpenerCode(t, opener);
    NestedBlockCloserCode(t, closer);
    TagsOfTwo(t, opener, closer);
  }

  /** The nested block yields no findings: its opener and closer cancel. */
  lemma NestedBlockIsClean(t: string, results: seq<Match>, spans: seq<Span>)
    requires t == "[#if a==b]\nhello\n[/#if]"
    requires SortedBy(spans, SpanKey) && multiset(spans) == multiset(ScanAll(t))
    requires multiset(results) == multiset(Balance(Errors(Tags(t, spans)), Tags(t, spans)))
    ensures results == []
  {
    NestedBlockTags(t, spans);
    OpenerThenCloserCancel(Span("[#if a==b]", 0, 0, 0, 9, 0, 9), Span("[/#if]", 2, 0, 2, 5, 17, 22));
    assert multiset(results) == multiset([]);
  }
}
