/** The token classifier of `readFileContents` (extension.ts): gives every
    scanned span a code and collects the ones that are errors on their own. */
module Classifier {
  import opened Positions
  import opened Sorting
  import opened Scanner
  import opened Checks

  /** The codes of the `type` field. */
  const Ignored: int := -1
  const Opening: int := 0          // `[#if ...]` with a valid condition
  const Closing: int := 1          // `[/#if]`
  const MissingDollar: int := 2    // `{...}` not preceded by `$`
  const Malformed: int := 3        // wrong `#` or `/` count, or a missing bracket
  const BadOperator: int := 4      // a lone `=`, `!`, `|` or `&` in a condition

  /** A classified span (`MatchedObj`). */
  datatype Match = Match(code: int, span: Span)

  function MatchKey(m: Match): Pos
  {
    SpanKey(m.span)
  }

  /** `s.includes(sub)`. */
  predicate Contains(s: string, sub: string)
    decreases |s|
  {
    |sub| <= |s| && (s[..|sub|] == sub || Contains(s[1..], sub))
  }

  /** Whether the document character just before index `p` is `$`; there is no
      character before the start. */
  predicate PrecededByDollar(text: string, p: nat)
  {
    0 < p <= |text| && text[p - 1] == '$'
  }

  /** The captured text has both square brackets or neither. */
  predicate BracketsAgree(s: string)
  {
    ('[' in s) == (']' in s)
  }

  /** The code of span `sp` of document `text`. The first three rules are tried
      in order; then the structural override to Malformed applies to whatever
      they gave. */
  function Classify(text: string, sp: Span): (code: int)
    ensures Ignored <= code <= BadOperator
  {
    var s := sp.syntax;
    var first :=
      if Contains(s, "#if") && !Contains(s, "/#if") then
        (if WellFormedOperators(s) then Opening else BadOperator)
      else if Contains(s, "/#if") then Closing
      else if '{' in s && !PrecededByDollar(text, sp.charPosStart) && '%' !in s then MissingDollar
      else Ignored;
    if ((first == Opening || first == Closing) && multiset(s)['#'] != 1)
       || (Contains(s, "/#if") && multiset(s)['/'] != 1)
       || !BracketsAgree(s)
    then Malformed
    else first
  }

  /** The tokens in scan order, each with its code. */
  function Tags(text: string, spans: seq<Span>): (r: seq<Match>)
    ensures |r| == |spans|
  {
    seq(|spans|, i requires 0 <= i < |spans| => Match(Classify(text, spans[i]), spans[i]))
  }

  /** The tokens that are errors on their own (code above Closing), in order. */
  function Errors(order: seq<Match>): (r: seq<Match>)
    ensures forall m :: m in r <==> m in order && m.code > Closing
  {
    if order == [] then []
    else
      var last := order[|order| - 1];
      assert order == order[..|order| - 1] + [last];
      Errors(order[..|order| - 1]) + (if last.code > Closing then [last] else [])
  }

  /** The body of the classification loop of `readFileContents`: the code
      of one span, computed with the two checks. */
  method ClassifyMatch(text: string, matched: Span) returns (code: int)
    ensures code == Classify(text, matched)
  {
    var s := matched.syntax;
    // a span no rule matches stays Ignored
    code := Ignored;
    if Contains(s, "#if") && !Contains(s, "/#if") {
      // the operator check decides between Opening and BadOperator
      code := ValidateOperators(s);
    } else if Contains(s, "/#if") {
      code := Closing;
    } else if '{' in s && !PrecededByDollar(text, matched.charPosStart) && '%' !in s {
      code := MissingDollar;
    }
    var hashCountWrong := ValidateMatch(s, '#');
    var slashCountWrong := ValidateMatch(s, '/');
    if ((code == Opening || code == Closing) && hashCountWrong)
       || (Contains(s, "/#if") && slashCountWrong)
       || (!('[' in s) && ']' in s) || ('[' in s && !(']' in s)) {
      code := Malformed;
    }
  }

  /** Tagging one more span appends its token. */
  lemma TagsSnoc(text: string, spans: seq<Span>, i: nat)
    requires i < |spans|
    ensures Tags(text, spans[..i + 1]) == Tags(text, spans[..i]) + [Match(Classify(text, spans[i]), spans[i])]
  {
  }

  /** One more token adds it to the errors exactly when its code is above Closing. */
  lemma ErrorsSnoc(order: seq<Match>, m: Match)
    ensures Errors(order + [m]) == Errors(order) + (if m.code > Closing then [m] else [])
  {
    assert (order + [m])[..|order + [m]| - 1] == order;
  }

  /** The classification loop of `readFileContents`: every span goes into
      `order` with its code, and the error tokens into `stack` as well. */
  method ClassifyAll(text: string, tmp: seq<Span>) returns (order: seq<Match>, stack: seq<Match>)
    ensures order == Tags(text, tmp)
    ensures stack == Errors(order)
  {
    order := [];
    stack := [];
    for i := 0 to |tmp|
      invariant order == Tags(text, tmp[..i])
      invariant stack == Errors(order)
    {
      var code := ClassifyMatch(text, tmp[i]);
      var toPush := Match(code, tmp[i]);
      TagsSnoc(text, tmp, i);
      ErrorsSnoc(order, toPush);
      order := order + [toPush];
      // codes above Closing are findings whatever the pairing does
      if code > Closing {
        stack := stack + [toPush];
      }
    }
    assert tmp[..|tmp|] == tmp;
  }

  /** Tagging keeps the scan order and the coordinates. */
  lemma TagsKeepOrder(text: string, spans: seq<Span>)
    ensures SortedBy(spans, SpanKey) ==> SortedBy(Tags(text, spans), MatchKey)
    ensures KeysDistinct(spans, SpanKey) ==> KeysDistinct(Tags(text, spans), MatchKey)
    ensures forall i :: 0 <= i < |spans| ==> Tags(text, spans)[i].span == spans[i]
  {
  }

  /** Text lacking the first character of `sub` does not contain `sub`. */
  lemma {:induction false} MissingCharNotContained(s: string, sub: string)
    requires |sub| > 0 && sub[0] !in s
    ensures !Contains(s, sub)
    decreases |s|
  {
    if |sub| <= |s| {
      assert s[..|sub|][0] == s[0];
      assert forall k :: 1 <= k < |s| ==> s[1..][k - 1] == s[k];
      MissingCharNotContained(s[1..], sub);
    }
  }

  /** A closing marker contains an opening one, so the third rule only sees
      text without `#if`. */
  lemma {:induction false} ClosingMarkerContainsOpening(s: string)
    requires Contains(s, "/#if")
    ensures Contains(s, "#if")
    decreases |s|
  {
    if s[..4] == "/#if" {
      assert s[1..][..3] == "#if";
    } else {
      ClosingMarkerContainsOpening(s[1..]);
    }
  }

  /** The decision table: what each code means about the captured text. */
  lemma ClassifyTable(text: string, sp: Span)
    ensures var s := sp.syntax; var code := Classify(text, sp);
      && (code == Opening <==>
            Contains(s, "#if") && !Contains(s, "/#if") && WellFormedOperators(s)
            && multiset(s)['#'] == 1 && BracketsAgree(s))
      && (code == BadOperator <==>
            Contains(s, "#if") && !Contains(s, "/#if") && !WellFormedOperators(s) && BracketsAgree(s))
      && (code == Closing <==>
            Contains(s, "/#if") && multiset(s)['#'] == 1 && multiset(s)['/'] == 1 && BracketsAgree(s))
      && (code == MissingDollar <==>
            !Contains(s, "#if") && '{' in s && !PrecededByDollar(text, sp.charPosStart) && '%' !in s
            && BracketsAgree(s))
      && (code == Ignored <==>
            !Contains(s, "#if") && !('{' in s && !PrecededByDollar(text, sp.charPosStart) && '%' !in s)
            && BracketsAgree(s))
  {
    if Contains(sp.syntax, "/#if") {
      ClosingMarkerContainsOpening(sp.syntax);
    }
  }

  /** The operator check decides only opening tokens: a token with a bad
      operator is BadOperator even when its `#` count is wrong. */
  lemma BadOperatorEscapesHashCount(text: string, sp: Span)
    requires Contains(sp.syntax, "#if") && !Contains(sp.syntax, "/#if")
    requires !WellFormedOperators(sp.syntax) && BracketsAgree(sp.syntax)
    ensures Classify(text, sp) == BadOperator
  {
  }
}
