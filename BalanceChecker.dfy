/** The stack machine of `readFileContents` (extension.ts) that pairs opening
    and closing `#if` tokens in document order. */
module BalanceChecker {
  import opened Positions
  import opened Sorting
  import opened Classifier

  /** One turn of the stack loop: an opener is pushed; a closer pops an opener
      on top and is pushed otherwise; every other token leaves the stack alone. */
  function Step(stack: seq<Match>, current: Match): (r: seq<Match>)
    ensures r != stack <==> current.code == Opening || current.code == Closing
    ensures |r| == |stack| + 1 ==> r == stack + [current]
    ensures |r| < |stack| ==> current.code == Closing && r + [stack[|stack| - 1]] == stack
                              && stack[|stack| - 1].code == Opening
    ensures |stack| - 1 <= |r| <= |stack| + 1
  {
    if current.code == Opening then stack + [current]
    else if current.code == Closing && |stack| == 0 then stack + [current]
    else if current.code == Closing && stack[|stack| - 1].code == Opening then stack[..|stack| - 1]
    else if current.code == Closing then stack + [current]
    else stack
  }

  /** The stack after running the loop over `order` from `stack`. */
  function Balance(stack: seq<Match>, order: seq<Match>): (r: seq<Match>)
    ensures |stack| - |order| <= |r| <= |stack| + |order|
    decreases |order|
  {
    if order == [] then stack else Balance(Step(stack, order[0]), order[1..])
  }

  /** Errors at the bottom, then closers, then openers on top. */
  function Rank(m: Match): nat
  {
    if m.code == Opening then 2 else if m.code == Closing then 1 else 0
  }

  ghost predicate Layered(stack: seq<Match>)
  {
    forall i, j :: 0 <= i < j < |stack| ==> Rank(stack[i]) <= Rank(stack[j])
  }

  /** Number of openers, and of closers, in `s`. */
  function Opens(s: seq<Match>): nat
  {
    if s == [] then 0 else (if s[0].code == Opening then 1 else 0) + Opens(s[1..])
  }

  function Closes(s: seq<Match>): nat
  {
    if s == [] then 0 else (if s[0].code == Closing then 1 else 0) + Closes(s[1..])
  }

  /** Openers and closers pair up like parentheses: no prefix has more closers
      than openers, and the whole has as many of each. */
  ghost predicate WellNested(order: seq<Match>)
  {
    && (forall k :: 0 <= k <= |order| ==> Closes(order[..k]) <= Opens(order[..k]))
    && Opens(order) == Closes(order)
  }

  /** The stack loop and the final sort of `readFileContents`. The tokens are
      sorted first; the loop starts from the error tokens. */
  method CheckBalance(order0: seq<Match>, errors: seq<Match>) returns (result: seq<Match>, ghost order: seq<Match>)
    ensures SortedBy(order, MatchKey) && multiset(order) == multiset(order0)
    ensures SortedBy(order0, MatchKey) ==> order == order0
    ensures SortedBy(result, MatchKey)
    ensures multiset(result) == multiset(Balance(errors, order))
  {
    // the tokens may arrive out of document order: the `{` pass comes second
    var ordered := SortByPosition(order0, MatchKey);
    order := ordered;
    var stack := errors;
    for i := 0 to |ordered|
      invariant Balance(stack, ordered[i..]) == Balance(errors, ordered)
    {
      var current := ordered[i];
      assert ordered[i..][1..] == ordered[i + 1..];
      if current.code == Opening {
        stack := stack + [current];
      } else if current.code == Closing && |stack| == 0 {
        stack := stack + [current];
      } else if current.code == Closing && stack[|stack| - 1].code == Opening {
        stack := stack[..|stack| - 1];
      } else if current.code == Closing {
        stack := stack + [current];
      }
    }
    result := SortByPosition(stack, MatchKey);
  }

  /** The error tokens alone are a layered stack. */
  lemma ErrorsAreLayered(order: seq<Match>)
    ensures Layered(Errors(order))
  {
    forall i | 0 <= i < |Errors(order)|
      ensures Rank(Errors(order)[i]) == 0
    {
      assert Errors(order)[i] in Errors(order);
    }
  }

  lemma StepKeepsLayered(stack: seq<Match>, current: Match)
    requires Layered(stack)
    ensures Layered(Step(stack, current))
  {
    if current.code == Closing && |stack| > 0 && stack[|stack| - 1].code != Opening {
      assert Rank(stack[|stack| - 1]) <= 1;
    }
  }

  /** The loop keeps the stack in the shape errors, closers, openers: no opener
      ever lies below a closer or an error token. */
  lemma {:induction false} BalanceKeepsLayered(stack: seq<Match>, order: seq<Match>)
    requires Layered(stack)
    ensures Layered(Balance(stack, order))
    decreases |order|
  {
    if order != [] {
      StepKeepsLayered(stack, order[0]);
      BalanceKeepsLayered(Step(stack, order[0]), order[1..]);
    }
  }

  /** Running over `x + y` is running over `x`, then over `y`. */
  lemma {:induction false} BalanceAppend(stack: seq<Match>, x: seq<Match>, y: seq<Match>)
    ensures Balance(stack, x + y) == Balance(Balance(stack, x), y)
    decreases |x|
  {
    if x == [] {
      assert x + y == y;
    } else {
      assert (x + y)[0] == x[0] && (x + y)[1..] == x[1..] + y;
      BalanceAppend(Step(stack, x[0]), x[1..], y);
    }
  }

  /** The general pairing fact: above a run `openers` of opening tokens, an
      order that never closes more than is open leaves `stack` untouched and
      a run of openers whose length is what the counts say. */
  lemma {:induction false} BalanceOverOpeners(stack: seq<Match>, openers: seq<Match>, order: seq<Match>)
    requires forall i :: 0 <= i < |openers| ==> openers[i].code == Opening
    requires forall k :: 0 <= k <= |order| ==> Closes(order[..k]) <= |openers| + Opens(order[..k])
    ensures var r := Balance(stack + openers, order);
      && |r| == |stack| + |openers| + Opens(order) - Closes(order)
      && |stack| <= |r| && r[..|stack|] == stack
      && forall i :: |stack| <= i < |r| ==> r[i].code == Opening
    decreases |order|
  {
    if order == [] {
      assert order[..0] == [];
    } else {
      var m := order[0];
      forall k | 0 <= k <= |order| - 1
        ensures Opens(order[..k + 1]) == (if m.code == Opening then 1 else 0) + Opens(order[1..][..k])
        ensures Closes(order[..k + 1]) == (if m.code == Closing then 1 else 0) + Closes(order[1..][..k])
      {
        assert order[..k + 1][0] == m && order[..k + 1][1..] == order[1..][..k];
      }
      assert order[..|order|] == order && order[1..][..|order| - 1] == order[1..];
      if m.code == Opening {
        assert Step(stack + openers, m) == stack + (openers + [m]);
        BalanceOverOpeners(stack, openers + [m], order[1..]);
      } else if m.code == Closing {
        assert order[1..][..0] == [];
        assert Closes(order[..1]) <= |openers| + Opens(order[..1]);
        assert |openers| >= 1;
        assert Step(stack + openers, m) == stack + openers[..|openers| - 1];
        BalanceOverOpeners(stack, openers[..|openers| - 1], order[1..]);
      } else {
        BalanceOverOpeners(stack, openers, order[1..]);
      }
    }
  }

  /** Correctly nested openers and closers cancel completely. */
  lemma NestedPairsCancel(stack: seq<Match>, order: seq<Match>)
    requires WellNested(order)
    ensures Balance(stack, order) == stack
  {
    assert stack + [] == stack;
    BalanceOverOpeners(stack, [], order);
  }

  /** A single opener between two well-nested runs is the only thing left
      above the starting stack. */
  lemma OneUnmatchedOpener(stack: seq<Match>, before: seq<Match>, opener: Match, after: seq<Match>)
    requires opener.code == Opening && WellNested(before) && WellNested(after)
    ensures Balance(stack, before + [opener] + after) == stack + [opener]
  {
    BalanceAppend(stack, before + [opener], after);
    BalanceAppend(stack, before, [opener]);
    NestedPairsCancel(stack, before);
    NestedPairsCancel(stack + [opener], after);
  }

  /** A single closer between two well-nested runs is the only thing left above
      a starting stack that holds no opener. */
  lemma OneUnmatchedCloser(stack: seq<Match>, before: seq<Match>, closer: Match, after: seq<Match>)
    requires forall i :: 0 <= i < |stack| ==> stack[i].code != Opening
    requires closer.code == Closing && WellNested(before) && WellNested(after)
    ensures Balance(stack, before + [closer] + after) == stack + [closer]
  {
    BalanceAppend(stack, before + [closer], after);
    BalanceAppend(stack, before, [closer]);
    NestedPairsCancel(stack, before);
    NestedPairsCancel(stack + [closer], after);
  }

  /** `base` lies at the bottom of `stack`. */
  predicate HasBase(stack: seq<Match>, base: seq<Match>)
  {
    |base| <= |stack| && stack[..|base|] == base
  }

  /** A bottom part without openers is never popped: a closer only pops an
      opener, and every opener on the stack lies above that part. */
  lemma {:induction false} BalanceKeepsBase(base: seq<Match>, stack: seq<Match>, order: seq<Match>)
    requires forall i :: 0 <= i < |base| ==> base[i].code != Opening
    requires HasBase(stack, base)
    ensures HasBase(Balance(stack, order), base)
    decreases |order|
  {
    if order != [] {
      var m := order[0];
      var next := Step(stack, m);
      if m.code == Closing && |stack| > 0 && stack[|stack| - 1].code == Opening {
        assert next[..|base|] == stack[..|base|];
      } else if next != stack {
        assert next[..|base|] == stack[..|base|];
      }
      BalanceKeepsBase(base, next, order[1..]);
    }
  }

  /** Everything the loop leaves was on the starting stack or is an opener or
      closer of `order`. */
  lemma {:induction false} BalanceDrawsFrom(stack: seq<Match>, order: seq<Match>)
    ensures forall m :: m in Balance(stack, order) ==>
              m in stack || (m in order && (m.code == Opening || m.code == Closing))
    decreases |order|
  {
    if order != [] {
      var next := Step(stack, order[0]);
      if |next| < |stack| {
        assert forall m :: m in next ==> m in stack by {
          assert next == stack[..|stack| - 1];
        }
      }
      BalanceDrawsFrom(next, order[1..]);
      assert forall m :: m in order[1..] ==> m in order;
    }
  }

  /** The loop started from the error tokens of `order`: each one is still at
      the bottom, and nothing else is there but openers and closers of
      `order`, so an ignored token is never reported. */
  lemma ErrorsStayReported(order: seq<Match>)
    ensures HasBase(Balance(Errors(order), order), Errors(order))
    ensures forall m :: m in Balance(Errors(order), order) ==> m in order && m.code != Ignored
  {
    var errors := Errors(order);
    forall i | 0 <= i < |errors|
      ensures errors[i].code != Opening
    {
      assert errors[i] in errors;
    }
    BalanceKeepsBase(errors, errors, order);
    BalanceDrawsFrom(errors, order);
  }
}
