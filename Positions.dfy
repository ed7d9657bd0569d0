/** Line and column bookkeeping for a scan cursor over a document. */
module Positions {

  /** A zero-based (line, column) coordinate in a document. */
  datatype Pos = Pos(line: nat, col: nat)

  /** Number of line feeds strictly before index `p` of `t`: the line of `t[p]`. */
  function LineOf(t: seq<char>, p: nat): nat
    requires p <= |t|
  {
    if p == 0 then 0
    else LineOf(t, p - 1) + (if t[p - 1] == '\n' then 1 else 0)
  }

  /** The line of `p` is the number of line feeds in `t[..p]`. */
  lemma {:induction false} LineOfCountsLineFeeds(t: seq<char>, p: nat)
    requires p <= |t|
    ensures LineOf(t, p) == multiset(t[..p])['\n']
  {
    if p > 0 {
      LineOfCountsLineFeeds(t, p - 1);
      assert t[..p] == t[..p - 1] + [t[p - 1]];
    }
  }

  /** Column of index `p`: the distance back to the nearest preceding line feed
      (a carriage return counts as an ordinary column). */
  function ColOf(t: seq<char>, p: nat): (c: nat)
    requires p <= |t|
    ensures c <= p
  {
    if p == 0 then 0
    else if t[p - 1] == '\n' then 0
    else ColOf(t, p - 1) + 1
  }

  /** The column is the distance back to the last line feed before `p`, or to
      the start of the text when there is none. */
  lemma {:induction false} ColOfIsDistanceToLineStart(t: seq<char>, p: nat)
    requires p <= |t|
    ensures forall k :: p - ColOf(t, p) <= k < p ==> t[k] != '\n'
    ensures ColOf(t, p) < p ==> t[p - ColOf(t, p) - 1] == '\n'
  {
    if p > 0 && t[p - 1] != '\n' {
      ColOfIsDistanceToLineStart(t, p - 1);
    }
  }

  /** The coordinate of index `p` of `t`. */
  function PosOf(t: seq<char>, p: nat): Pos
    requires p <= |t|
  {
    Pos(LineOf(t, p), ColOf(t, p))
  }

  /** Document order on coordinates: by line, then by column. */
  predicate Before(a: Pos, b: Pos)
  {
    a.line < b.line || (a.line == b.line && a.col <= b.col)
  }

  predicate StrictlyBefore(a: Pos, b: Pos)
  {
    a.line < b.line || (a.line == b.line && a.col < b.col)
  }

  /** The comparator handed to every sort in extension.ts: column difference on
      the same line, line difference otherwise. */
  function ComparePositions(a: Pos, b: Pos): (d: int)
    ensures d <= 0 <==> Before(a, b)
    ensures d < 0 <==> StrictlyBefore(a, b)
    ensures d == 0 <==> a == b
  {
    if a.line == b.line then a.col - b.col else a.line - b.line
  }

  /** Stepping the cursor over one character: a line feed starts a new line at
      column 0, anything else moves one column right. */
  lemma PosOfStep(t: seq<char>, p: nat)
    requires p < |t|
    ensures LineOf(t, p + 1) == LineOf(t, p) + (if t[p] == '\n' then 1 else 0)
    ensures ColOf(t, p + 1) == (if t[p] == '\n' then 0 else ColOf(t, p) + 1)
  {
  }

  /** Across a stretch without line feeds the line stays the same and the
      column grows by one per character. */
  lemma {:induction false} PosOfAcrossLine(t: seq<char>, p: nat, q: nat)
    requires p <= q <= |t| && forall k :: p <= k < q ==> t[k] != '\n'
    ensures LineOf(t, q) == LineOf(t, p) && ColOf(t, q) == ColOf(t, p) + (q - p)
    decreases q - p
  {
    if p < q {
      PosOfStep(t, q - 1);
      PosOfAcrossLine(t, p, q - 1);
    }
  }

  /** Distinct indices have distinct coordinates, and index order is document order. */
  lemma {:induction false} PosOfStrictlyIncreasing(t: seq<char>, p: nat, q: nat)
    requires p < q <= |t|
    ensures StrictlyBefore(PosOf(t, p), PosOf(t, q))
  {
    PosOfStep(t, q - 1);
    if p < q - 1 {
      PosOfStrictlyIncreasing(t, p, q - 1);
    }
  }
}
