/** `validateMatch` and `validateOperators` of extension.ts. */
module Checks {
  import opened Wrappers

  /** `validateMatch`: true when `pattern` occurs in `m` zero times or more than once. */
  method ValidateMatch(m: string, pattern: char) returns (r: bool)
    ensures r <==> multiset(m)[pattern] != 1
  {
    var count := 0;
    for i := 0 to |m|
      invariant count == multiset(m[..i])[pattern]
    {
      assert m[..i + 1] == m[..i] + [m[i]];
      if m[i] == pattern {
        count := count + 1;
      }
    }
    assert m[..|m|] == m;
    r := count == 0 || count > 1;
  }

  /** A character found at one index of `s` and nowhere else occurs exactly
      once, so `validateMatch` reports it as correct. */
  lemma SingleOccurrence(s: string, c: char, k: nat)
    requires k < |s| && s[k] == c
    requires forall j :: 0 <= j < |s| && j != k ==> s[j] != c
    ensures multiset(s)[c] == 1
  {
    assert s == s[..k] + [s[k]] + s[k + 1..];
    assert forall j :: 0 <= j < k ==> s[..k][j] == s[j];
    assert forall j :: k + 1 <= j < |s| ==> s[k + 1..][j - k - 1] == s[j];
  }

  /** The characters the operator check looks at. */
  predicate IsOperatorChar(c: char)
  {
    c == '=' || c == '!' || c == '|' || c == '&'
  }

  /** `a b` is one of the two-character operators `==`, `!=`, `||`, `&&`. */
  predicate IsOperatorPair(a: char, b: char)
  {
    ((a == '=' || a == '!') && b == '=') || (a == '|' && b == '|') || (a == '&' && b == '&')
  }

  /** Reading `s` from the left, every operator character starts one of the
      two-character operators `==`, `!=`, `||`, `&&`, and that pair is consumed
      whole; every other character stands alone. */
  predicate WellFormedOperators(s: string)
    decreases |s|
  {
    if s == [] then true
    else if !IsOperatorChar(s[0]) then WellFormedOperators(s[1..])
    else |s| >= 2 && IsOperatorPair(s[0], s[1]) && WellFormedOperators(s[2..])
  }

  /** `validateOperators`: 0 when every `=`, `!`, `|`, `&` of `m` belongs to a
      well-formed two-character operator, 4 otherwise. Past either end of `m`
      there is no character, so no comparison with one succeeds. */
  method ValidateOperators(m: string) returns (r: int)
    ensures r == (if WellFormedOperators(m) then 0 else 4)
  {
    var i := 0;
    while i < |m|
      invariant 0 <= i <= |m| + 1
      // every index up to i - 1 has been checked; the one at i - 1 starts afresh
      invariant i > 0 ==> (WellFormedOperators(m) <==> WellFormedOperators(m[i - 1..]))
      invariant 0 < i <= |m| && IsOperatorChar(m[i - 1]) ==> i < |m| && IsOperatorPair(m[i - 1], m[i])
      decreases |m| + 1 - i
    {
      // the second character of a pair already accepted is stepped over
      if i > 0 && ((m[i] == '=' && (m[i - 1] == '=' || m[i - 1] == '!'))
                   || (m[i] == '|' && m[i - 1] == '|') || (m[i] == '&' && m[i - 1] == '&')) {
        assert m[i - 1..][2..] == m[i + 1..];
        i := i + 1;
      } else if i > 0 {
        assert m[i - 1..][1..] == m[i..];
      }
      if i + 1 <= |m| {
        var c := m[i];
        // past the end the source reads `undefined`, equal to no character
        var next := if i + 1 < |m| then Some(m[i + 1]) else None;
        if ((c == '=' || c == '!') && next != Some('=')) || (c == '|' && next != Some('|'))
           || (c == '&' && next != Some('&')) {
          return 4;
        }
      }
      i := i + 1;
    }
    r := 0;
  }

  /** Text without any operator character passes the operator check. */
  lemma {:induction false} NoOperatorCharsIsWellFormed(s: string)
    requires forall k :: 0 <= k < |s| ==> !IsOperatorChar(s[k])
    ensures WellFormedOperators(s)
  {
    if s != [] {
      NoOperatorCharsIsWellFormed(s[1..]);
    }
  }

  /** A well-formed prefix does not change the verdict on what follows it. */
  lemma {:induction false} WellFormedPrefix(a: string, b: string)
    requires WellFormedOperators(a)
    ensures WellFormedOperators(a + b) <==> WellFormedOperators(b)
    decreases |a|
  {
    if a != [] {
      if !IsOperatorChar(a[0]) {
        assert (a + b)[0] == a[0];
        assert (a + b)[1..] == a[1..] + b;
        WellFormedPrefix(a[1..], b);
      } else {
        assert (a + b)[0] == a[0] && (a + b)[1] == a[1];
        assert (a + b)[2..] == a[2..] + b;
        WellFormedPrefix(a[2..], b);
      }
    } else {
      assert a + b == b;
    }
  }

  /** The four operators pass the check. */
  lemma PairedOperatorsPass()
    ensures WellFormedOperators("a == b") && WellFormedOperators("a != b")
    ensures WellFormedOperators("a && b") && WellFormedOperators("a || b")
  {
  }

  /** A lone `=`, `&`, `|` or `!` fails it, and so does `<=`, whose `=` is not
      preceded by `=` or `!`. */
  lemma LoneOperatorsFail()
    ensures !WellFormedOperators("a = b") && !WellFormedOperators("a & b")
    ensures !WellFormedOperators("a | b") && !WellFormedOperators("!x")
    ensures !WellFormedOperators("a <= b")
  {
  }
}
