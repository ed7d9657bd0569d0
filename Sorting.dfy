/** The position sort applied three times in extension.ts (to the scanned spans,
    to the classified tokens and to the final stack). */
module Sorting {
  import opened Positions

  /** `s` is in document order of `key`. */
  ghost predicate SortedBy<T>(s: seq<T>, key: T -> Pos)
  {
    forall i, j :: 0 <= i < j < |s| ==> Before(key(s[i]), key(s[j]))
  }

  /** A stable insertion sort under ComparePositions: the result is in document
      order, is a permutation of the input, and an input already in document
      order comes back unchanged. */
  method SortByPosition<T>(s: seq<T>, key: T -> Pos) returns (r: seq<T>)
    ensures SortedBy(r, key)
    ensures multiset(r) == multiset(s)
    ensures SortedBy(s, key) ==> r == s
  {
    r := [];
    for i := 0 to |s|
      invariant SortedBy(r, key)
      invariant multiset(r) == multiset(s[..i])
      invariant SortedBy(s, key) ==> r == s[..i]
    {
      assert s[..i + 1] == s[..i] + [s[i]];
      r := InsertByPosition(r, s[i], key);
    }
    assert s[..|s|] == s;
  }

  /** One insertion step: `x` goes after the last element that is not strictly
      after it, so an `x` not before the last element is simply appended. */
  method InsertByPosition<T>(r: seq<T>, x: T, key: T -> Pos) returns (r': seq<T>)
    requires SortedBy(r, key)
    ensures SortedBy(r', key)
    ensures multiset(r') == multiset(r) + multiset{x}
    ensures (r == [] || Before(key(r[|r| - 1]), key(x))) ==> r' == r + [x]
  {
    var j := |r|;
    while j > 0 && ComparePositions(key(r[j - 1]), key(x)) > 0
      invariant 0 <= j <= |r|
      invariant forall k :: j <= k < |r| ==> StrictlyBefore(key(x), key(r[k]))
      decreases j
    {
      j := j - 1;
    }
    InsertKeepsOrder(r, j, x, key);
    assert r == r[..j] + r[j..];
    r' := r[..j] + [x] + r[j..];
    if j == |r| {
      assert r' == r + [x];
    } else {
      assert StrictlyBefore(key(x), key(r[|r| - 1]));
    }
  }

  /** Inserting `x` after every element not after it, and before every element
      strictly after it, keeps a sequence in document order. */
  lemma InsertKeepsOrder<T>(r: seq<T>, j: nat, x: T, key: T -> Pos)
    requires SortedBy(r, key) && j <= |r|
    requires j > 0 ==> Before(key(r[j - 1]), key(x))
    requires forall k :: j <= k < |r| ==> StrictlyBefore(key(x), key(r[k]))
    ensures SortedBy(r[..j] + [x] + r[j..], key)
  {
    var r' := r[..j] + [x] + r[j..];
    forall a, b | 0 <= a < b < |r'|
      ensures Before(key(r'[a]), key(r'[b]))
    {
      if b < j {
        assert r'[a] == r[a] && r'[b] == r[b];
      } else if b == j {
        assert r'[a] == r[a];
        assert Before(key(r[a]), key(r[j - 1]));
      } else if a == j {
        assert r'[b] == r[b - 1];
      } else if a < j {
        assert r'[a] == r[a] && r'[b] == r[b - 1];
      } else {
        assert r'[a] == r[a - 1] && r'[b] == r[b - 1];
      }
    }
  }

  /** No two elements of `s` share a key. */
  ghost predicate KeysDistinct<T>(s: seq<T>, key: T -> Pos)
  {
    forall i, j :: 0 <= i < j < |s| ==> key(s[i]) != key(s[j])
  }

  /** An element whose key no other element shares occurs exactly once. */
  lemma OccursOnce<T>(s: seq<T>, key: T -> Pos, x: nat)
    requires KeysDistinct(s, key) && x < |s|
    ensures multiset(s)[s[x]] == 1
  {
    assert s == s[..x] + [s[x]] + s[x + 1..];
    assert s[x] !in s[..x];
    assert s[x] !in s[x + 1..];
  }

  /** A value at two indices occurs at least twice. */
  lemma OccursTwice<T>(s: seq<T>, i: nat, j: nat)
    requires i < j < |s| && s[i] == s[j]
    ensures multiset(s)[s[i]] >= 2
  {
    assert s == s[..j] + s[j..];
    assert s[i] in s[..j];
    assert s[j..][0] == s[j];
  }

  /** Distinct keys survive a permutation. */
  lemma PermutationKeepsKeysDistinct<T>(a: seq<T>, b: seq<T>, key: T -> Pos)
    requires multiset(a) == multiset(b) && KeysDistinct(b, key)
    ensures KeysDistinct(a, key)
  {
    forall i, j | 0 <= i < j < |a|
      ensures key(a[i]) != key(a[j])
    {
      assert a[i] in multiset(b) && a[j] in multiset(b);
      var x :| 0 <= x < |b| && b[x] == a[i];
      var y :| 0 <= y < |b| && b[y] == a[j];
      if key(a[i]) == key(a[j]) {
        assert x == y;
        OccursTwice(a, i, j);
        OccursOnce(b, key, x);
        assert false;
      }
    }
  }

  /** Two sorted permutations with distinct keys start with the same element. */
  lemma SortedPermutationsShareHead<T>(a: seq<T>, b: seq<T>, key: T -> Pos)
    requires SortedBy(a, key) && SortedBy(b, key)
    requires multiset(a) == multiset(b) && KeysDistinct(a, key) && a != []
    ensures b != [] && a[0] == b[0]
  {
    assert a[0] in multiset(b);
    var x :| 0 <= x < |b| && b[x] == a[0];
    assert b[0] in multiset(a);
    var y :| 0 <= y < |a| && a[y] == b[0];
  }

  /** Dropping the first element keeps document order and distinct keys, and
      removes one occurrence of it. */
  lemma DropFirst<T>(a: seq<T>, key: T -> Pos)
    requires a != []
    ensures SortedBy(a, key) ==> SortedBy(a[1..], key)
    ensures KeysDistinct(a, key) ==> KeysDistinct(a[1..], key)
    ensures multiset(a[1..]) == multiset(a) - multiset{a[0]}
  {
    assert a == [a[0]] + a[1..];
    forall i, j | 0 <= i < j < |a| - 1
      ensures key(a[1..][i]) == key(a[i + 1]) && key(a[1..][j]) == key(a[j + 1])
    {
    }
  }

  /** The tails of two sorted permutations with distinct keys are again two
      sorted permutations with distinct keys, after the same first element. */
  lemma SortedPermutationsTails<T>(a: seq<T>, b: seq<T>, key: T -> Pos)
    requires SortedBy(a, key) && SortedBy(b, key)
    requires multiset(a) == multiset(b) && KeysDistinct(a, key) && a != []
    ensures b != [] && a[0] == b[0]
    ensures SortedBy(a[1..], key) && SortedBy(b[1..], key)
    ensures multiset(a[1..]) == multiset(b[1..]) && KeysDistinct(a[1..], key)
  {
    SortedPermutationsShareHead(a, b, key);
    DropFirst(a, key);
    DropFirst(b, key);
  }

  /** With distinct keys there is only one ordering in document order, so any
      sort meeting SortByPosition's contract gives the same result. */
  lemma {:induction false} SortedPermutationUnique<T>(a: seq<T>, b: seq<T>, key: T -> Pos)
    requires SortedBy(a, key) && SortedBy(b, key)
    requires multiset(a) == multiset(b) && KeysDistinct(a, key)
    ensures a == b
    decreases |a|
  {
    if a == [] {
      assert |multiset(b)| == 0;
    } else {
      SortedPermutationsTails(a, b, key);
      SortedPermutationUnique(a[1..], b[1..], key);
      assert a == [a[0]] + a[1..] && b == [b[0]] + b[1..];
    }
  }
}
