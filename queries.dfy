/** The abstract answers of the read-only queries and of the filtering slice. */
module Queries {
  import opened Outcomes

  /** Number of positions of `s` that hold `x`, counted from the front. */
  function Count(s: seq<int>, x: int): nat
  {
    if |s| == 0 then 0
    else Count(s[..|s| - 1], x) + (if s[|s| - 1] == x then 1 else 0)
  }

  /** The count is the multiplicity of `x` in the multiset of elements. */
  lemma {:induction false} CountIsMultiplicity(s: seq<int>, x: int)
    ensures Count(s, x) == multiset(s)[x]
  {
    if |s| > 0 {
      CountIsMultiplicity(s[..|s| - 1], x);
      assert s == s[..|s| - 1] + [s[|s| - 1]];
    }
  }

  /** Greatest index holding `x`, or -1 when `x` does not occur. */
  function LastIndexOf(s: seq<int>, x: int): (r: int)
    ensures -1 <= r < |s|
    ensures r >= 0 ==> s[r] == x
    ensures forall j :: r < j < |s| ==> s[j] != x
  {
    if |s| == 0 then -1
    else if s[|s| - 1] == x then |s| - 1
    else LastIndexOf(s[..|s| - 1], x)
  }

  /** An occurrence is found exactly when the element is counted at least once. */
  lemma LastIndexOfFoundIffCounted(s: seq<int>, x: int)
    ensures LastIndexOf(s, x) >= 0 <==> Count(s, x) > 0
  {
    CountIsMultiplicity(s, x);
    if LastIndexOf(s, x) < 0 {
      assert x !in s;
    }
  }

  /** The least index from 1 on that holds `x`, or `|s|` when no such index exists. */
  function FirstMatchAfterHead(s: seq<int>, x: int): (k: nat)
    ensures k <= |s|
    ensures k < |s| ==> 1 <= k && s[k] == x
    ensures forall j :: 1 <= j < k ==> s[j] != x
  {
    if |s| <= 1 then |s|
    else
      var k := FirstMatchAfterHead(s[..|s| - 1], x);
      if k < |s| - 1 then k
      else if s[|s| - 1] == x then |s| - 1
      else |s|
  }

  /** The element just before the first match at index 1 or later; index 0 is never matched. */
  function PredecessorOf(s: seq<int>, x: int): (r: Option<int>)
    ensures r.None? <==> forall j :: 1 <= j < |s| ==> s[j] != x
    ensures r.Some? ==> r.value == s[FirstMatchAfterHead(s, x) - 1]
  {
    var k := FirstMatchAfterHead(s, x);
    if k < |s| then Some(s[k - 1]) else None
  }

  /** A first occurrence at index 0 does not count: the answer comes from a later occurrence. */
  lemma PredecessorSkipsIndexZero()
    ensures PredecessorOf([3, 3, 5], 3) == Some(3)
    ensures PredecessorOf([3, 4, 5], 3) == None
  {
    assert FirstMatchAfterHead([3, 3, 5], 3) == 1;
  }

  /** The elements of `s` that are at most `x`, in their original order. */
  function AtMost(s: seq<int>, x: int): (r: seq<int>)
    ensures |r| <= |s|
    ensures forall i :: 0 <= i < |r| ==> r[i] <= x
  {
    if |s| == 0 then []
    else if s[|s| - 1] <= x then AtMost(s[..|s| - 1], x) + [s[|s| - 1]]
    else AtMost(s[..|s| - 1], x)
  }

  /** Slicing [5,3,8,1] at pivot 5 keeps 5, 3 and 1 in their original order. */
  lemma AtMostExample()
    ensures AtMost([5, 3, 8, 1], 5) == [5, 3, 1]
  {
    assert [5][..0] == [];
    assert AtMost([5], 5) == [5];
    assert [5, 3][..1] == [5];
    assert AtMost([5, 3], 5) == [5, 3];
    assert [5, 3, 8][..2] == [5, 3];
    assert AtMost([5, 3, 8], 5) == [5, 3];
    assert [5, 3, 8, 1][..3] == [5, 3, 8];
  }

  /** The filter keeps every element at most `x` with its multiplicity and drops the rest. */
  lemma {:induction false} AtMostMultiset(s: seq<int>, x: int, y: int)
    ensures multiset(AtMost(s, x))[y] == if y <= x then multiset(s)[y] else 0
  {
    if |s| > 0 {
      AtMostMultiset(s[..|s| - 1], x, y);
      assert s == s[..|s| - 1] + [s[|s| - 1]];
    }
  }

  /** The filter works piecewise, so it keeps the relative order of what it keeps. */
  lemma {:induction false} AtMostConcat(a: seq<int>, b: seq<int>, x: int)
    ensures AtMost(a + b, x) == AtMost(a, x) + AtMost(b, x)
    decreases |b|
  {
    if |b| > 0 {
      var b' := b[..|b| - 1];
      assert (a + b)[..|a + b| - 1] == a + b';
      AtMostConcat(a, b', x);
    } else {
      assert a + b == a;
    }
  }
}
