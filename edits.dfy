/** The abstract effect of the positional mutators and the in-place reorderings. */
module Edits {

  /** `s` with `x` placed at position `p`, the later elements moved one place right. */
  function Inserted(s: seq<int>, p: int, x: int): seq<int>
    requires 0 <= p <= |s|
  {
    s[..p] + [x] + s[p..]
  }

  /** `s` without the `k` elements that start at `start`, the later elements moved left. */
  function Removed(s: seq<int>, start: int, k: int): seq<int>
    requires 0 <= start && 0 <= k && start + k <= |s|
  {
    s[..start] + s[start + k..]
  }

  /** `s` back to front: position `i` holds what was at the mirrored position. */
  function Reversed(s: seq<int>): seq<int>
  {
    seq(|s|, i requires 0 <= i < |s| => s[|s| - 1 - i])
  }

  /** The last element moved to the front; the empty sequence is unchanged. */
  function RotatedRight(s: seq<int>): seq<int>
  {
    if |s| == 0 then s else [s[|s| - 1]] + s[..|s| - 1]
  }

  /** The first element moved to the back; the empty sequence is unchanged. */
  function RotatedLeft(s: seq<int>): seq<int>
  {
    if |s| == 0 then s else s[1..] + [s[0]]
  }

  /** A sequence that agrees with `s` before `p`, holds `x` at `p` and `s` shifted right after it is the insertion. */
  lemma InsertedFromShift(r: seq<int>, s: seq<int>, p: int, x: int)
    requires 0 <= p <= |s| && |r| == |s| + 1
    requires forall j :: 0 <= j < p ==> r[j] == s[j]
    requires r[p] == x
    requires forall j :: p < j < |r| ==> r[j] == s[j - 1]
    ensures r == Inserted(s, p, x)
  {
    assert r[..p] == s[..p];
    assert r[p + 1..] == s[p..];
    assert r == r[..p] + [r[p]] + r[p + 1..];
  }

  /** A sequence that agrees with `s` before `start` and holds `s` shifted `k` places left from there is the cut. */
  lemma RemovedFromShift(r: seq<int>, s: seq<int>, start: int, k: int)
    requires 0 <= start && 0 <= k && start + k <= |s| && |r| == |s| - k
    requires forall j :: 0 <= j < start ==> r[j] == s[j]
    requires forall j :: start <= j < |r| ==> r[j] == s[j + k]
    ensures r == Removed(s, start, k)
  {
    assert r[..start] == s[..start];
    assert r[start..] == s[start + k..];
    assert r == r[..start] + r[start..];
  }

  /** Inserting an element and then cutting it out again gives back the original. */
  lemma RemovedUndoesInserted(s: seq<int>, p: int, x: int)
    requires 0 <= p <= |s|
    ensures |Inserted(s, p, x)| == |s| + 1 && Inserted(s, p, x)[p] == x
    ensures Removed(Inserted(s, p, x), p, 1) == s
  {
    var t := Inserted(s, p, x);
    assert t[..p] == s[..p];
    assert t[p + 1..] == s[p..];
    assert s == s[..p] + s[p..];
  }

  /** Insertion adds exactly one occurrence of the inserted element. */
  lemma InsertedMultiset(s: seq<int>, p: int, x: int)
    requires 0 <= p <= |s|
    ensures multiset(Inserted(s, p, x)) == multiset(s) + multiset{x}
  {
    assert s == s[..p] + s[p..];
  }

  /** Cutting removes exactly the occurrences in the cut range. */
  lemma RemovedMultiset(s: seq<int>, start: int, k: int)
    requires 0 <= start && 0 <= k && start + k <= |s|
    ensures multiset(Removed(s, start, k)) + multiset(s[start..start + k]) == multiset(s)
  {
    assert s == s[..start] + s[start..start + k] + s[start + k..];
  }

  /** Trimming `k` items from the tail is cutting the last `k` items. */
  lemma TrimIsCutAtTail(s: seq<int>, k: int)
    requires 0 <= k <= |s|
    ensures s[..|s| - k] == Removed(s, |s| - k, k)
  {
  }

  /** Reversing twice is the identity. */
  lemma ReversedTwice(s: seq<int>)
    ensures Reversed(Reversed(s)) == s
  {
  }

  /** Reversal only reorders: every element keeps its number of occurrences. */
  lemma {:induction false} ReversedMultiset(s: seq<int>)
    ensures multiset(Reversed(s)) == multiset(s)
  {
    if |s| > 0 {
      var init := s[..|s| - 1];
      assert Reversed(s) == [s[|s| - 1]] + Reversed(init);
      ReversedMultiset(init);
      assert s == init + [s[|s| - 1]];
    }
  }

  /** Rotating left undoes rotating right. */
  lemma RotateLeftUndoesRight(s: seq<int>)
    ensures RotatedLeft(RotatedRight(s)) == s
  {
    if |s| > 0 {
      assert RotatedRight(s)[1..] == s[..|s| - 1];
    }
  }

  /** Rotating right undoes rotating left. */
  lemma RotateRightUndoesLeft(s: seq<int>)
    ensures RotatedRight(RotatedLeft(s)) == s
  {
    if |s| > 0 {
      assert RotatedLeft(s)[..|s| - 1] == s[1..];
    }
  }

  /** Both rotations only reorder the elements. */
  lemma RotatedMultiset(s: seq<int>)
    ensures multiset(RotatedRight(s)) == multiset(s)
    ensures multiset(RotatedLeft(s)) == multiset(s)
  {
    if |s| > 0 {
      assert s == s[..|s| - 1] + [s[|s| - 1]];
      assert s == [s[0]] + s[1..];
    }
  }
}
