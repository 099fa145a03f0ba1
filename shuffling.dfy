/**
 * The abstract effect of `shuffle`: pairs (old position, new position) are
 * staged into a buffer of optional slots, then the buffer is copied back
 * slot by slot until the first slot that was never written.
 */
module Shuffling {
  import opened Outcomes
  import opened Queries

  /** The first `k` pairs name only positions inside `[0, n)`. */
  predicate PositionsInRange(olds: seq<int>, news: seq<int>, n: int, k: nat)
    requires k <= |olds| && k <= |news|
  {
    forall i :: 0 <= i < k ==> 0 <= olds[i] < n && 0 <= news[i] < n
  }

  /** The staging buffer after the first `k` pairs: later pairs overwrite earlier ones. */
  function Stage(s: seq<int>, olds: seq<int>, news: seq<int>, k: nat): (t: seq<Option<int>>)
    requires k <= |olds| && k <= |news| && PositionsInRange(olds, news, |s|, k)
    ensures |t| == |s|
  {
    if k == 0 then seq(|s|, _ => None)
    else Stage(s, olds, news, k - 1)[news[k - 1] := Some(s[olds[k - 1]])]
  }

  /** Index of the first slot never written, or the length when every slot is set. */
  function FirstUnset(t: seq<Option<int>>): (f: nat)
    ensures f <= |t|
    ensures forall i :: 0 <= i < f ==> t[i].Some?
    ensures f < |t| ==> t[f].None?
  {
    if |t| == 0 || t[0].None? then 0 else 1 + FirstUnset(t[1..])
  }

  /** The buffer after the copy-back loop: staged values up to the first unset slot, old values after it. */
  function Overlay(t: seq<Option<int>>, s: seq<int>): seq<int>
    requires |t| == |s|
  {
    var f := FirstUnset(t);
    seq(|s|, i requires 0 <= i < |s| => if i < f then t[i].value else s[i])
  }

  /** The outcome of `shuffle` on contents `s` and the contents it leaves behind. */
  function Shuffled(s: seq<int>, olds: seq<int>, news: seq<int>): (Outcome, seq<int>)
  {
    if |olds| != |news| then (Fail(IllegalArgument), s)
    else if !PositionsInRange(olds, news, |s|, |olds|) then (Fail(IndexOutOfBounds), s)
    else
      var t := Stage(s, olds, news, |olds|);
      (if FirstUnset(t) == |s| then Pass else Fail(IllegalArgument), Overlay(t, s))
  }

  /**
   * A buffer that holds the staged values before slot `f` and the old values from
   * `f` on is the copy-back result when `f` is the first unset slot.
   */
  lemma OverlayUpTo(t: seq<Option<int>>, s: seq<int>, f: nat, s': seq<int>)
    requires |t| == |s| == |s'| && f <= |t|
    requires forall j :: 0 <= j < f ==> t[j].Some? && s'[j] == t[j].value
    requires forall j :: f <= j < |s| ==> s'[j] == s[j]
    requires f == |t| || t[f].None?
    ensures FirstUnset(t) == f && Overlay(t, s) == s'
  {
  }

  /** Slot `j` of the staging buffer holds the source of the last pair aimed at `j`, if any. */
  lemma {:induction false} StageAt(s: seq<int>, olds: seq<int>, news: seq<int>, k: nat, j: int)
    requires k <= |olds| && k <= |news| && PositionsInRange(olds, news, |s|, k)
    requires 0 <= j < |s|
    ensures var i := LastIndexOf(news[..k], j);
            Stage(s, olds, news, k)[j] == if i < 0 then None else Some(s[olds[i]])
  {
    if k > 0 {
      assert news[..k][..k - 1] == news[..k - 1];
      StageAt(s, olds, news, k - 1, j);
    }
  }

  /** `shuffle` succeeds exactly when every destination slot is named by some pair. */
  lemma ShuffleSucceedsIffCovered(s: seq<int>, olds: seq<int>, news: seq<int>)
    ensures Shuffled(s, olds, news).0 == Pass <==>
            |olds| == |news| && PositionsInRange(olds, news, |s|, |olds|) &&
            forall j :: 0 <= j < |s| ==> j in news
  {
    if |olds| == |news| && PositionsInRange(olds, news, |s|, |olds|) {
      var t := Stage(s, olds, news, |olds|);
      assert news[..|olds|] == news;
      forall j | 0 <= j < |s|
        ensures t[j].Some? <==> j in news
      {
        StageAt(s, olds, news, |olds|, j);
      }
      if FirstUnset(t) < |s| {
        assert FirstUnset(t) !in news;
      }
    }
  }

  /** On success, slot `j` holds the old element named by the last pair whose destination is `j`. */
  lemma ShuffleContents(s: seq<int>, olds: seq<int>, news: seq<int>, j: int)
    requires Shuffled(s, olds, news).0 == Pass
    requires 0 <= j < |s|
    ensures |olds| == |news| && 0 <= LastIndexOf(news, j) < |olds|
    ensures Shuffled(s, olds, news).1[j] == s[olds[LastIndexOf(news, j)]]
  {
    assert news[..|olds|] == news;
    StageAt(s, olds, news, |olds|, j);
  }

  /** Pairs that send every position to itself leave the contents as they were. */
  lemma ShuffleInPlaceKeepsContents(s: seq<int>, p: seq<int>)
    ensures Shuffled(s, p, p).1 == s
  {
    if PositionsInRange(p, p, |s|, |p|) {
      var t := Stage(s, p, p, |p|);
      assert p[..|p|] == p;
      forall j | 0 <= j < |s| && t[j].Some?
        ensures t[j].value == s[j]
      {
        StageAt(s, p, p, |p|, j);
      }
    }
  }

  /** A failed copy-back has already overwritten the slots before the first unset one. */
  lemma ShuffleFailureIsNotAtomic()
    ensures Shuffled([10, 20, 30], [2], [0]) == (Fail(IllegalArgument), [30, 20, 30])
  {
    var s, olds, news := [10, 20, 30], [2], [0];
    assert PositionsInRange(olds, news, |s|, |olds|);
    var t := Stage(s, olds, news, 1);
    assert t == [Some(30), None, None];
    assert FirstUnset(t) == 1;
    assert Overlay(t, s) == [30, 20, 30];
  }

  /** Repeated sources and repeated destinations pass as long as every slot is covered. */
  lemma ShuffleAcceptsRepeatedDestination()
    ensures Shuffled([10, 20], [0, 1, 0], [0, 1, 1]) == (Pass, [10, 10])
  {
    var s, olds, news := [10, 20], [0, 1, 0], [0, 1, 1];
    assert PositionsInRange(olds, news, |s|, |olds|);
    var t := Stage(s, olds, news, 3);
    assert t == [Some(10), Some(10)];
    assert FirstUnset(t) == 2;
    assert Overlay(t, s) == [10, 10];
  }
}
