/** Callers that use only the contracts of ArrayDS: the demo trace and the documented examples. */
module Client {
  import opened Outcomes
  import opened Ordering
  import opened Queries
  import opened Shuffling
  import opened ArrayDSModel

  /** A fresh sequence holding exactly `a`, `b` and `c`. */
  method Three(a: int, b: int, c: int) returns (d: ArrayDS)
    ensures fresh(d) && fresh(d.sequence) && d.Valid() && d.Contents() == [a, b, c]
  {
    d := new ArrayDS();
    d.Append(a);
    d.Append(b);
    d.Append(c);
  }

  /** The demo trace: append 1, 2, 3, prefix 0, delete head and tail, reverse, rotate both ways. */
  method DemoTrace()
  {
    var d := Three(1, 2, 3);
    d.Prefix(0);
    assert d.Contents() == [0, 1, 2, 3];
    var head := d.DeleteHead();
    assert head == Success(0) && d.Contents() == [1, 2, 3];
    var tail := d.DeleteTail();
    assert tail == Success(3) && d.Contents() == [1, 2];
    d.Reverse();
    assert d.Contents() == [2, 1];
    d.RotateRight();
    assert d.Contents() == [1, 2];
    d.RotateLeft();
    assert d.Contents() == [2, 1];
  }

  /** Eleven appends from empty grow the buffer once and keep every element in order. */
  method GrowthKeepsElements()
  {
    var d := new ArrayDS();
    var i := 0;
    while i < 11
      invariant 0 <= i <= 11
      invariant d.Valid() && fresh(d) && fresh(d.sequence)
      invariant d.Contents() == seq(i, k => k)
      invariant d.sequence.Length == if i <= 10 then 10 else 20
    {
      d.Append(i);
      i := i + 1;
    }
    assert d.sequence.Length == 20;
    assert d.ItemAt(10) == Success(10) && d.ItemAt(0) == Success(0);
    assert d.ItemAt(11) == Failure(IndexOutOfBounds);
  }

  /** predecessor on [3,3,5] answers from index 0, because the scan starts at index 1. */
  method PredecessorExample()
  {
    var d := Three(3, 3, 5);
    var p := d.Predecessor(3);
    PredecessorSkipsIndexZero();
    assert p == Some(3);
  }

  /** Frequency and last occurrence of 3 in [3,3,5]. */
  method CountingExample()
  {
    var d := Three(3, 3, 5);
    var f := d.GetFrequencyOf(3);
    CountIsMultiplicity([3, 3, 5], 3);
    assert [3, 3, 5] == [3] + [3] + [5];
    assert f == 2;
    var l := d.LastOccurrenceOf(3);
    assert l == 1;
  }

  /** first and last answer absent on an empty sequence, while deleteHead fails. */
  method EmptyExample()
  {
    var e := new ArrayDS();
    assert e.First() == None && e.Last() == None;
    var h := e.DeleteHead();
    assert h == Failure(EmptySequence);
  }

  /** [1,2] sorts before [1,2,3]. */
  method ComparePrefixExample()
  {
    var a := new ArrayDS();
    a.Append(1);
    a.Append(2);
    var b := Three(1, 2, 3);
    var c := a.CompareTo(b);
    LexProperPrefixFirst([1, 2], [1, 2, 3]);
    assert c < 0;
  }

  /** [1,3] sorts after [1,2,9]. */
  method CompareElementExample()
  {
    var a := new ArrayDS();
    a.Append(1);
    a.Append(3);
    var b := Three(1, 2, 9);
    var c := a.CompareTo(b);
    assert [1, 3][..1] == [1, 2, 9][..1];
    LexFirstDifference([1, 3], [1, 2, 9], 1);
    assert c > 0;
  }

  /** Slicing [5,3,8,1] at pivot 5 and by range, and cutting two items out of it. */
  method SliceAndCutExample()
  {
    var d := Three(5, 3, 8);
    d.Append(1);
    assert d.Contents() == [5, 3, 8, 1];
    var small := d.SliceUpTo(5);
    AtMostExample();
    assert small.Contents() == [5, 3, 1];
    var middle := d.Slice(1, 2);
    assert middle != null && middle.Contents() == [3, 8];
    var none := d.Slice(3, 2);
    assert none == null;
    var ok := d.Cut(1, 2);
    assert ok && d.Contents() == [5, 1];
  }

  /** A shuffle that leaves a slot unset fails after overwriting the slots before it. */
  method ShuffleExample()
  {
    var d := Three(10, 20, 30);
    var r := d.Shuffle([2], [0]);
    ShuffleFailureIsNotAtomic();
    assert r == Fail(IllegalArgument) && d.Contents() == [30, 20, 30];
  }
}
