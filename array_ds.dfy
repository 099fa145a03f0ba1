/**
 * The growable array-backed sequence: a buffer `sequence` whose first
 * `numberOfEntries` slots are the contents, starting at capacity 10 and
 * doubling whenever an insertion finds it full.
 */
module ArrayDSModel {
  import opened Outcomes
  import opened Ordering
  import opened Edits
  import opened Queries
  import opened Shuffling

  /** Capacity of a sequence built by the default constructor. */
  const DefaultCapacity: nat := 10

  /**
   * The number of entries `trim` leaves for any int argument, as the code
   * computes it without checking the sign of `numItems`.
   */
  function TrimmedLengthAsWritten(numberOfEntries: int, numItems: int): (r: int)
    ensures 0 <= numberOfEntries ==> 0 <= r
    ensures 0 <= numItems ==> r <= numberOfEntries
  {
    if numItems > numberOfEntries then numberOfEntries else numberOfEntries - numItems
  }

  /** A negative count makes a full default-capacity sequence claim more entries than it has slots. */
  lemma NegativeTrimOverrunsCapacity()
    ensures TrimmedLengthAsWritten(DefaultCapacity, -1) == DefaultCapacity + 1
  {
  }

  class ArrayDS {
    var sequence: array<int>
    var numberOfEntries: nat

    /** The object invariant: the contents fit in the buffer, which never shrinks below the default. */
    ghost predicate Valid()
      reads this
    {
      numberOfEntries <= sequence.Length && sequence.Length >= DefaultCapacity
    }

    /** The abstract value: the valid prefix of the buffer. */
    ghost function Contents(): seq<int>
      reads this, sequence
      requires Valid()
    {
      sequence[..numberOfEntries]
    }

    /** An empty sequence with the default capacity. */
    constructor ()
      ensures Valid() && fresh(sequence)
      ensures Contents() == [] && sequence.Length == DefaultCapacity
    {
      sequence := new int[DefaultCapacity];
      numberOfEntries := 0;
    }

    /** A copy with equal contents and equal capacity in a buffer of its own. */
    constructor Copy(other: ArrayDS)
      requires other.Valid()
      ensures Valid() && fresh(sequence)
      ensures Contents() == other.Contents() && sequence.Length == other.sequence.Length
    {
      var buffer := new int[other.sequence.Length];
      forall i | 0 <= i < other.numberOfEntries {
        buffer[i] := other.sequence[i];
      }
      sequence := buffer;
      numberOfEntries := other.numberOfEntries;
    }

    /** Doubles the capacity, copying the whole old buffer to the front of the new one. */
    method Resize()
      requires Valid()
      modifies this
      ensures Valid() && fresh(sequence)
      ensures sequence.Length == 2 * old(sequence.Length)
      ensures sequence[..old(sequence.Length)] == old(sequence[..])
      ensures numberOfEntries == old(numberOfEntries) && Contents() == old(Contents())
    {
      var bigger := new int[2 * sequence.Length];
      forall i | 0 <= i < sequence.Length {
        bigger[i] := sequence[i];
      }
      sequence := bigger;
    }

    /** The check every insertion makes first: resize when the buffer is full, so a free slot follows the contents. */
    method GrowIfFull()
      requires Valid()
      modifies this
      ensures Valid() && numberOfEntries < sequence.Length
      ensures old(numberOfEntries) < old(sequence.Length) ==> sequence == old(sequence)
      ensures old(numberOfEntries) == old(sequence.Length) ==> fresh(sequence)
      ensures sequence.Length ==
        if old(numberOfEntries) == old(sequence.Length) then 2 * old(sequence.Length) else old(sequence.Length)
      ensures numberOfEntries == old(numberOfEntries) && Contents() == old(Contents())
    {
      if numberOfEntries == sequence.Length {
        Resize();
      }
    }

    /** Adds `item` at the end, doubling the capacity first when the buffer is full. */
    method Append(item: int)
      requires Valid()
      modifies this, sequence
      ensures Valid()
      ensures old(numberOfEntries) < old(sequence.Length) ==> sequence == old(sequence)
      ensures old(numberOfEntries) == old(sequence.Length) ==> fresh(sequence)
      ensures sequence.Length ==
        if old(numberOfEntries) == old(sequence.Length) then 2 * old(sequence.Length) else old(sequence.Length)
      ensures Contents() == old(Contents()) + [item]
    {
      GrowIfFull();
      sequence[numberOfEntries] := item;
      numberOfEntries := numberOfEntries + 1;
    }

    /** Adds `item` at the front, shifting every element one place right. */
    method Prefix(item: int)
      requires Valid()
      modifies this, sequence
      ensures Valid()
      ensures old(numberOfEntries) < old(sequence.Length) ==> sequence == old(sequence)
      ensures old(numberOfEntries) == old(sequence.Length) ==> fresh(sequence)
      ensures sequence.Length ==
        if old(numberOfEntries) == old(sequence.Length) then 2 * old(sequence.Length) else old(sequence.Length)
      ensures Contents() == [item] + old(Contents())
    {
      GrowIfFull();
      ghost var s := Contents();
      ShiftAndStore(item, 0);
      assert Inserted(s, 0, item) == [item] + s;
    }

    /** Adds `item` at `position`, shifting the elements from there one place right. */
    method Insert(item: int, position: int) returns (r: Outcome)
      requires Valid()
      modifies this, sequence
      ensures Valid()
      ensures r == if 0 <= position <= old(numberOfEntries) then Pass else Fail(IndexOutOfBounds)
      ensures r.Pass? && old(numberOfEntries) == old(sequence.Length) ==> fresh(sequence)
      ensures old(numberOfEntries) < old(sequence.Length) ==> sequence == old(sequence)
      ensures r.Fail? ==> sequence == old(sequence) && Contents() == old(Contents())
      ensures r.Pass? ==> Contents() == Inserted(old(Contents()), position, item)
      ensures sequence.Length ==
        if r.Pass? && old(numberOfEntries) == old(sequence.Length) then 2 * old(sequence.Length)
        else old(sequence.Length)
    {
      if position < 0 || position > numberOfEntries {
        return Fail(IndexOutOfBounds);
      }
      GrowIfFull();
      ShiftAndStore(item, position);
      r := Pass;
    }

    /**
     * The loop prefix and insert share once a free slot follows the contents:
     * moves the elements from `position` on one place right, from the back,
     * then stores `item` in the gap.
     */
    method ShiftAndStore(item: int, position: int)
      requires Valid() && numberOfEntries < sequence.Length
      requires 0 <= position <= numberOfEntries
      modifies this, sequence
      ensures Valid() && sequence == old(sequence)
      ensures Contents() == Inserted(old(Contents()), position, item)
    {
      ghost var s := Contents();
      var a, n := sequence, numberOfEntries;
      var i: int := n - 1;
      while i >= position
        modifies a
        invariant position - 1 <= i < n < a.Length
        invariant forall j :: 0 <= j <= i ==> a[j] == s[j]
        invariant forall j :: i + 1 < j <= n ==> a[j] == s[j - 1]
      {
        a[i + 1] := a[i];
        i := i - 1;
      }
      a[position] := item;
      InsertedFromShift(a[..n + 1], s, position, item);
      numberOfEntries := n + 1;
    }

    /** The element at `position`, or the out-of-bounds error outside the contents. */
    function ItemAt(position: int): (r: Result<int>)
      reads this, sequence
      requires Valid()
      ensures r.Success? <==> 0 <= position < |Contents()|
      ensures r.Success? ==> r.value == Contents()[position]
      ensures r.Failure? ==> r.error == IndexOutOfBounds
    {
      if position < 0 || position >= numberOfEntries then Failure(IndexOutOfBounds)
      else Success(sequence[position])
    }

    /** Whether the sequence holds no elements. */
    function IsEmpty(): (r: bool)
      reads this, sequence
      requires Valid()
      ensures r <==> Contents() == []
    {
      numberOfEntries == 0
    }

    /** The number of elements. */
    function Size(): (r: nat)
      reads this, sequence
      requires Valid()
      ensures r == |Contents()|
    {
      numberOfEntries
    }

    /** The first element, or absent (not an error) when empty. */
    function First(): (r: Option<int>)
      reads this, sequence
      requires Valid()
      ensures r.None? <==> Contents() == []
      ensures r.Some? ==> r.value == Contents()[0]
    {
      if IsEmpty() then None else Some(sequence[0])
    }

    /** The last element, or absent (not an error) when empty. */
    function Last(): (r: Option<int>)
      reads this, sequence
      requires Valid()
      ensures r.None? <==> Contents() == []
      ensures r.Some? ==> r.value == Contents()[|Contents()| - 1]
    {
      if IsEmpty() then None else Some(sequence[numberOfEntries - 1])
    }

    /**
     * The element just before the first match found scanning from index 1;
     * a match at index 0 is never considered.
     */
    method Predecessor(item: int) returns (r: Option<int>)
      requires Valid()
      ensures r == PredecessorOf(Contents(), item)
    {
      var i := 1;
      while i < numberOfEntries
        invariant 1 <= i
        invariant forall j :: 1 <= j < i && j < numberOfEntries ==> sequence[j] != item
      {
        if Compare(sequence[i], item) == 0 {
          assert FirstMatchAfterHead(Contents(), item) == i;
          return Some(sequence[i - 1]);
        }
        i := i + 1;
      }
      return None;
    }

    /** The number of elements equal to `item`. */
    method GetFrequencyOf(item: int) returns (count: nat)
      requires Valid()
      ensures count == Count(Contents(), item)
    {
      count := 0;
      var i := 0;
      while i < numberOfEntries
        invariant 0 <= i <= numberOfEntries
        invariant count == Count(sequence[..i], item)
      {
        assert sequence[..i + 1][..i] == sequence[..i];
        if Compare(sequence[i], item) == 0 {
          count := count + 1;
        }
        i := i + 1;
      }
      assert sequence[..i] == Contents();
    }

    /** Empties the sequence; the buffer and its capacity stay. */
    method Clear()
      requires Valid()
      modifies this
      ensures Valid() && sequence == old(sequence)
      ensures Contents() == []
    {
      numberOfEntries := 0;
    }

    /** The greatest index holding `item`, or -1. */
    method LastOccurrenceOf(item: int) returns (r: int)
      requires Valid()
      ensures r == LastIndexOf(Contents(), item)
    {
      var i: int := numberOfEntries - 1;
      while i >= 0
        invariant -1 <= i < numberOfEntries
        invariant forall j :: i < j < numberOfEntries ==> sequence[j] != item
      {
        if Compare(sequence[i], item) == 0 {
          return i;
        }
        i := i - 1;
      }
      return -1;
    }

    /** Removes and returns the first element, shifting the rest one place left. */
    method DeleteHead() returns (r: Result<int>)
      requires Valid()
      modifies this, sequence
      ensures Valid() && sequence == old(sequence)
      ensures old(numberOfEntries) == 0 ==> r == Failure(EmptySequence) && Contents() == old(Contents())
      ensures old(numberOfEntries) > 0 ==> r == Success(old(Contents())[0]) && Contents() == old(Contents())[1..]
    {
      if IsEmpty() {
        return Failure(EmptySequence);
      }
      ghost var s := Contents();
      var head := sequence[0];
      var i := 1;
      while i < numberOfEntries
        modifies sequence
        invariant 1 <= i <= numberOfEntries
        invariant forall j :: 0 <= j < i - 1 ==> sequence[j] == s[j + 1]
        invariant forall j :: i - 1 <= j < numberOfEntries ==> sequence[j] == s[j]
      {
        sequence[i - 1] := sequence[i];
        i := i + 1;
      }
      numberOfEntries := numberOfEntries - 1;
      assert Contents() == s[1..];
      r := Success(head);
    }

    /** Removes and returns the last element. */
    method DeleteTail() returns (r: Result<int>)
      requires Valid()
      modifies this
      ensures Valid() && sequence == old(sequence)
      ensures old(numberOfEntries) == 0 ==> r == Failure(EmptySequence) && Contents() == old(Contents())
      ensures old(numberOfEntries) > 0 ==>
        r == Success(old(Contents())[old(numberOfEntries) - 1]) && Contents() == old(Contents())[..old(numberOfEntries) - 1]
    {
      if IsEmpty() {
        return Failure(EmptySequence);
      }
      var tail := sequence[numberOfEntries - 1];
      numberOfEntries := numberOfEntries - 1;
      r := Success(tail);
    }

    /** Drops the last `numItems` elements, or reports false when there are fewer. */
    method Trim(numItems: int) returns (ok: bool)
      requires Valid()
      requires numItems >= 0
      modifies this
      ensures Valid() && sequence == old(sequence)
      ensures ok <==> numItems <= old(numberOfEntries)
      ensures ok ==> Contents() == old(Contents())[..old(numberOfEntries) - numItems]
      ensures !ok ==> Contents() == old(Contents())
    {
      if numItems > numberOfEntries {
        return false;
      }
      numberOfEntries := numberOfEntries - numItems;
      return true;
    }

    /** Removes `numItems` elements starting at `start`, or reports false for a bad range. */
    method Cut(start: int, numItems: int) returns (ok: bool)
      requires Valid()
      requires numItems >= 0
      modifies this, sequence
      ensures Valid() && sequence == old(sequence)
      ensures ok <==> 0 <= start && start + numItems <= old(numberOfEntries)
      ensures ok ==> Contents() == Removed(old(Contents()), start, numItems)
      ensures !ok ==> Contents() == old(Contents())
    {
      if start < 0 || start + numItems > numberOfEntries {
        return false;
      }
      ghost var s := Contents();
      var a, n := sequence, numberOfEntries;
      var i := start + numItems;
      while i < n
        modifies a
        invariant start + numItems <= i <= n <= a.Length
        invariant forall j :: 0 <= j < start ==> a[j] == s[j]
        invariant forall j :: start <= j < i - numItems ==> a[j] == s[j + numItems]
        invariant forall j :: i - numItems <= j < n ==> a[j] == s[j]
      {
        a[i - numItems] := a[i];
        i := i + 1;
      }
      RemovedFromShift(a[..n - numItems], s, start, numItems);
      numberOfEntries := n - numItems;
      return true;
    }

    /** Reverses the contents in place by swapping mirrored pairs. */
    method Reverse()
      requires Valid()
      modifies sequence
      ensures Valid()
      ensures Contents() == Reversed(old(Contents()))
    {
      ghost var s := Contents();
      var n := numberOfEntries;
      var i := 0;
      while i < n / 2
        invariant 0 <= i <= n / 2
        invariant forall j :: 0 <= j < i ==> sequence[j] == s[n - 1 - j] && sequence[n - 1 - j] == s[j]
        invariant forall j :: i <= j < n - i ==> sequence[j] == s[j]
      {
        var temp := sequence[i];
        sequence[i] := sequence[n - 1 - i];
        sequence[n - 1 - i] := temp;
        i := i + 1;
      }
      assert Contents() == Reversed(s);
    }

    /** Moves the last element to the front; does nothing when empty. */
    method RotateRight()
      requires Valid()
      modifies sequence
      ensures Valid()
      ensures Contents() == RotatedRight(old(Contents()))
    {
      if numberOfEntries > 0 {
        ghost var s := Contents();
        var a, n := sequence, numberOfEntries;
        var lastItem := a[n - 1];
        var i := n - 1;
        while i > 0
          invariant 0 <= i < n <= a.Length
          invariant forall j :: 0 <= j <= i ==> a[j] == s[j]
          invariant forall j :: i < j < n ==> a[j] == s[j - 1]
        {
          a[i] := a[i - 1];
          i := i - 1;
        }
        a[0] := lastItem;
        InsertedFromShift(a[..n], s[..n - 1], 0, lastItem);
        assert Inserted(s[..n - 1], 0, lastItem) == [s[n - 1]] + s[..n - 1];
      }
    }

    /** Moves the first element to the back; does nothing when empty. */
    method RotateLeft()
      requires Valid()
      modifies sequence
      ensures Valid()
      ensures Contents() == RotatedLeft(old(Contents()))
    {
      if numberOfEntries > 0 {
        ghost var s := Contents();
        var a, n := sequence, numberOfEntries;
        var firstItem := a[0];
        var i := 0;
        while i < n - 1
          invariant 0 <= i <= n - 1 < a.Length
          invariant forall j :: 0 <= j < i ==> a[j] == s[j + 1]
          invariant forall j :: i <= j < n ==> a[j] == s[j]
        {
          a[i] := a[i + 1];
          i := i + 1;
        }
        a[n - 1] := firstItem;
        InsertedFromShift(a[..n], s[1..], n - 1, firstItem);
        assert Inserted(s[1..], n - 1, firstItem) == s[1..] + [s[0]];
      }
    }

    /**
     * Moves the element at `oldPositions[i]` to `newPositions[i]` for every `i`
     * through a staging buffer, then copies the buffer back until a slot that
     * was never written stops it with an error.
     */
    method Shuffle(oldPositions: seq<int>, newPositions: seq<int>) returns (r: Outcome)
      requires Valid()
      modifies sequence
      ensures Valid()
      ensures r == Shuffled(old(Contents()), oldPositions, newPositions).0
      ensures Contents() == Shuffled(old(Contents()), oldPositions, newPositions).1
    {
      if |oldPositions| != |newPositions| {
        return Fail(IllegalArgument);
      }
      ghost var s := Contents();
      var a, n := sequence, numberOfEntries;
      var temp := new Option<int>[n](j => None);
      var i := 0;
      while i < |oldPositions|
        modifies temp
        invariant 0 <= i <= |oldPositions|
        invariant PositionsInRange(oldPositions, newPositions, n, i)
        invariant temp[..] == Stage(s, oldPositions, newPositions, i)
      {
        if oldPositions[i] < 0 || oldPositions[i] >= n || newPositions[i] < 0 || newPositions[i] >= n {
          return Fail(IndexOutOfBounds);
        }
        assert a[oldPositions[i]] == s[oldPositions[i]];
        temp[newPositions[i]] := Some(a[oldPositions[i]]);
        i := i + 1;
      }
      r := WriteBack(temp);
    }

    /**
     * The copy-back half of `shuffle`: copies staged slots into the buffer in
     * order and stops with an error at the first slot that was never staged,
     * leaving the slots already copied overwritten.
     */
    method WriteBack(temp: array<Option<int>>) returns (r: Outcome)
      requires Valid() && temp.Length == numberOfEntries
      modifies sequence
      ensures Valid()
      ensures r == if FirstUnset(temp[..]) == numberOfEntries then Pass else Fail(IllegalArgument)
      ensures Contents() == Overlay(temp[..], old(Contents()))
    {
      ghost var s := Contents();
      ghost var t := temp[..];
      var a, n := sequence, numberOfEntries;
      var i := 0;
      while i < n
        modifies a
        invariant 0 <= i <= n
        invariant forall j :: 0 <= j < i ==> t[j].Some? && a[j] == t[j].value
        invariant forall j :: i <= j < n ==> a[j] == s[j]
      {
        if temp[i].None? {
          OverlayUpTo(t, s, i, a[..n]);
          return Fail(IllegalArgument);
        }
        a[i] := temp[i].value;
        i := i + 1;
      }
      OverlayUpTo(t, s, n, a[..n]);
      r := Pass;
    }

    /** Lexicographic comparison with `other`; a proper prefix sorts first. */
    method CompareTo(other: ArrayDS) returns (r: int)
      requires Valid() && other.Valid()
      ensures r == Lex(Contents(), other.Contents())
    {
      var minLength := if numberOfEntries < other.numberOfEntries then numberOfEntries else other.numberOfEntries;
      var i := 0;
      while i < minLength
        invariant 0 <= i <= minLength
        invariant Lex(Contents(), other.Contents()) == Lex(Contents()[i..], other.Contents()[i..])
      {
        var comparison := Compare(sequence[i], other.sequence[i]);
        if comparison != 0 {
          return comparison;
        }
        assert Contents()[i..][1..] == Contents()[i + 1..];
        assert other.Contents()[i..][1..] == other.Contents()[i + 1..];
        i := i + 1;
      }
      return Compare(numberOfEntries, other.numberOfEntries);
    }

    /**
     * A new sequence holding the `numItems` elements from `start`, or absent
     * when `start` is negative or the range runs past the end.
     */
    method Slice(start: int, numItems: int) returns (r: ArrayDS?)
      requires Valid()
      ensures r == null <==> start < 0 || start + numItems > |Contents()|
      ensures r != null ==> fresh(r) && fresh(r.sequence) && r.Valid()
      ensures r != null ==>
        r.Contents() == if numItems <= 0 then [] else Contents()[start..start + numItems]
    {
      if start < 0 || start + numItems > numberOfEntries {
        return null;
      }
      ghost var s := Contents();
      var result := new ArrayDS();
      var i := start;
      while i < start + numItems
        invariant i == start || start < i <= start + numItems <= |s|
        invariant fresh(result) && fresh(result.sequence) && result.Valid()
        invariant result.Contents() == if i == start then [] else s[start..i]
      {
        assert sequence[i] == s[i];
        result.Append(sequence[i]);
        assert s[start..i + 1] == (if i == start then [] else s[start..i]) + [s[i]];
        i := i + 1;
      }
      return result;
    }

    /** A new sequence holding, in order, the elements at most `item`. */
    method SliceUpTo(item: int) returns (r: ArrayDS)
      requires Valid()
      ensures fresh(r) && fresh(r.sequence) && r.Valid()
      ensures r.Contents() == AtMost(Contents(), item)
    {
      var result := new ArrayDS();
      var i := 0;
      while i < numberOfEntries
        invariant 0 <= i <= numberOfEntries
        invariant fresh(result) && fresh(result.sequence) && result.Valid()
        invariant result.Contents() == AtMost(sequence[..i], item)
      {
        assert sequence[..i + 1][..i] == sequence[..i];
        if Compare(sequence[i], item) <= 0 {
          result.Append(sequence[i]);
        }
        i := i + 1;
      }
      assert sequence[..i] == Contents();
      return result;
    }
  }
}
