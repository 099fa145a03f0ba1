# ArrayDS: a verified model of a growable array-backed sequence

`ArrayDS<T>` is a zero-indexed sequence stored in an array buffer. The field
`sequence` is the buffer and `numberOfEntries` is the logical length. The
buffer starts at capacity 10 and doubles when an insertion finds it full.
The class offers:

- positional mutators: append, prefix, insert, deleteHead, deleteTail, trim, cut, clear;
- in-place reorderings: reverse, rotateRight, rotateLeft, shuffle;
- read-only queries: itemAt, isEmpty, size, first, last, predecessor, getFrequencyOf, lastOccurrenceOf;
- builders and comparison: the two `slice` builders and a lexicographic `compareTo`.

The model is imperative, like the source. `ArrayDSModel.ArrayDS` is a class
with the same two fields, an `array<int>` and a `nat`. `Valid()` is the object
invariant: `numberOfEntries <= sequence.Length` and `sequence.Length >= 10`.
`Contents()` is the abstract value `sequence[..numberOfEntries]`. Every
operation is a method or function of the class. Each one keeps `Valid()` and
gives its result and new contents as a function of the old contents. The
shifting loops are proved with loop invariants. The functions that specify
the operations are defined separately, and the lemmas about them are the
properties the container promises:

- `Edits`: insertion, removal, reversal and the two rotations;
- `Queries`: counting, last occurrence, predecessor and the `<=` filter;
- `Ordering`: element comparison and lexicographic order;
- `Shuffling`: shuffle staging and copy-back.

Java exceptions become values of `Outcomes.Error`: `IndexOutOfBounds`,
`EmptySequence` and `IllegalArgument`. They are returned in a `Result` or an
`Outcome`. Java `null` results become `Option.None`. Module `Client` uses only
the contracts. It replays the demo trace of `main` and the documented
examples, including eleven appends across a growth step.

Some behaviour of the code is easy to misread. The model follows the code as
written:

- `predecessor` starts matching at index 1. On `[3,3,5]` with item 3 it returns 3, the element at index 0. It does not return absent (`Queries.PredecessorSkipsIndexZero`).
- `shuffle` does not check for a bijection. Repeated sources and repeated destinations are accepted when every slot is covered (`Shuffling.ShuffleAcceptsRepeatedDestination`).
- `shuffle` is not atomic. When it finds an unset slot, the slots before it have already been overwritten (`Shuffling.ShuffleFailureIsNotAtomic`).
- `slice(start, numItems)` with `numItems <= 0` passes the range check whenever `start >= 0` and `start + numItems <= size`. It then returns an empty sequence, not absent.

## Model

| member | source | states |
|---|---|---|
| ArrayDSModel.ArrayDS.constructor | ArrayDS.java:42-45 | a new sequence is empty and has the default capacity 10 |
| ArrayDSModel.ArrayDS.Copy | ArrayDS.java:51-55 | the copy has equal contents and equal capacity, in a freshly allocated buffer that aliases nothing |
| ArrayDSModel.ArrayDS.Resize | ArrayDS.java:335-337 | capacity doubles into a fresh buffer whose front is the whole old buffer; contents and length are unchanged |
| ArrayDSModel.ArrayDS.GrowIfFull | ArrayDS.java:95-97 | the resize check every insertion makes first: a fresh buffer of double capacity exactly when the buffer is full, otherwise the same buffer; contents stay, and a free slot follows them |
| ArrayDSModel.ArrayDS.Append | ArrayDS.java:62-68 | contents become old contents followed by the item; a fresh buffer of double capacity exactly when the buffer was full, otherwise the same buffer |
| ArrayDSModel.ArrayDS.Prefix | ArrayDS.java:75-84 | contents become the item followed by the old contents; a fresh buffer of double capacity exactly when the buffer was full, otherwise the same buffer |
| ArrayDSModel.ArrayDS.Insert | ArrayDS.java:91-103 | a position outside [0, size] fails with IndexOutOfBounds and changes nothing; otherwise contents become old[..p] + [item] + old[p..], in a fresh buffer of double capacity exactly when the buffer was full |
| ArrayDSModel.ArrayDS.ShiftAndStore | ArrayDS.java:98-102 | the right-shift loop and store shared by prefix (position 0) and insert: in the same buffer, contents become old[..p] + [item] + old[p..] |
| ArrayDSModel.ArrayDS.ItemAt | ArrayDS.java:111-116 | succeeds exactly for positions in [0, size) with the element there; fails with IndexOutOfBounds otherwise |
| ArrayDSModel.ArrayDS.IsEmpty | ArrayDS.java:119-121 | true exactly when the contents are empty |
| ArrayDSModel.ArrayDS.Size | ArrayDS.java:124-126 | the length of the contents |
| ArrayDSModel.ArrayDS.First | ArrayDS.java:132-137 | absent exactly when empty (no error), otherwise the element at index 0 |
| ArrayDSModel.ArrayDS.Last | ArrayDS.java:143-148 | absent exactly when empty (no error), otherwise the element at the last index |
| ArrayDSModel.ArrayDS.Predecessor | ArrayDS.java:155-162 | the loop's answer equals PredecessorOf on the contents, without changing anything |
| ArrayDSModel.ArrayDS.GetFrequencyOf | ArrayDS.java:169-177 | the counting loop returns Count of the item in the contents |
| ArrayDSModel.ArrayDS.Clear | ArrayDS.java:183-186 | contents become empty; the buffer and its capacity are kept |
| ArrayDSModel.ArrayDS.LastOccurrenceOf | ArrayDS.java:193-200 | the backward scan returns LastIndexOf: the greatest matching index, or -1 |
| ArrayDSModel.ArrayDS.DeleteHead | ArrayDS.java:206-216 | on empty fails with EmptySequence and changes nothing; otherwise returns old[0] and leaves old[1..] |
| ArrayDSModel.ArrayDS.DeleteTail | ArrayDS.java:222-229 | on empty fails with EmptySequence and changes nothing; otherwise returns old[n-1] and leaves old[..n-1] |
| ArrayDSModel.ArrayDS.Trim | ArrayDS.java:232-238 | false and unchanged when numItems > size; otherwise true and contents become old[..n-numItems] |
| ArrayDSModel.ArrayDS.Cut | ArrayDS.java:241-250 | false and unchanged when start < 0 or start+numItems > size; otherwise true and contents become old[..start] + old[start+numItems..] |
| ArrayDSModel.ArrayDS.Reverse | ArrayDS.java:253-259 | the swap loop leaves the reversed old contents |
| ArrayDSModel.ArrayDS.RotateRight | ArrayDS.java:262-270 | contents become [old[n-1]] + old[..n-1]; no change when empty |
| ArrayDSModel.ArrayDS.RotateLeft | ArrayDS.java:276-284 | contents become old[1..] + [old[0]]; no change when empty |
| ArrayDSModel.ArrayDS.Shuffle | ArrayDS.java:290-308 | outcome and new contents are exactly those of Shuffled on the old contents, including the partial write-back on failure |
| ArrayDSModel.ArrayDS.WriteBack | ArrayDS.java:302-307 | the copy-back loop passes exactly when no staged slot is unset, and leaves Overlay of the staged slots on the old contents |
| ArrayDSModel.ArrayDS.CompareTo | ArrayDS.java:311-320 | the loop's answer is the lexicographic comparison Lex of the two contents |
| ArrayDSModel.ArrayDS.Slice | ArrayDS.java:340-349 | absent exactly when start < 0 or start+numItems > size; otherwise a fresh sequence holding old[start..start+numItems], empty when numItems <= 0; the source is not changed |
| ArrayDSModel.ArrayDS.SliceUpTo | ArrayDS.java:352-360 | a fresh sequence holding AtMost of the contents (elements <= item, in order); the source is not changed |
| ArrayDSModel.TrimmedLengthAsWritten | ArrayDS.java:232-238 | the length trim leaves is never negative, and for a non-negative count it never exceeds the old length |
| ArrayDSModel.NegativeTrimOverrunsCapacity | ArrayDS.java:233-236 | trim(-1) on a full sequence of capacity 10 claims 11 entries |
| Ordering.Compare | ArrayDS.java:319 | the three-way comparison is -1, 0 or 1 and is 0 exactly on equality and negative exactly when less |
| Ordering.LexFirstDifference | ArrayDS.java:311-320 | when the sequences agree before index k and differ at k, the comparison is the element comparison at k |
| Ordering.LexProperPrefixFirst | ArrayDS.java:319 | a proper prefix compares -1 against the longer sequence, and the longer one compares 1 |
| Ordering.LexZeroIffEqual | ArrayDS.java:311-320 | two sequences compare 0 exactly when they are equal |
| Ordering.LexAntisymmetric | ArrayDS.java:311-320 | swapping the operands negates the comparison |
| Ordering.LexTransitive | ArrayDS.java:311-320 | a < b and b < c imply a < c |
| Edits.RemovedUndoesInserted | ArrayDS.java:91-103 | after insertion the item is at position p and the length grows by one; cutting one item at p restores the original |
| Edits.InsertedFromShift | ArrayDS.java:98-101 | the buffer left by the right-shift loop and the store at p is the insertion of the item at p |
| Edits.RemovedFromShift | ArrayDS.java:245-248 | the buffer left by cut's left-shift loop, read up to the new length, is the old contents without the cut range |
| Edits.InsertedMultiset | ArrayDS.java:91-103 | insertion adds exactly one occurrence of the item |
| Edits.RemovedMultiset | ArrayDS.java:241-250 | cut removes exactly the occurrences in the cut range |
| Edits.TrimIsCutAtTail | ArrayDS.java:232-238 | trimming k items equals cutting the last k items |
| Edits.ReversedTwice | ArrayDS.java:253-259 | reversing twice is the identity |
| Edits.ReversedMultiset | ArrayDS.java:253-259 | reversal keeps the multiset of elements |
| Edits.RotateLeftUndoesRight | ArrayDS.java:262-284 | rotating left after rotating right restores the contents |
| Edits.RotateRightUndoesLeft | ArrayDS.java:262-284 | rotating right after rotating left restores the contents |
| Edits.RotatedMultiset | ArrayDS.java:262-284 | both rotations keep the multiset of elements |
| Queries.CountIsMultiplicity | ArrayDS.java:169-177 | the frequency of an item is its multiplicity in the multiset of contents |
| Queries.LastIndexOf | ArrayDS.java:193-200 | the result is in [-1, n); a non-negative result holds the item and nothing after it does; -1 means the item does not occur |
| Queries.LastIndexOfFoundIffCounted | ArrayDS.java:169-200 | lastOccurrenceOf finds an index exactly when getFrequencyOf is positive |
| Queries.FirstMatchAfterHead | ArrayDS.java:156-158 | the least index >= 1 holding the item, or the length when there is none |
| Queries.PredecessorOf | ArrayDS.java:155-162 | absent exactly when no index >= 1 holds the item; otherwise the element just before the first such index |
| Queries.PredecessorSkipsIndexZero | ArrayDS.java:156-158 | on [3,3,5] the predecessor of 3 is 3 (index 0); on [3,4,5] it is absent |
| Queries.AtMost | ArrayDS.java:352-360 | the filter is no longer than its input and every element it keeps is <= the pivot |
| Queries.AtMostExample | ArrayDS.java:355-356 | [5,3,8,1] filtered at pivot 5 is [5,3,1] |
| Queries.AtMostMultiset | ArrayDS.java:352-360 | elements <= the pivot keep their multiplicity; larger ones are dropped |
| Queries.AtMostConcat | ArrayDS.java:352-360 | filtering a concatenation concatenates the filters, so relative order is kept |
| Shuffling.Stage | ArrayDS.java:294-301 | the staging buffer has one slot per element |
| Shuffling.FirstUnset | ArrayDS.java:302-305 | the first slot never written, or the length: every earlier slot is set |
| Shuffling.OverlayUpTo | ArrayDS.java:302-307 | a buffer with staged values before the first unset slot f and old values from f on is the copy-back result, and f is the first unset slot |
| Shuffling.StageAt | ArrayDS.java:295-300 | staging slot j holds old[oldPositions[i]] for the last i with newPositions[i] == j, or is unset when j is never named |
| Shuffling.ShuffleSucceedsIffCovered | ArrayDS.java:290-308 | shuffle succeeds exactly when the arrays have equal length, every index is in range, and every destination in [0, n) appears in newPositions |
| Shuffling.ShuffleContents | ArrayDS.java:295-307 | after success, slot j holds old[oldPositions[i]] for the last i with newPositions[i] == j |
| Shuffling.ShuffleInPlaceKeepsContents | ArrayDS.java:290-308 | pairs that map every position to itself leave the contents unchanged, whatever the outcome |
| Shuffling.ShuffleFailureIsNotAtomic | ArrayDS.java:302-307 | on [10,20,30] with pairs (2 -> 0) shuffle fails with IllegalArgument after slot 0 became 30 |
| Shuffling.ShuffleAcceptsRepeatedDestination | ArrayDS.java:295-306 | on [10,20] with pairs (0->0, 1->1, 0->1) shuffle succeeds and leaves [10,10] |

## Left out

- `main` (ArrayDS.java:10-35) prints to the console. Its trace is replayed with assertions by `Client.DemoTrace`.
- `toString` (ArrayDS.java:323-329) depends on each element's own `toString`, which is not part of this model.
- Elements are `int`, compared with the -1/0/1 results of `Integer.compare`. The generic `T extends Comparable` and the behaviour of other element types' `compareTo` are not part of this model.
- Stored elements are never null. Shuffle's null "unset" staging slots are `Option.None`.
- `clear` also fills the whole buffer with null (ArrayDS.java:185). This only releases references for garbage collection and is not modelled.
- The `int[]` arguments of `shuffle` are modelled as `seq<int>`, because shuffle only reads them.
- Java `int` overflow, including in `start + numItems`, is not modelled. All integers are unbounded.
- `SequenceInterface` and `ReorderInterface` are not part of this model. The `EmptySequenceException` class (ArrayDS.java:363-367) is the error `EmptySequence`.
- ArrayDSModel.ArrayDS.Trim: requires `numItems >= 0`. The code does not check the sign. A negative count raises the length and can push it past the capacity (see Findings).
- ArrayDSModel.ArrayDS.Cut: requires `numItems >= 0`. The code does not check the sign. A negative count passes the range check whenever `start >= 0` and `start + numItems <= size`. If `start + numItems` is negative, the copy loop (ArrayDS.java:245-246) first reads that negative index, so `cut(0, -3)` reads index -3 and throws before the length changes. Otherwise the loop runs forward and writes each element `-numItems` places ahead of where it reads. It therefore repeats the block just before `start` instead of moving it: `cut(1, -1)` on [1, 2, 3, 4] leaves [1, 1, 1, 1, 1]. The length then grows by `-numItems`, unless a write past the capacity throws part-way through the loop.

## Findings

| source | as written | input that shows it | evidently intended | confidence | as-written member | corrected member |
|---|---|---|---|---|---|---|
| ArrayDS.java:233-236 | `trim` subtracts `numItems` from the length without checking its sign | `trim(-1)` on a full sequence of capacity 10 sets the length to 11, beyond the buffer | a negative count is rejected or never passed, so the length stays within the capacity | not executed | ArrayDSModel.NegativeTrimOverrunsCapacity | ArrayDSModel.ArrayDS.Trim |
