/** Element comparison and the lexicographic order on whole sequences. */
module Ordering {

  /** Three-way comparison of two elements, with the -1/0/1 results of Integer.compare. */
  function Compare(a: int, b: int): (r: int)
    ensures -1 <= r <= 1
    ensures r == 0 <==> a == b
    ensures r < 0 <==> a < b
  {
    if a < b then -1 else if a == b then 0 else 1
  }

  /**
   * Lexicographic comparison: the first non-zero element comparison over the
   * shared prefix decides; otherwise the lengths are compared.
   */
  function Lex(s: seq<int>, t: seq<int>): (r: int)
    decreases |s|
  {
    if |s| == 0 || |t| == 0 then Compare(|s|, |t|)
    else if Compare(s[0], t[0]) != 0 then Compare(s[0], t[0])
    else Lex(s[1..], t[1..])
  }

  /** Lex is the reference definition: its value is the comparison at the first differing index. */
  lemma {:induction false} LexFirstDifference(s: seq<int>, t: seq<int>, k: nat)
    requires k < |s| && k < |t|
    requires s[..k] == t[..k] && s[k] != t[k]
    ensures Lex(s, t) == Compare(s[k], t[k])
  {
    if k > 0 {
      assert s[0] == s[..k][0] == t[..k][0] == t[0];
      assert s[1..][..k - 1] == s[..k][1..] == t[..k][1..] == t[1..][..k - 1];
      LexFirstDifference(s[1..], t[1..], k - 1);
    }
  }

  /** When one sequence is a proper prefix of the other, the shorter one sorts first. */
  lemma {:induction false} LexProperPrefixFirst(s: seq<int>, t: seq<int>)
    requires |s| < |t| && s == t[..|s|]
    ensures Lex(s, t) == -1 && Lex(t, s) == 1
  {
    if |s| > 0 {
      assert s[0] == t[0];
      assert s[1..] == t[1..][..|s| - 1];
      LexProperPrefixFirst(s[1..], t[1..]);
    }
  }

  /** Two sequences compare equal exactly when they are the same sequence. */
  lemma {:induction false} LexZeroIffEqual(s: seq<int>, t: seq<int>)
    ensures Lex(s, t) == 0 <==> s == t
    decreases |s|
  {
    if |s| > 0 && |t| > 0 && s[0] == t[0] {
      LexZeroIffEqual(s[1..], t[1..]);
      if s[1..] == t[1..] {
        assert s == [s[0]] + s[1..] && t == [t[0]] + t[1..];
      }
    }
  }

  /** Swapping the operands negates the comparison. */
  lemma {:induction false} LexAntisymmetric(s: seq<int>, t: seq<int>)
    ensures Lex(s, t) == -Lex(t, s)
    decreases |s|
  {
    if |s| > 0 && |t| > 0 && s[0] == t[0] {
      LexAntisymmetric(s[1..], t[1..]);
    }
  }

  /** The order is transitive. */
  lemma {:induction false} LexTransitive(a: seq<int>, b: seq<int>, c: seq<int>)
    requires Lex(a, b) < 0 && Lex(b, c) < 0
    ensures Lex(a, c) < 0
    decreases |a|
  {
    if |a| > 0 && |b| > 0 && |c| > 0 && a[0] == b[0] == c[0] {
      LexTransitive(a[1..], b[1..], c[1..]);
    }
  }
}
