/** Small facts about sequences used as ordered collections of keys and labels. */
module Seqs {

  /** No element occurs twice. */
  predicate Distinct<T(==)>(s: seq<T>)
  {
    forall i, j :: 0 <= i < j < |s| ==> s[i] != s[j]
  }

  /** The position of the first occurrence of `x` in `s`. */
  function IndexOf<T(==)>(s: seq<T>, x: T): (r: nat)
    requires x in s
    ensures r < |s| && s[r] == x
    ensures x !in s[..r]
  {
    if s[0] == x then 0 else 1 + IndexOf(s[1..], x)
  }

  /** The position of an occurrence with none before it is the first position. */
  lemma IndexOfFirst<T>(s: seq<T>, x: T, j: nat)
    requires j < |s| && s[j] == x && x !in s[..j]
    ensures IndexOf(s, x) == j
  {
    if j > 0 {
      assert s[0] in s[..j];
      assert s[1..][..j - 1] == s[1..j];
      assert s[1..][j - 1] == x;
      IndexOfFirst(s[1..], x, j - 1);
    }
  }

  /** Position in `s` of position `j` of `RemoveAt(s, p)`. */
  function Shift(j: nat, p: nat): nat
  {
    if j < p then j else j + 1
  }

  /** `s` with its element at position `p` taken out. */
  function RemoveAt<T>(s: seq<T>, p: nat): (r: seq<T>)
    requires p < |s|
    ensures |r| == |s| - 1
    ensures forall j :: 0 <= j < |r| ==> r[j] == s[Shift(j, p)]
  {
    s[..p] + s[p + 1..]
  }
}
