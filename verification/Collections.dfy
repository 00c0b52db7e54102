/** Shared notions about values and sequences. */
module Collections {
  datatype Option<T> = None | Some(value: T)

  type Byte = x: int | 0 <= x < 256

  ghost predicate Distinct<T>(s: seq<T>) {
    forall i, j :: 0 <= i < j < |s| ==> s[i] != s[j]
  }

  /** Arrangements of the same elements are equally long. */
  lemma SameLength<T>(s: seq<T>, t: seq<T>)
    requires multiset(s) == multiset(t)
    ensures |s| == |t|
  {
    assert |multiset(s)| == |s| && |multiset(t)| == |t|;
  }
}
