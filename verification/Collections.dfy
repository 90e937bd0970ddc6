/** What several modules share: an optional value, and the size of a subset. */
module Collections {

  datatype Option<T> = None | Some(value: T)

  lemma SubsetSize<T>(s: set<T>, t: set<T>)
    requires s <= t
    ensures |s| <= |t| && (|s| == |t| ==> s == t)
  {
    assert t == s + (t - s);
    assert |t| == |s| + |t - s|;
  }
}
