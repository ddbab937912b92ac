/** Small shared vocabulary: an optional value, used for the source's `None`
    results and for its raised errors. */
module Common {

  datatype Option<+T> = None | Some(value: T)

  /** True when no element occurs twice in `s`. */
  ghost predicate NoDuplicates<T>(s: seq<T>) {
    forall i, j :: 0 <= i < j < |s| ==> s[i] != s[j]
  }
}
