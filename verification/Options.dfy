/** What most modules share: optional values, which stand for mlog's null and for failures without a message,
    prefixes of sequences, and the keys of folded statements. */
module Options {
  datatype Option<+T> = None | Some(value: T)

  predicate StartsWith<T(==)>(s: seq<T>, prefix: seq<T>) { |prefix| <= |s| && s[..|prefix|] == prefix }

  /** A statement under `forall k :: Unfold(k) ==> ...` is kept folded: the solver looks inside only where
      `Unfold(0)` is mentioned. */
  predicate Unfold(k: int) { true }

  /** A second key, for the contents of memory. */
  predicate Inside(k: int) { true }
}
