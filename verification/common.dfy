/** Small shared datatypes. */
module Common {

  /** An optional value, the model's counterpart of Rust's `Option`. */
  datatype Option<+T> = None | Some(value: T)

  /** True when no element occurs twice in `xs`. */
  predicate Distinct<T(==)>(xs: seq<T>) {
    forall a, b :: 0 <= a < b < |xs| ==> xs[a] != xs[b]
  }

  lemma ConcatAssoc<T>(a: seq<T>, b: seq<T>, c: seq<T>)
    ensures a + b + c == a + (b + c)
  {
  }
}
