/** Small datatypes shared by the models. */
module Common {
  datatype Option<+T> = None | Some(value: T)

  function Max(a: int, b: int): int {
    if a < b then b else a
  }

  /** Regrouping a concatenation. */
  lemma Regroup<T>(a: seq<T>, b: seq<T>, c: seq<T>, d: seq<T>)
    ensures a + (b + (c + d)) == a + b + c + d
    ensures b == [] ==> a + b == a
    ensures c == [] ==> a + (b + d) == a + b + d && a + b + c == a + b
  {
  }

  function Min(a: int, b: int): int {
    if a < b then a else b
  }
}
