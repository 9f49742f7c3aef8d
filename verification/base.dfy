/** Values shared by every layer of the model: Python's two failure kinds
    that the anagram code can raise, and the usual Option/Result wrappers. */
module Base {

  /** `KeyError`: a character missing from the prime table (or a word missing
      from the lexicon). `TypeError`: arithmetic on the empty-string code
      `''` that `encode` returns for an empty text. */
  datatype Error = KeyError | TypeError

  datatype Option<T> = None | Some(value: T)

  datatype Result<T> = Success(value: T) | Failure(error: Error)

  /** No value occurs twice. */
  predicate Distinct<T(==)>(s: seq<T>)
  {
    forall i, j :: 0 <= i < j < |s| ==> s[i] != s[j]
  }
}
