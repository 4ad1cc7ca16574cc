/** Failure-compatible wrappers and the failure conditions the scripts raise. */
module Common {

  datatype Option<+T> = None | Some(value: T)

  datatype Result<+T, +E> = Success(value: T) | Failure(error: E)

  /** The exceptions that end a run of one of the scripts. */
  datatype Error =
    | NoImagesExtracted   // process_pdf: `if not images: raise ValueError(...)`
    | UnpackMismatch      // a 2-tuple returned where the caller unpacks three values
    | CompareTypeError    // `float > str` or `float > None`

  /** One PII record: `BeginOffset`, `EndOffset`, `Score` and `Type`, as
      the regex detectors build them and as Comprehend returns them. */
  datatype Entity = Entity(beginOffset: nat, endOffset: nat, score: real, kind: string)

  /** Taking one more element of a sequence appends that element. */
  lemma PrefixSnoc<T>(s: seq<T>, i: nat)
    requires i < |s|
    ensures s[..i + 1] == s[..i] + [s[i]]
  {
  }

  function Max(a: int, b: int): int { if a < b then b else a }

  function Min(a: int, b: int): int { if a < b then a else b }
}
