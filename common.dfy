/** Stock wrappers shared by every module of the model. */
module Common {

  /** A `Uint8Array` element. */
  type byte = x: int | 0 <= x < 256

  datatype Option<T> = None | Some(value: T)

  /** The outcome of an operation that can fail; `Err` carries why. */
  datatype Result<T, E> = Ok(value: T) | Err(error: E)

  /** Concatenation regroups freely; stated once so that proofs need not rebuild it element by element. */
  lemma AppendAssoc<T>(a: seq<T>, b: seq<T>, c: seq<T>)
    ensures a + b + c == a + (b + c)
  {
  }
}
