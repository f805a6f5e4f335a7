/** Types shared by every crate of the model. */
module Common {

  /** A Rust `u8`. */
  type byte = x: int | 0 <= x < 0x100

  datatype Option<+T> = None | Some(value: T)

  /** A Rust `Result<T, E>`. */
  datatype Result<+T, +E> = Ok(value: T) | Err(error: E)

  /** A prefix one element longer is the prefix with that element appended. */
  lemma PrefixStep<T>(e: seq<T>, k: nat)
    requires k < |e|
    ensures e[..k + 1] == e[..k] + [e[k]]
  {
  }
}
