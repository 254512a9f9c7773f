/** Values shared by every part of the model: optional slots, the .NET
    exceptions the builder can raise, and references into the symbol arena. */
module Common {

  /** A slot that may still be null. */
  datatype Option<+T> = None | Some(value: T)

  /** The exceptions that abort a pass. None of them is caught: a thrown
      exception ends the whole symbol-tree build. */
  datatype Exception =
    | InvalidCast          // a `(T)x` cast whose operand is not a T
    | NullReference        // a member access through a null reference
    | DuplicateKey(key: string)  // `Add` on a dictionary that already holds the key
    | UnknownMethodParent  // the InvalidOperationException of the method visit

  /** Either a value or the exception that was thrown instead. */
  datatype Result<+T> = Ok(value: T) | Throw(exception: Exception) {
    predicate IsFailure() { Throw? }

    function PropagateFailure<U>(): Result<U>
      requires Throw?
    {
      Throw(exception)
    }

    function Extract(): T
      requires Ok?
    {
      value
    }
  }

  /** A symbol is addressed by its position in the arena. */
  type Ref = nat
}
