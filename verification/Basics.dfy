/** Values shared by every part of the model. */
module Basics {

  /** The largest integer a JavaScript number represents exactly together with its neighbours. */
  const MAX_SAFE := 9007199254740991

  /** One UTF-16 code unit; a JavaScript string is a sequence of them. */
  type Code = c: int | 0 <= c < 0x10000

  type Text = seq<Code>

  type Byte = b: int | 0 <= b < 256

  datatype Option<+T> = None | Some(value: T)

  /** A value or the error that was thrown instead of it. */
  datatype Result<+T, +E> = Ok(value: T) | Err(error: E) {
    predicate IsFailure() { Err? }

    function PropagateFailure<U>(): Result<U, E>
      requires Err?
    {
      Err(error)
    }

    function Extract(): T
      requires Ok?
    {
      value
    }
  }

  function Min(a: int, b: int): int { if a < b then a else b }

  function Max(a: int, b: int): int { if a < b then b else a }

  lemma {:induction false} SubsetIsSmaller<T>(small: set<T>, big: set<T>)
    requires small <= big
    ensures |small| <= |big|
  {
    if small != {} {
      var x :| x in small;
      SubsetIsSmaller(small - {x}, big - {x});
    }
  }
}
