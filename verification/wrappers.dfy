/** Java-level outcomes shared by the containers: a nullable reference is an
    `Option`, and a call either returns normally or raises one of the
    unchecked exceptions the containers throw. */
module Wrappers {

  /** A Java reference that may be null: `None` is `null`. */
  datatype Option<+T> = None | Some(value: T)

  /** The runtime exceptions raised by the modelled code. */
  datatype JavaException =
    | NullPointerException
    | NoSuchElementException
    | IndexOutOfBoundsException
    | IllegalArgumentException

  /** A call that returns a value or completes abruptly with an exception. */
  datatype Result<+T> = Ok(value: T) | Throw(ex: JavaException)

  /** A `void` call that returns normally or completes abruptly. */
  datatype Outcome = Normal | Abrupt(ex: JavaException)

  /** The containers' `ifNullExcept`: a null answer becomes
      `NoSuchElementException`, any other is returned. */
  function IfNullExcept<T>(e: Option<T>): (r: Result<T>)
    ensures r.Ok? <==> e.Some?
    ensures r.Ok? ==> r.value == e.value
    ensures r.Throw? ==> r.ex == NoSuchElementException
  {
    if e.None? then Throw(NoSuchElementException) else Ok(e.value)
  }
}
