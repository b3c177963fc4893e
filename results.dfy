/**
 * The exceptions that the column model and the catalog layer can raise,
 * and a failure-compatible Result type that carries them.
 */
module Results {

  /** One constructor per way the Python code fails. */
  datatype Error =
    | InvalidAxis      // ValueError: the Euler load was asked for an axis other than x or y
    | ZeroArea         // ValueError: "The area cannot be zero."
    | ZeroLength       // ValueError: "The height and K-factors cannot be zero."
    | MathDomain       // ValueError from math.sqrt of a negative number
    | ZeroDivision     // ZeroDivisionError that no handler turns into a ValueError
    | MissingLoad      // AttributeError: the column's axial_load is still None
    | ParseFailure     // ValueError from float() on a token that is not a number
    | IndexOutOfRange  // IndexError: a row or a selection is too short
    | MissingColumn    // KeyError: a table has no column of that name

  datatype Result<+T> = Ok(value: T) | Err(error: Error) {

    predicate IsFailure() {
      Err?
    }

    function PropagateFailure<U>(): Result<U>
      requires Err?
    {
      Err(error)
    }

    function Extract(): T
      requires Ok?
    {
      value
    }
  }

  datatype Option<+T> = None | Some(value: T)
}
