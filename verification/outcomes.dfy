/**
  Failure-carrying values shared by the entity model and the repository.

  The Python code reports failure by raising: `ValueError` from the
  `Producto` setters, `KeyError` from `Inventario`, and
  `sqlite3.IntegrityError` from an INSERT with a taken primary key.
  Each of those becomes a constructor of `Error`.
 */
module Outcomes {

  datatype Option<+T> = None | Some(value: T)

  /** One constructor per exception the modelled code raises. */
  datatype Error =
    | EmptyName                     // ValueError: name blank after strip()
    | NegativeQuantity              // ValueError: cantidad < 0
    | NegativePrice                 // ValueError: precio < 0
    | DuplicateId(id: int)          // KeyError from Inventario.agregar
    | MissingId(id: int)            // KeyError from Inventario.eliminar / actualizar_*
    | PrimaryKeyViolation(id: int)  // IntegrityError from the INSERT
  {
    /** The errors raised by the validating setters of `Producto`. */
    predicate IsValidation() {
      EmptyName? || NegativeQuantity? || NegativePrice?
    }
  }

  /** The value a call returns, or the exception it raised instead. */
  datatype Result<+T> = Ok(value: T) | Err(error: Error) {

    predicate IsFailure() {
      Err?
    }

    function PropagateFailure<U>(): Result<U>
      requires Err?
    {
      Err(error)
    }

    function Extract(): T
      requires Ok?
    {
      value
    }
  }

  /**
    The outcome of a call that mutates an object in place and may raise:
    the object's state after the call, and the exception raised, if any.
    When `raised` is `Some`, `state` is whatever the object holds after
    the aborted call, so "a failed call changes nothing" is stated as
    `state == prior`.
   */
  datatype Step<+S> = Step(state: S, raised: Option<Error>) {

    predicate Raised() {
      raised.Some?
    }
  }
}
