/** Outcomes of the store's mutating helpers.

  The fallback store never catches the TypeErrors its path helpers raise:
  they propagate out of `set`, `update` and `push` before anything is
  persisted. `Result` carries either the new tree or the reason it threw.
 */
module Results {

  /** Why a write threw instead of persisting.
      - PrimitiveTarget: a property was read from or assigned to null or a
        primitive (number, boolean, string) while walking or writing a path;
        module code runs in strict mode, so such an assignment throws.
      - CircularSnapshot: the tree to persist contains itself, so serialising
        it throws. */
  datatype Fault = PrimitiveTarget | CircularSnapshot

  datatype Result<+T> = Ok(value: T) | Err(fault: Fault)
}
