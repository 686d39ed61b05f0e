/** The error kinds of the store. A violated schema constraint surfaces as `Constraint`. */
module StoreErrors {
  datatype StoreError = InvalidInput | Conflict | NotFound | Constraint | Corrupt
}
