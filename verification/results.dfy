/** Outcome types shared by the whole model: optional values, the result of a
    store-backed operation, and the abstract store failure that aborts one. */
module Results {

  datatype Option<+T> = None | Some(value: T)

  /** The only error the engine reports: a failure of the key-value store. */
  datatype Error = StoreError

  datatype Result<+T> = Ok(value: T) | Err(error: Error)

  /** Which store access fails, if any. Accesses are numbered from 0 in the
      order the operation issues them; an operation that issues fewer than
      `op + 1` accesses is not affected by `FailAt(op)`. */
  datatype Fault = NoFault | FailAt(op: nat)

  /** True iff the fault strikes one of the first `ops` store accesses. */
  predicate Hits(f: Fault, ops: nat) {
    f.FailAt? && f.op < ops
  }
}
