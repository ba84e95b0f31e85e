/** Values seen by the register-allocation verifier and the failures it can raise. */
module Values {

  /** An optional value; `None` stands for an array slot that is still null. */
  datatype Option<+T> = None | Some(value: T)

  /**
   * The JVMCI/LIR values the verifier compares by identity: symbolic variables
   * before allocation, physical registers and virtual stack slots after it,
   * constants, and the `ILLEGAL` marker for an absent value.
   */
  datatype Value =
    | Variable(id: nat)
    | Register(number: nat)
    | StackSlot(slot: nat)
    | Constant(bits: int)
    | Illegal

  /** Only registers and variables may be the payload of a Value allocation state. */
  predicate IsSymbol(v: Value) {
    v.Variable? || v.Register?
  }

  /** The exceptions the verifier raises on an internal inconsistency. */
  datatype Fatal =
    | IllegalAllocationState      // ValueAllocationState built from a value that is neither register nor variable
    | MalformedInstruction        // a cast or array access in phi resolution that the Java code would not survive
    | NoPredecessors              // phi resolution on a block without predecessors (null location set)
    | PhiLocationNotUnique        // the location intersection does not have exactly one element
    | MissingEntryState           // phase 2 reaches a block that phase 1 never gave an entry state

  /** The result of an operation that either succeeds or raises a fatal error. */
  datatype Result<+T> = Ok(value: T) | Err(error: Fatal)
}
