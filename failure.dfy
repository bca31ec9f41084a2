/** Fatal conditions of the recompiler and its collaborators.
    Every error in the modelled code prints a diagnostic and calls exit(1);
    the model returns the condition instead, so that callers can state what
    happens on the fatal path (nothing further). */
module Failure {

  datatype Fatal =
    | Undecodable(word: bv32)       // unknown opcode, special function or cop0 sub-opcode
    | UnmappedRead(addr: bv32)      // Bus::read panic
    | UnmappedWrite(addr: bv32)     // Bus::write panic
    | OutOfMemory(request: nat)     // AllocBlock found no free block large enough
    | DoubleFree(ptr: nat)          // FreeBlock: block already free or magic wrong
    | InvalidPointer(ptr: nat)      // FreeBlock: no block header in front of ptr

  datatype Result<+T> = Ok(value: T) | Err(error: Fatal) {
    predicate IsFailure() { Err? }
    function PropagateFailure<U>(): Result<U>
      requires Err?
    {
      Err(error)
    }
    function Extract(): T
      requires Ok?
    {
      value
    }
  }

  datatype Outcome = Pass | Fail(error: Fatal) {
    predicate IsFailure() { Fail? }
    function PropagateFailure<U>(): Result<U>
      requires Fail?
    {
      Err(error)
    }
  }
}
