/** Outcomes of the modelled Java calls: a value, or the exception the call throws. */
module Results {

  datatype Option<+T> = None | Some(value: T)

  /** The exceptions (and the stack overflow) that the modelled code can end in. */
  datatype Fault =
    | DeadNode          // IllegalStateException "Tried to access dead node" (LSTree.getNode)
    | ShortCycle        // IllegalStateException "Should have at least 2 vertices" (LSTree.processBackward)
    | Unreachable       // IllegalStateException "Should never reach here" (LSTree.processEdge)
    | NotInUnionFind    // IllegalArgumentException of UnionFind.find for an element it does not hold
    | MalformedGraph    // IllegalArgumentException "Malformed input graph" (EdgeStream)
    | NumberFormat      // NumberFormatException of Integer.parseInt
    | IndexOutOfBounds  // ArrayIndexOutOfBoundsException (a field missing after String.split)
    | NoSuchElement     // NoSuchElementException of Iterator.next
    | NullPointer       // NullPointerException (a method called on null)
    | StackOverflow     // StackOverflowError: a recursion along parent links that never ends

  /** A Java call that returns a T or throws. Usable with `:-`. */
  datatype Result<+T> = Ok(value: T) | Err(error: Fault) {
    predicate IsFailure() { Err? }
    function PropagateFailure<U>(): Result<U> requires Err? { Err(error) }
    function Extract(): T requires Ok? { value }
  }
}
