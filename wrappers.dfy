/** Option and Result values, and the errors the pipeline can raise. */
module Wrappers {

  datatype Option<+T> = None | Some(value: T)

  /** The exceptions the Python code raises on bad input. */
  datatype Error =
    | NotInList        // `list.index` found no match (BWT of the empty text)
    | IndexOutOfRange  // list subscript outside [-n, n)
    | EmptyHeap        // `heap[0]` on an empty heap (empty frequency table)

  datatype Result<+T> = Ok(value: T) | Err(error: Error)
}
