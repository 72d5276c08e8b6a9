/** Option and Result values shared by every module of the model.

    Every failure in the modelled program is a Python `ValueError` (or a bare
    `Exception` for the missing title); here each one is an `Error` value
    carried by `Result.Err`, so that a failing call is an ordinary result. */
module Wrappers {

  datatype Option<+T> = None | Some(value: T)

  /** The program's error conditions, one constructor per `raise` site. */
  datatype Error =
    | UnmatchedDelimiter(delimiter: string)  // split_nodes_delimiter: even number of parts
    | EmptySeparator                         // str.split with an empty separator
    | InvalidCodeBlock                       // code_to_html_node: block without opening fence
    | SubstringNotFound(sub: string)         // str.index found nothing
    | MissingValue                           // LeafNode.to_html with value None
    | MissingTag                             // ParentNode.to_html without a tag
    | MissingChildren                        // ParentNode.to_html with children None
    | NoTitle                                // extract_title: no "# " line

  datatype Result<+T> = Ok(value: T) | Err(error: Error) {

    predicate IsFailure() {
      Err?
    }

    function PropagateFailure<U>(): Result<U>
      requires Err?
    {
      Err(error)
    }

    function Extract(): T
      requires Ok?
    {
      value
    }
  }
}
