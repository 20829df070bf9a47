/** Failure-compatible results shared by every module of the model. */
module Wrappers {

  datatype Option<+T> = None | Some(value: T)

  /** The conditions on which an analysis aborts. None of them carries a
      diagnostic payload: presenting the offending leaf, category or clade
      is left to the caller. */
  datatype Error =
    | RootHasNoParent          // a clade was requested for the root
    | MissingAttribute         // a leaf in an attribute table lacks the requested attribute
    | MissingTag               // a leaf has no tag in a consulted metadata category
    | LengthMismatch           // the selected alignment rows differ in length
    | SingleLeafClade          // a clade with fewer than two leaves reached the classifier
    | DuplicateClassification  // the classifier recorded one clade twice for a category

  datatype Result<+T> = Ok(value: T) | Err(error: Error) {
    predicate IsFailure() { Err? }

    function PropagateFailure<U>(): Result<U>
      requires Err?
    {
      Err(error)
    }

    function Extract(): T
      requires Ok?
    {
      value
    }
  }
}
