/** Option and Result values used across the model. A Python exception that
    escapes an analysis step is modelled as an `Err` carrying its kind. */
module Wrappers {

  datatype Option<+T> = None | Some(value: T)

  /** The kinds of Python exception the analysed steps can raise. */
  datatype Error =
    | MembershipOnScalar   // `'k' in v` where v is a number or a boolean (TypeError)
    | NotSubscriptable     // `v['k']` where v is a string or a list (TypeError)
    | NotAString           // `.split` / `.translate` on a value that is not a string (AttributeError)
    | NotAMapping          // `.items()` on a value that is not a mapping (AttributeError)
    | NotIterable          // iterating a number, a boolean or None (TypeError)
    | Unhashable           // a list or mapping used as a graph node (TypeError)
    | NoneNode             // None used as a graph node, which networkx refuses (ValueError)
    | LoaderError          // a YAML error other than a parser or scanner error, such as a
                           // composer or constructor error, which the compose analysis
                           // does not catch
    | CyclicGraph          // dag_longest_path_length on a graph with a cycle (NetworkXUnfeasible)

  datatype Result<+T> = Ok(value: T) | Err(error: Error) {
    predicate IsFailure() { Err? }
    function PropagateFailure<U>(): Result<U>
      requires Err?
    {
      Err(error)
    }
    function Extract(): T
      requires Ok?
    {
      value
    }
  }
}
