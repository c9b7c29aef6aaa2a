/** Option and Result datatypes for the error paths of the planner core, and the
    .NET exceptions those paths stand for. */
module Wrappers {

  datatype Option<+T> = None | Some(value: T)

  datatype Result<+T, +E> = Success(value: T) | Failure(error: E)

  /** The exceptions the core throws: `InvalidOperationException` (removing from an
      empty queue), `NotImplementedException` (members the source leaves unimplemented)
      and the `ArgumentException` of `ImmutableSortedDictionary.Add` when the key is
      already present with a different value. */
  datatype Exception = InvalidOperation | NotImplemented | DuplicateKey
}
