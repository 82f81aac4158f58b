/** Result codes and optional values shared by all components. */
module Common {

  datatype Option<+T> = None | Some(value: T)

  /** The status codes that the modelled operations return. */
  datatype Status =
    | Ok
    | InvalidArgument
    | NotFound
    | AlreadyExists
    | InternalError
    | ExecutionError
    | TransactionError
}
