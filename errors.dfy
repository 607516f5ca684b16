/** Error and option values shared by the whole model (src/error.rs).
    Only the two variants that the registry bookkeeping raises itself are
    kept; the I/O, JSON, CLI, HTTP and home-directory variants belong to
    the parts of the program that are not modelled. */
module Errors {

  datatype NrsError =
    | RegistryNotFound(name: string)
    | InvalidRegistryUrl(url: string)

  datatype Option<+T> = None | Some(value: T)

  /** `Result<T, NrsError>`; `Result<()>` stands for `Result<(), NrsError>`. */
  datatype Result<+T> = Ok(value: T) | Err(error: NrsError)
}
