/** Failure-carrying values shared by the whole model.
    Python raises exceptions; the model returns them as `Err` values. */
module Base {

  datatype Option<+T> = None | Some(value: T)

  /** The exceptions the modelled code can raise or catch. */
  datatype Fault =
    | KeyError            // a dict lookup of an absent key
    | IndexError          // path_parts[i] past the end of the list
    | AttributeError      // `obj.book.name` while `obj.book` is None
    | IsADirectoryError   // os.remove on a directory
    | FileNotFoundError   // os.stat of a path that does not exist

  datatype Result<+T> = Ok(value: T) | Err(fault: Fault)
}
