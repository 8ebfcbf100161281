/** Option and Result, used for the error paths of the configuration store. */
module Wrappers {

  datatype Option<+T> = None | Some(value: T)

  datatype Result<+T, +E> = Success(value: T) | Failure(error: E)
}

/** The ways a configuration operation can fail. */
module Errors {

  datatype Error =
    | ReadFailed(reason: string)  // reading or decoding the file failed; the loader's error is returned as is
    | RootNotObject               // the decoded document is not a JSON object (a failed type assertion in the source)
    | NullLeaf                    // an object holds a JSON null (a reflection panic in the source)
    | NotNumeric                  // AsInt on a value that is not a number, or on an absent key
}
