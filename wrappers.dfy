/** Option and Result values standing for Ruby's nil and for raised exceptions. */
module Wrappers {

  datatype Option<+T> = None | Some(value: T)

  /** The exceptions the modelled code raises (or lets through from the store). */
  datatype Error =
    | RecordNotFound      // ActiveRecord::RecordNotFound from find_by! or an explicit raise
    | SourceNotFound      // ArgumentError raised by verify_source!
    | InsertFailed        // whatever insert_all! raised, propagated unchanged

  datatype Result<+T> = Ok(value: T) | Err(error: Error)
}
