/** The ways one call of the pipeline can fail, and the result type that
    carries them.  Each error aborts the whole call: no partial output. */
module Failures {

  datatype Failure =
    | EmptyQuery            // np.nanmin over an empty array of query times
    | UnsupportedModel      // MODEL other than FGRN055 leaves file_pattern unbound
    | NoFiles               // no file selected: ny, nx and fv are never bound
    | UnsupportedVariable   // VARIABLE other than hgtsrf or smb leaves scale_factor unbound
    | ShapeMismatch         // a file's block does not fit the buffer it is written into
    | BadTimeUnits          // the time units string does not hold exactly six numbers
    | EmptyRecord           // min/max of a time axis with no steps

  datatype Result<T> = Ok(value: T) | Err(error: Failure)

  datatype Option<T> = None | Some(value: T)
}
