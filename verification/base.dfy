/** Vocabulary shared by every stage of the ingestion pipeline: the records
    the open-data API serves and the success-or-error value each stage hands
    to the next. */
module Base {

  /** One crime incident as the API serves it: a flat mapping from field name
      to value. Different records may carry different field sets. */
  type Record = map<string, string>

  datatype Option<+T> = None | Some(value: T)

  /** A stage either succeeds with a value or fails with an error; failures
      are propagated unchanged to the caller. */
  datatype Result<+T, +E> = Ok(value: T) | Err(error: E)
}
