/** Option and Result values, and the errors the core raises. */
module Wrappers {

  datatype Option<+T> = None | Some(value: T)

  /** The exceptions raised by the sakdb core, one case per distinct cause. */
  datatype Error =
    | HeaderHasSeparator   // sakdb_dumps: '&' in a field header
    | MissingSeparator     // a field line without the payload separator
    | BadJson              // json.loads refused the text (or a value the model does not carry)
    | MissingEntry         // a parsed header lacks "t", "k" or "c"
    | ShortKey             // an object key shorter than four characters
    | NoSession            // a write outside a session
    | SessionAlreadyOpen   // graph.session() while one is open
    | ClassAlreadyRegistered
    | UnknownClass         // graph.get_class on a name never registered
    | NoClassRecord        // no "_cl" record (or field) for an object key
    | NoRecord             // no record where one is needed (metadata, "meta")
    | NoAttribute          // the record lacks the requested entry
    | BadVersion           // a version string that is not three integers
    | NotAString           // version metadata that is not a JSON string
    | NoType               // legacy merge with both sides missing

  datatype Result<+T> = Ok(value: T) | Fail(error: Error)
}
