/** Wrapper types shared by the model of the `/get-doc` handler, and the
    exceptions that can reach its `except Exception` clause. */
module Results {

  datatype Option<+T> = None | Some(value: T)

  /** The exceptions raised inside the handler's `try` block. The text of
      `str(e)` comes from Python and its libraries; the constructor stands
      for it. */
  datatype Fault =
    | CredentialsError(message: string)  // reading, parsing or refreshing the service account
    | RequestError(message: string)      // the HTTP GET itself raised
    | JsonDecodeError(message: string)   // the reply body is not JSON
    | NullBody                           // "body": null, and None has no `get`
    | NullContent                        // "content": null, and None is not iterable
    | NullElements                       // "elements": null, and None is not iterable
    | NullTextRun                        // "textRun": null, and None has no `get`
    | NullRunContent                     // a text run's "content": null, and str + None raises

  /** A value, or the exception that interrupted its computation. */
  datatype Result<+T> = Ok(value: T) | Err(fault: Fault)
}
