/** The `GET /get-doc?docId=<id>` handler: validate the id, fetch the
    document, and answer with its title and stripped text or with an error. */
module Service {
  import opened Results
  import opened Docs
  import opened PyStr
  import Extract

  const MissingDocIdMessage := "Missing docId"
  const RetrievalFailedMessage := "Failed to retrieve document"
  const UntitledDocument := "Untitled Document"

  /** Whether the reply body parsed as JSON (`response.json()`). */
  datatype Parsed = Json(doc: Document) | NotJson(message: string)

  /** What the credential, HTTP and JSON steps yield for one document id:
      an exception while building or refreshing the service-account
      credentials, an exception from the GET itself, or the reply. */
  datatype Upstream =
    | CredentialsFailed(message: string)
    | RequestFailed(message: string)
    | Replied(statusCode: int, text: string, body: Parsed)

  /** The handler's JSON reply. A `None` title is JSON `null`. */
  datatype Response =
    | BadRequest(error: string)               // 400 {"error"}
    | RetrievalFailed(error: string, details: string)  // 500 {"error", "details"}
    | Raised(fault: Fault)                    // 500 {"error": str(e)}
    | Found(title: Option<string>, text: string)  // 200 {"title", "text"}
  {
    function Status(): int
    {
      match this
      case BadRequest(_) => 400
      case Found(_, _) => 200
      case _ => 500
    }

    /** The keys of the JSON object sent back. */
    function Keys(): set<string>
    {
      match this
      case BadRequest(_) => {"error"}
      case RetrievalFailed(_, _) => {"error", "details"}
      case Raised(_) => {"error"}
      case Found(_, _) => {"title", "text"}
    }
  }

  /** `doc_data.get('title', 'Untitled Document')`: the key's value whenever
      the key is there, the default only when it is missing. */
  function TitleOf(doc: Document): (t: Option<string>)
    ensures doc.title.Present? ==> t == Some(doc.title.value)
    ensures t == Some(UntitledDocument) <==> doc.title.Absent? || doc.title == Present(UntitledDocument)
    ensures t.None? <==> doc.title.Null?
  {
    match doc.title
    case Absent => Some(UntitledDocument)
    case Null => None
    case Present(title) => Some(title)
  }

  predicate MissingId(docId: Option<string>)
  {
    docId.None? || docId.value == ""
  }

  /** The handler. `fetch` stands for the credential, HTTP and JSON steps,
      which are consulted only once the id has passed the check. */
  method GetDoc(docId: Option<string>, fetch: string -> Upstream) returns (r: Response)
    ensures MissingId(docId) <==> r == BadRequest(MissingDocIdMessage)
    ensures r.Status() == 400 <==> MissingId(docId)
    ensures r.Status() in {200, 400, 500}
    ensures !MissingId(docId) ==>
      match fetch(docId.value)
      case CredentialsFailed(m) => r == Raised(CredentialsError(m))
      case RequestFailed(m) => r == Raised(RequestError(m))
      case Replied(code, body, parsed) =>
        if code != 200 then r == RetrievalFailed(RetrievalFailedMessage, body)
        else
          match parsed
          case NotJson(m) => r == Raised(JsonDecodeError(m))
          case Json(doc) =>
            match Extract.RawText(doc)
            case Err(fault) => r == Raised(fault)
            case Ok(raw) => r == Found(TitleOf(doc), Strip(raw))
    ensures r.Found? ==> r.Keys() == {"title", "text"}
  {
    if MissingId(docId) {
      return BadRequest(MissingDocIdMessage);
    }
    var upstream := fetch(docId.value);
    match upstream {
      case CredentialsFailed(m) =>
        return Raised(CredentialsError(m));
      case RequestFailed(m) =>
        return Raised(RequestError(m));
      case Replied(code, body, parsed) =>
        if code != 200 {
          return RetrievalFailed(RetrievalFailedMessage, body);
        }
        match parsed {
          case NotJson(m) =>
            return Raised(JsonDecodeError(m));
          case Json(doc) =>
            var text := Extract.ExtractText(doc);
            match text {
              case Err(fault) =>
                return Raised(fault);
              case Ok(raw) =>
                return Found(TitleOf(doc), Strip(raw));
            }
        }
    }
  }
}
