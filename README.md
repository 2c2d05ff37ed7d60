# get-doc: a Dafny model of the Google Docs proxy's document handler

The service answers `GET /get-doc?docId=<id>`. It checks the id, obtains
service-account credentials, fetches the document from the Google Docs API
v1 (`documents.get`), and flattens the Document resource into one text. Every
text run of every paragraph is joined in block order and then element order,
and Python's `str.strip()` trims the result. The reply carries the document's
title, or `"Untitled Document"` when the title key is missing. It fails with
400 when the id is missing or empty, with 500 and the upstream body when the
API does not answer 200, and with 500 and the exception text when anything in
between raises.

Modules:

- `Results` (results.dfy): `Option`, `Result` and `Fault`. A `Fault` is an
  exception that reaches the handler's `except Exception` clause.
- `Docs` (docs.dfy): the Document resource as far as the handler reads it.
  Every JSON key is a `Field`: `Absent`, `Null` or `Present(value)`.
- `PyStr` (pystr.dfy): `IsSpace` is exactly the set for which Python 3's
  `str.isspace` holds (29 code points: `\t`..`\r`, U+001C..U+001F, space,
  U+0085, U+00A0, U+1680, U+2000..U+200A, U+2028, U+2029, U+202F, U+205F,
  U+3000). `Strip` is `str.strip()`.
- `Extract` (extract.dfy): `RawText`, the specification of the walk, and
  `ExtractText`, the handler's nested loops proved equal to it.
- `Service` (service.dfy): the `Response`, the title default and `GetDoc`.

Behaviour of the code that the model keeps:

- A `null` value is not the same as a missing key. `"paragraph": null` is
  falsy, so the block is skipped. `null` for `body`, `content`, `elements`,
  `textRun` or a run's `content` makes Python raise, and the reply is 500.
  `Readable` describes the documents that extract without raising.
- `"title": null` is passed through, and the reply's title is JSON `null`
  (`None` in `Response.Found`). A present title is kept even when it is
  empty. The default is used only when the key is missing.
- The exception branch replies with `{"error": str(e)}` and no `details`
  key. Only a non-200 upstream status adds `details`.

## Model

| member | source | states |
|---|---|---|
| Service.GetDoc | main.py:11-51 | A missing or empty `docId` gives exactly 400 `{"error": "Missing docId"}`, whatever the fetch would do. Otherwise the fetch runs with that id. A credential, request or JSON exception gives 500 with that exception. An upstream status other than 200 gives 500 "Failed to retrieve document" with the upstream body as `details`. A null in the walked tree gives 500 with the walk's exception. Else 200 with exactly the keys `title` and `text`: the title rule of `TitleOf` and `Strip` of the extracted text. Status is 400 iff the id is missing and is always 200, 400 or 500. |
| Service.TitleOf | main.py:46 | A present title is returned as is, even when empty. The result is "Untitled Document" iff the key is missing or holds that very string. It is `null` iff the key holds `null`. |
| Extract.ExtractText | main.py:37-43 | The nested loops return exactly `RawText(doc)`: the texts appended in block order and then element order, or the first exception that a null raises. A missing `body` or `content` gives the empty text. |
| Extract.ConcatMapAppend | main.py:38-43 | The walk distributes over concatenation of the walked list (of blocks, or of paragraph elements), with the first exception winning. |
| Extract.ConcatMapOk | main.py:38-43 | A walk raises iff one of its pieces raises. |
| Extract.ConcatMapFirstFault | main.py:38-43 | The exception that escapes is the one of the first piece, in order, that raises. |
| Extract.ExtractionFailsExactlyOnNull | main.py:38-43 | Extraction succeeds iff no key that the walk reads holds `null`. A null paragraph is allowed, because it is skipped. |
| Extract.SkippedBlockAddsNothing | main.py:39-41 | A block whose paragraph is missing or null can be removed from anywhere in the content without changing the text. |
| Extract.EmptyRunAddsNothing | main.py:43 | An element without a text run, or with a text run without content, adds exactly the empty text wherever it stands. |
| PyStr.LeadingSpace | main.py:47 | Gives the length of the longest all-whitespace prefix. |
| PyStr.TrailingSpace | main.py:47 | Gives the length of the longest all-whitespace suffix. |
| PyStr.Strip | main.py:47 | The result is the slice of the input that starts right after its leading whitespace. Everything cut off on either side is whitespace. The result neither starts nor ends with whitespace. It is empty iff the input is all whitespace. |
| PyStr.StripUnique | main.py:47 | Any cut that removes only whitespace margins and leaves non-whitespace ends gives exactly `Strip`'s result, so the stripped text is determined. |
| PyStr.StripIdempotent | main.py:47 | Stripping the stripped text changes nothing. |

## Left out

- Flask application setup, routing, `jsonify` and `app.run` (main.py:1-10, 53-54): these are web framework plumbing. The reply is the `Response` datatype together with its `Status` and `Keys`.
- Credentials, HTTP and JSON (main.py:17-29, 34): reading `SERVICE_ACCOUNT_JSON`, building and refreshing the credentials, the GET request and `response.json()` are environment, network and foreign-library calls. Together they are the `fetch` parameter, which maps a document id to an `Upstream` outcome. The bearer header and the URL are not modelled. Only the fact that the id is passed on is.
- The text of `str(e)` (main.py:51) comes from the Python runtime. The `Fault` constructor stands for it.
- JSON values of the wrong type are not modelled. Examples are a string where an object is expected, a `null` list item, or a number as a run's content. In Python these raise or are skipped by falsiness. The model admits only objects, lists and strings where the API puts them, plus `null` or a missing key for each field.
- An empty paragraph object `{}` is falsy, and the source skips it. The model walks it instead. Its missing element list adds the same empty text, so the reply is identical.
- Python's full Unicode `str` is modelled as a sequence of Dafny `char`. Surrogate code points, which a Python `str` can hold and a Dafny `char` cannot, are not modelled.
