# Mistral OCR batch: a Dafny model

This project models the "Process" action of the Mistral OCR Streamlit app.
The user picks a file type (PDF or Image) and a source type (URL or Local
Upload), then enters URLs or uploads files. Pressing "Process" runs these steps:

- It checks the submission. URL text that strips to nothing is refused, and so is an empty upload list.
- It empties the three session lists: `ocr_result`, `preview_src` and `image_bytes`.
- It turns the input into a batch of sources. Each `"\n"`-separated line of the text is one source, or each uploaded file is one.
- For every source, in order, it does the following:
  - It builds the document sent to the OCR service. This is a stripped URL, or a `data:` URI (RFC 2397) carrying the file's bytes in base64 (section 4 of RFC 4648).
  - It takes the same string as the preview reference.
  - It calls the service.
  - It turns the response into one result text: the page markdowns joined by a blank line, `No result found.`, or `Error extracting result: ` followed by the message of whatever was raised.
  - It appends that text and the preview to the session. In image upload mode it also appends the file's bytes.

Modules:

- `Wrappers`: `Option`, `Result`, and `Collect`. `Collect` gathers a sequence of results, stopping at the first failure, the way a loop that raises would.
- `Text`: Python's `str.strip()`, using the whitespace of `str.isspace()`. Also `str.split` for one separator character, and `sep.join`.
- `Base64`: the RFC 4648 encoder that `base64.b64encode` implements.
- `DataUri`: builds the `data:<media type>;base64,<payload>` URI, and parses it back at its last comma.
- `Ocr`: the entities of the batch, as datatypes, and the pure steps, as functions:
  - validation,
  - splitting into sources,
  - request building,
  - page extraction and result text,
  - the per-batch specification functions `Results`, `Previews` and `KeptImages`.
- `App`: the session as a class with the three lists as fields. `Session.Process` is the loop, proved against the specification functions.

The OCR service is a parameter of type `Service = (nat, OcrCall) -> CallOutcome`. It gives the outcome of the call made for the source at each position: a response, or an exception message. Responses have one of three shapes:

- an object with `pages`,
- a plain list of pages,
- anything else.

A page may lack a `markdown` attribute, or its markdown may not be a string. `str.join` first reads every page's markdown and then checks their types. The model keeps both passes, so it reports the same first error Python would.

## Model

| member | source | states |
|---|---|---|
| App.Session.constructor | main.py:33-39 | A new session starts with all three lists empty. |
| App.Session.Process | main.py:56-102 | A refused submission returns its error and leaves all three lists unchanged. An accepted one makes the lists exactly the per-source results, previews and kept image bytes of the batch built from the input, whatever they held before. |
| Ocr.Validate | main.py:57-60 | The batch runs exactly when the URL text is not all whitespace (URL mode) or the upload list is non-empty (upload mode). Otherwise the error is the URL message or the upload message, matching the mode. |
| Ocr.RequestShape | main.py:70-88 | The document URL and the preview are the same string. The tag is `document_url` for PDF and `image_url` for Image. A URL line gives the stripped line, which is trimmed. An upload gives a data URI that parses back to its media type and the base64 text of its bytes. The media type is `application/pdf` for PDFs and the declared MIME type for images. |
| Ocr.MarkdownsSpec | main.py:97 | Extraction gets one markdown per page, in order, exactly when every page has a string markdown. Otherwise the error is that of the first page without a markdown attribute, or, if every page has one, that of the first markdown that is not a string. |
| Ocr.ReadablePagesResult | main.py:96-97 | With every page readable, the result is the markdowns joined by `"\n\n"`. It is `No result found.` exactly when there are no pages or one page with empty markdown. |
| Ocr.NoPagesResult | main.py:96-97 | A response without pages, including one of neither shape, gives exactly `No result found.`. |
| Ocr.FailureResult | main.py:92-99 | A call that raises gives `Error extracting result: ` plus its message. A response with an unreadable page gives the prefix plus the error of one of its unreadable pages. |
| Ocr.ResultsAligned | main.py:69-101 | A batch has one result per source. Result i is the text for what the service did with the call made for source i. |
| Ocr.PreviewsAligned | main.py:69-102 | A batch has one preview per source. Preview i is the preview built for source i. |
| Ocr.KeptImagesAligned | main.py:84-89 | When every source is an uploaded image, the kept bytes line up with the sources. For PDFs, or when every source is a URL line, nothing is kept. |
| Ocr.UrlBatch | main.py:67-82 | In URL mode there is one source per `"\n"`-separated segment, empty segments included: the number of newlines plus one. The segments join back to the text, none holds a newline, and each preview is its segment stripped. No bytes are kept. |
| Ocr.UploadPreviews | main.py:74-88 | In upload mode there is one source per file. Each preview parses back to that file's media type and the base64 text of its bytes. |
| Ocr.UploadImages | main.py:84-89 | In image upload mode the kept bytes are the files' bytes in order. In PDF upload mode none are kept. |
| Ocr.ResultsIndependent | main.py:92-102 | Result i depends only on the service's outcome for call i, so a failure at another position cannot change it. |
| Wrappers.CollectSpec | main.py:97 | Collecting succeeds exactly when every item does, and keeps every value in order. Otherwise its error is that of the first failing item. |
| Text.TrimStartSpec | main.py:72 | Dropping leading whitespace removes a whitespace prefix and stops at a character that is not whitespace. |
| Text.TrimEndSpec | main.py:72 | Dropping trailing whitespace removes a whitespace suffix and stops at a character that is not whitespace. |
| Text.StripFrames | main.py:72-73 | `strip()` returns a substring framed by whitespace on both sides, and that substring is itself trimmed. |
| Text.StripUnique | main.py:72-73 | A trimmed string framed by whitespace is exactly what `strip()` returns. |
| Text.StripIdempotent | main.py:72-73 | Stripping a stripped string changes nothing. |
| Text.StripBlank | main.py:57 | `not s.strip()` holds exactly when `s` is all whitespace. |
| Text.SplitSpec | main.py:67 | `split` gives one more part than there are separators, and no part holds the separator. |
| Text.JoinSplit | main.py:67 | Joining the parts of a split with the separator gives back the text. |
| Text.SplitJoin | main.py:67 | Splitting a join of separator-free parts gives back the parts. |
| Text.JoinEmpty | main.py:97 | A join with a non-empty separator is empty exactly when there are no parts, or one empty part. |
| Base64.EncodeSpec | main.py:76 | The encoding has four characters per started group of three bytes, each a digit of the base64 alphabet or `=`. |
| DataUri.ParseBuild | main.py:77-78 | A URI built from a media type and a comma-free payload parses back to both. |
| DataUri.ParseEncoded | main.py:86-88 | A URI built with any media type around base64 text parses back to the media type and that text. |

## Left out

- Page setup, radios, text area, file uploader, spinner and all result rendering: these are user interface only, and the model takes the chosen file type, source type, URL text and files as inputs.
- The API key read from the environment and the `st.stop()` guard: this is environment I/O before the action.
- The `Mistral` client and its network call: the `Service` parameter stands in for them, so any response or exception can occur at any position.
- `time.sleep(1)` between calls: it is timing only and changes no state.
- Reading an upload and its `type` attribute: the model takes the file's bytes and declared MIME type as given. A read that fails is outside the `try`, and such a failure is not modelled. The file name is used only in the spinner label.
- The JSON export and the download links built from the results: these are presentation of the lists after the action.
- Base64.EncodeSpec: states the length and alphabet of the encoding but not its inverse. No decoder is modelled. Only the shape of the `data:` URI around the base64 text, and the absence of commas in that text, matter to the batch.
- A `pages` attribute that is not iterable, or iteration that raises part way through: the model's response holds a sequence of pages.
- Ocr.BuildRequest chooses its branch from the source itself, a URL line or an upload, rather than from the source type. This is the same, because the batch is built from the source type: every source is a URL line in URL mode and an upload otherwise.
- Exception messages: they are given as strings. How Python formats an exception with `str(e)` is not modelled.
