/** The batch behind the app's "Process" button: check the submission, turn
    each source into an OCR request and a preview reference, call the OCR
    service once per source, and turn each response into one result text. */
module Ocr {
  import opened Wrappers
  import opened Text
  import opened Base64
  import DataUri

  /** "Select file type". */
  datatype FileType = Pdf | Image

  /** "Select source type". */
  datatype SourceType = Url | LocalUpload

  /** An uploaded file: its bytes and the MIME type the browser declared. */
  datatype UploadedFile = UploadedFile(content: seq<byte>, mimeType: string)

  /** One item of a batch: a line of the URL text area, or an uploaded file. */
  datatype Source = UrlLine(text: string) | Upload(file: UploadedFile)

  /** The `type` tag of the document passed to the OCR service. */
  datatype DocumentType = DocumentUrl | ImageUrl

  /** `{"type": "document_url", "document_url": url}` or
      `{"type": "image_url", "image_url": url}`. */
  datatype Document = Document(docType: DocumentType, url: string)

  /** What one source becomes before the call: the document for the service
      and the string the page later uses to show the source again. */
  datatype Request = Request(document: Document, preview: string)

  /** The arguments of one `client.ocr.process` call. */
  datatype OcrCall = OcrCall(model: string, document: Document, includeImageBase64: bool)

  /** The value of a page's `markdown` attribute: a string, or a value that
      `str.join` rejects (with the message of the TypeError it raises). */
  datatype Markdown = Text(text: string) | NotText(error: string)

  /** A page of an OCR response, or an item without a `markdown` attribute
      (with the message of the AttributeError that reading it raises). */
  datatype Page = Page(markdown: Markdown) | NoMarkdown(error: string)

  /** The shapes a response may take: an object with a `pages` attribute,
      a plain list of pages, or anything else. */
  datatype Response = WithPages(pages: seq<Page>) | PageList(items: seq<Page>) | OtherShape

  /** What one call does: return a response, or raise with a message. */
  datatype CallOutcome = Returned(response: Response) | Raised(message: string)

  /** The OCR service as seen by the batch: the outcome of the call made for
      the source at a given position. */
  type Service = (nat, OcrCall) -> CallOutcome

  const OcrModel := "mistral-ocr-latest"
  const PdfMediaType := "application/pdf"
  const PageSeparator := "\n\n"
  const NoResult := "No result found."
  const ErrorPrefix := "Error extracting result: "
  const UrlMissing := "Please enter at least one valid URL."
  const FileMissing := "Please upload at least one file."

  /** The submission check: the error shown, or None when the batch runs.
      URL text that strips to nothing, or an empty upload list, is refused. */
  function Validate(sourceType: SourceType, inputUrl: string, files: seq<UploadedFile>): (error: Option<string>)
    ensures error.None? <==> (if sourceType == Url then !AllSpace(inputUrl) else files != [])
    ensures error.Some? ==> error.value == (if sourceType == Url then UrlMissing else FileMissing)
  {
    StripBlank(inputUrl);
    if sourceType == Url && Strip(inputUrl) == [] then Some(UrlMissing)
    else if sourceType == LocalUpload && files == [] then Some(FileMissing)
    else
      assert sourceType == LocalUpload ==> files != [];
      None
  }

  /** The batch: one source per "\n"-separated segment of the URL text, or
      one per uploaded file. */
  function Sources(sourceType: SourceType, inputUrl: string, files: seq<UploadedFile>): seq<Source> {
    if sourceType == Url then
      var lines := Split(inputUrl, '\n');
      seq(|lines|, i requires 0 <= i < |lines| => UrlLine(lines[i]))
    else
      seq(|files|, i requires 0 <= i < |files| => Upload(files[i]))
  }

  /** The media type written into an upload's data URI. */
  function MediaType(fileType: FileType, file: UploadedFile): string {
    if fileType == Pdf then PdfMediaType else file.mimeType
  }

  /** The document and the preview reference for one source. */
  function BuildRequest(fileType: FileType, source: Source): Request
  {
    match source
    case UrlLine(text) =>
      var kind := if fileType == Pdf then DocumentUrl else ImageUrl;
      Request(Document(kind, Strip(text)), Strip(text))
    case Upload(file) =>
      var encoded := Encode(file.content);
      if fileType == Pdf then
        Request(Document(DocumentUrl, DataUri.Build(PdfMediaType, encoded)),
                DataUri.Build(PdfMediaType, encoded))
      else
        Request(Document(ImageUrl, DataUri.Build(file.mimeType, encoded)),
                DataUri.Build(file.mimeType, encoded))
  }

  /** The document and the preview are the same string, tagged as a document
      for PDFs and as an image otherwise: a URL line stripped, or for an
      upload a data URI that parses back to its media type (the declared
      MIME type for images, application/pdf for PDFs) and the base64 text of
      the file's bytes. */
  lemma RequestShape(fileType: FileType, source: Source)
    ensures var r := BuildRequest(fileType, source);
      r.document.url == r.preview &&
      r.document.docType == (if fileType == Pdf then DocumentUrl else ImageUrl)
    ensures source.UrlLine? ==>
      var p := BuildRequest(fileType, source).preview;
      p == Strip(source.text) && IsTrimmed(p)
    ensures source.Upload? ==>
      var p := BuildRequest(fileType, source).preview;
      var media, encoded := MediaType(fileType, source.file), Encode(source.file.content);
      p == DataUri.Build(media, encoded) && DataUri.Parse(p) == Some(DataUri.Parts(media, encoded))
  {
    match source
    case UrlLine(text) => StripFrames(text);
    case Upload(file) => DataUri.ParseEncoded(MediaType(fileType, file), file.content);
  }

  /** The call made for a document. */
  function CallFor(document: Document): OcrCall {
    OcrCall(OcrModel, document, true)
  }

  /** The raw bytes kept for direct display: those of an uploaded image. */
  function KeptBytes(fileType: FileType, source: Source): seq<seq<byte>> {
    if fileType == Image && source.Upload? then [source.file.content] else []
  }

  /** The pages of a response: its `pages` attribute if it has one, the
      response itself if it is a list, and no pages otherwise. */
  function PagesOf(response: Response): seq<Page> {
    match response
    case WithPages(pages) => pages
    case PageList(items) => items
    case OtherShape => []
  }

  /** A page whose markdown is a string. */
  predicate Readable(page: Page) {
    page.Page? && page.markdown.Text?
  }

  /** The markdown of every page, when every page is readable. */
  function Texts(pages: seq<Page>): seq<string>
    requires forall i :: 0 <= i < |pages| ==> Readable(pages[i])
  {
    seq(|pages|, i requires 0 <= i < |pages| && Readable(pages[i]) => pages[i].markdown.text)
  }

  /** The message of what reading an unreadable page raises. */
  function PageError(page: Page): string
    requires !Readable(page)
  {
    if page.NoMarkdown? then page.error else page.markdown.error
  }

  function ReadMarkdown(page: Page): Result<Markdown> {
    match page
    case Page(m) => Success(m)
    case NoMarkdown(e) => Failure(e)
  }

  function AsText(m: Markdown): Result<string> {
    match m
    case Text(s) => Success(s)
    case NotText(e) => Failure(e)
  }

  /** What `str.join` does with the generator of markdowns: it first reads
      every page's markdown into a list, then checks that each item is a
      string; each pass raises at its first failure. */
  function Markdowns(pages: seq<Page>): Result<seq<string>> {
    match Collect(seq(|pages|, i requires 0 <= i < |pages| => ReadMarkdown(pages[i])))
    case Failure(e) => Failure(e)
    case Success(ms) => Collect(seq(|ms|, i requires 0 <= i < |ms| => AsText(ms[i])))
  }

  /** The markdowns are had exactly when every page is readable, one per
      page in order. Otherwise the error is that of the first page without
      a markdown attribute, or, when every page has one, that of the first
      markdown that is not a string. */
  lemma MarkdownsSpec(pages: seq<Page>)
    ensures Markdowns(pages).Success? <==> forall i :: 0 <= i < |pages| ==> Readable(pages[i])
    ensures Markdowns(pages).Success? ==>
      |Markdowns(pages).value| == |pages| &&
      forall i :: 0 <= i < |pages| ==> Markdowns(pages).value[i] == pages[i].markdown.text
    ensures (exists i :: 0 <= i < |pages| && pages[i].NoMarkdown?) ==>
      exists i :: (0 <= i < |pages| && pages[i].NoMarkdown? && Markdowns(pages) == Failure(pages[i].error) &&
                   forall j :: 0 <= j < i ==> pages[j].Page?)
    ensures (forall i :: 0 <= i < |pages| ==> pages[i].Page?) &&
            (exists i :: 0 <= i < |pages| && pages[i].markdown.NotText?) ==>
      exists i :: (0 <= i < |pages| && pages[i].markdown.NotText? &&
                   Markdowns(pages) == Failure(pages[i].markdown.error) &&
                   forall j :: 0 <= j < i ==> pages[j].markdown.Text?)
  {
    var got := seq(|pages|, i requires 0 <= i < |pages| => ReadMarkdown(pages[i]));
    CollectSpec(got);
    if Collect(got).Success? {
      var ms := Collect(got).value;
      assert forall i :: 0 <= i < |pages| ==> pages[i].Page? && ms[i] == pages[i].markdown by {
        forall i | 0 <= i < |pages| ensures pages[i].Page? && ms[i] == pages[i].markdown {
          assert got[i].Success?;
        }
      }
      var texts := seq(|ms|, i requires 0 <= i < |ms| => AsText(ms[i]));
      CollectSpec(texts);
      assert Markdowns(pages) == Collect(texts);
      if Collect(texts).Failure? {
        var i :| 0 <= i < |texts| && texts[i].Failure? && Collect(texts).error == texts[i].error &&
                 forall j :: 0 <= j < i ==> texts[j].Success?;
        assert pages[i].markdown.NotText?;
        forall j | 0 <= j < i ensures pages[j].markdown.Text? {
          assert texts[j].Success?;
        }
      } else {
        forall i | 0 <= i < |pages| ensures Readable(pages[i]) {
          assert texts[i].Success?;
        }
      }
    } else {
      var i :| 0 <= i < |got| && got[i].Failure? && Collect(got).error == got[i].error &&
               forall j :: 0 <= j < i ==> got[j].Success?;
      assert pages[i].NoMarkdown?;
      assert Markdowns(pages) == Failure(pages[i].error);
      forall j | 0 <= j < i ensures pages[j].Page? {
        assert got[j].Success?;
      }
    }
  }

  /** `"\n\n".join(page.markdown for page in pages) or "No result found."`,
      or the error that the extraction raises. */
  function ExtractText(response: Response): Result<string> {
    match Markdowns(PagesOf(response))
    case Failure(e) => Failure(e)
    case Success(markdowns) =>
      var joined := Join(markdowns, PageSeparator);
      Success(if joined == [] then NoResult else joined)
  }

  /** The text recorded for one source: the extracted text, or the error
      message of whatever the call or the extraction raised. */
  function ResultText(outcome: CallOutcome): string {
    match outcome
    case Raised(message) => ErrorPrefix + message
    case Returned(response) =>
      match ExtractText(response)
      case Failure(e) => ErrorPrefix + e
      case Success(text) => text
  }

  /** When every page can be read, the result is the joined markdown, and the
      placeholder stands in exactly when there are no pages or a single page
      with empty markdown. */
  lemma ReadablePagesResult(response: Response)
    requires forall i :: 0 <= i < |PagesOf(response)| ==> Readable(PagesOf(response)[i])
    ensures var pages := PagesOf(response);
      ResultText(Returned(response)) ==
        if |pages| == 0 || (|pages| == 1 && Texts(pages)[0] == []) then NoResult
        else Join(Texts(pages), PageSeparator)
  {
    var pages := PagesOf(response);
    var ms := Markdowns(pages);
    MarkdownsSpec(pages);
    assert ms.Success?;
    assert ms.value == Texts(pages);
    JoinEmpty(ms.value, PageSeparator);
  }

  /** A response with no pages, or of a shape with no pages at all, gives
      exactly the placeholder. */
  lemma NoPagesResult(response: Response)
    requires PagesOf(response) == []
    ensures ResultText(Returned(response)) == NoResult
  {
  }

  /** A call that raises gives the error text with its message; a response
      with an unreadable page gives the error text with the message of what
      the join raised. */
  lemma FailureResult(outcome: CallOutcome)
    ensures outcome.Raised? ==> ResultText(outcome) == ErrorPrefix + outcome.message
    ensures outcome.Returned? && (exists p <- PagesOf(outcome.response) :: !Readable(p)) ==>
      var pages := PagesOf(outcome.response);
      exists i :: 0 <= i < |pages| && !Readable(pages[i]) && ResultText(outcome) == ErrorPrefix + PageError(pages[i])
  {
    if outcome.Returned? {
      MarkdownsSpec(PagesOf(outcome.response));
    }
  }

  /** The text recorded for the source at position `i` of a batch. */
  function ItemResult(fileType: FileType, source: Source, service: Service, i: nat): string {
    ResultText(service(i, CallFor(BuildRequest(fileType, source).document)))
  }

  /** The texts of a batch, as the loop appends them. */
  function Results(fileType: FileType, sources: seq<Source>, service: Service): seq<string> {
    if sources == [] then []
    else
      var n := |sources| - 1;
      Results(fileType, sources[..n], service) + [ItemResult(fileType, sources[n], service, n)]
  }

  /** The preview references of a batch, as the loop appends them. */
  function Previews(fileType: FileType, sources: seq<Source>): seq<string> {
    if sources == [] then []
    else
      var n := |sources| - 1;
      Previews(fileType, sources[..n]) + [BuildRequest(fileType, sources[n]).preview]
  }

  /** The image bytes a batch keeps, in source order. */
  function KeptImages(fileType: FileType, sources: seq<Source>): seq<seq<byte>> {
    if sources == [] then []
    else KeptImages(fileType, sources[..|sources| - 1]) + KeptBytes(fileType, sources[|sources| - 1])
  }

  /** One result per source, in source order: entry i is what the service
      did for the call made for source i. */
  lemma {:induction false} ResultsAligned(fileType: FileType, sources: seq<Source>, service: Service)
    ensures |Results(fileType, sources, service)| == |sources|
    ensures forall i :: 0 <= i < |sources| ==>
      Results(fileType, sources, service)[i] == ItemResult(fileType, sources[i], service, i)
  {
    if sources != [] {
      var n := |sources| - 1;
      var init := sources[..n];
      ResultsAligned(fileType, init, service);
      forall i | 0 <= i < n
        ensures Results(fileType, sources, service)[i] == ItemResult(fileType, sources[i], service, i)
      {
        assert init[i] == sources[i];
      }
    }
  }

  /** One preview per source, in source order. */
  lemma {:induction false} PreviewsAligned(fileType: FileType, sources: seq<Source>)
    ensures |Previews(fileType, sources)| == |sources|
    ensures forall i :: 0 <= i < |sources| ==>
      Previews(fileType, sources)[i] == BuildRequest(fileType, sources[i]).preview
  {
    if sources != [] {
      var n := |sources| - 1;
      var init := sources[..n];
      PreviewsAligned(fileType, init);
      forall i | 0 <= i < n
        ensures Previews(fileType, sources)[i] == BuildRequest(fileType, sources[i]).preview
      {
        assert init[i] == sources[i];
      }
    }
  }

  /** Kept bytes line up with the sources when every source is an uploaded
      image, and none are kept for PDFs or URL lines. */
  lemma {:induction false} KeptImagesAligned(fileType: FileType, sources: seq<Source>)
    ensures fileType == Image && (forall s <- sources :: s.Upload?) ==>
      |KeptImages(fileType, sources)| == |sources| &&
      forall i :: 0 <= i < |sources| ==> KeptImages(fileType, sources)[i] == sources[i].file.content
    ensures fileType == Pdf || (forall s <- sources :: s.UrlLine?) ==> KeptImages(fileType, sources) == []
  {
    if sources != [] {
      var init, last := sources[..|sources| - 1], sources[|sources| - 1];
      assert forall s <- init :: s in sources;
      assert last in sources;
      KeptImagesAligned(fileType, init);
    }
  }

  /** In URL mode the batch has one source per "\n"-separated segment of the
      text, empty segments included; the segments rebuild the text, none
      holds a newline, and each preview is its segment stripped. */
  lemma UrlBatch(fileType: FileType, inputUrl: string, files: seq<UploadedFile>)
    ensures var sources := Sources(Url, inputUrl, files);
      var lines := Split(inputUrl, '\n');
      |sources| == |lines| == Count(inputUrl, '\n') + 1 &&
      |Previews(fileType, sources)| == |sources| &&
      Join(lines, "\n") == inputUrl &&
      (forall i :: 0 <= i < |sources| ==> sources[i] == UrlLine(lines[i]) && '\n' !in lines[i]) &&
      (forall i :: 0 <= i < |sources| ==> Previews(fileType, sources)[i] == Strip(lines[i])) &&
      KeptImages(fileType, sources) == []
  {
    var sources := Sources(Url, inputUrl, files);
    JoinSplit(inputUrl, '\n');
    SplitSpec(inputUrl, '\n');
    KeptImagesAligned(fileType, sources);
    PreviewsAligned(fileType, sources);
    forall i | 0 <= i < |sources|
      ensures Previews(fileType, sources)[i] == Strip(Split(inputUrl, '\n')[i])
    {
      RequestShape(fileType, sources[i]);
    }
  }

  /** In upload mode the batch has one source per file, and each preview is
      a data URI that parses back to the media type and the base64 text of
      that file's bytes. */
  lemma UploadPreviews(fileType: FileType, inputUrl: string, files: seq<UploadedFile>)
    ensures var sources := Sources(LocalUpload, inputUrl, files);
      |sources| == |files| && |Previews(fileType, sources)| == |files| &&
      forall i :: 0 <= i < |files| ==>
        DataUri.Parse(Previews(fileType, sources)[i]) ==
          Some(DataUri.Parts(MediaType(fileType, files[i]), Encode(files[i].content)))
  {
    var sources := Sources(LocalUpload, inputUrl, files);
    PreviewsAligned(fileType, sources);
    forall i | 0 <= i < |files|
      ensures DataUri.Parse(Previews(fileType, sources)[i]) ==
                Some(DataUri.Parts(MediaType(fileType, files[i]), Encode(files[i].content)))
    {
      PreviewOfUpload(fileType, sources, files, i);
    }
  }

  lemma PreviewOfUpload(fileType: FileType, sources: seq<Source>, files: seq<UploadedFile>, i: nat)
    requires i < |sources| == |files| && sources[i] == Upload(files[i])
    requires |Previews(fileType, sources)| == |sources|
    requires Previews(fileType, sources)[i] == BuildRequest(fileType, sources[i]).preview
    ensures DataUri.Parse(Previews(fileType, sources)[i]) ==
              Some(DataUri.Parts(MediaType(fileType, files[i]), Encode(files[i].content)))
  {
    RequestShape(fileType, sources[i]);
  }

  /** In image upload mode the kept bytes line up with the files; for PDFs
      nothing is kept. */
  lemma UploadImages(fileType: FileType, inputUrl: string, files: seq<UploadedFile>)
    ensures var sources := Sources(LocalUpload, inputUrl, files);
      (fileType == Image ==>
         |KeptImages(fileType, sources)| == |files| &&
         forall i :: 0 <= i < |files| ==> KeptImages(fileType, sources)[i] == files[i].content) &&
      (fileType == Pdf ==> KeptImages(fileType, sources) == [])
  {
    KeptImagesAligned(fileType, Sources(LocalUpload, inputUrl, files));
  }

  /** The text recorded at position i depends only on what the service does
      for the call made at position i: a failure elsewhere leaves it alone. */
  lemma ResultsIndependent(fileType: FileType, sources: seq<Source>, s1: Service, s2: Service, i: nat)
    requires i < |sources|
    requires var call := CallFor(BuildRequest(fileType, sources[i]).document); s1(i, call) == s2(i, call)
    ensures |Results(fileType, sources, s1)| == |Results(fileType, sources, s2)| == |sources|
    ensures Results(fileType, sources, s1)[i] == Results(fileType, sources, s2)[i]
  {
    ResultsAligned(fileType, sources, s1);
    ResultsAligned(fileType, sources, s2);
  }
}
