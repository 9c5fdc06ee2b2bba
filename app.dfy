/** The per-user session state the page keeps across reruns, and the
    "Process" action that fills it. */
module App {
  import opened Wrappers
  import opened Base64
  import opened Ocr

  /** The three lists kept in the session: entry i of each belongs to
      source i of the last batch that ran (`imageBytes` only in image upload
      mode, where it has one entry per source). */
  class Session {
    var ocrResult: seq<string>
    var previewSrc: seq<string>
    var imageBytes: seq<seq<byte>>

    /** A new session starts with all three lists empty. */
    constructor ()
      ensures ocrResult == [] && previewSrc == [] && imageBytes == []
    {
      ocrResult, previewSrc, imageBytes := [], [], [];
    }

    /** Pressing "Process". A refused submission returns its error and leaves
        the three lists as they were; an accepted one empties them and then
        processes the sources one at a time, in order, appending one result
        and one preview per source (and the bytes of each uploaded image).
        What the lists held before plays no part in what they hold after. */
    method Process(fileType: FileType, sourceType: SourceType, inputUrl: string,
                   files: seq<UploadedFile>, service: Service)
      returns (error: Option<string>)
      modifies this
      ensures error == Validate(sourceType, inputUrl, files)
      ensures error.Some? ==>
        ocrResult == old(ocrResult) && previewSrc == old(previewSrc) && imageBytes == old(imageBytes)
      ensures error.None? ==>
        var sources := Sources(sourceType, inputUrl, files);
        ocrResult == Results(fileType, sources, service) &&
        previewSrc == Previews(fileType, sources) &&
        imageBytes == KeptImages(fileType, sources)
    {
      error := Validate(sourceType, inputUrl, files);
      if error.Some? {
        return;
      }
      ocrResult, previewSrc, imageBytes := [], [], [];
      var sources := Sources(sourceType, inputUrl, files);
      for idx := 0 to |sources|
        invariant ocrResult == Results(fileType, sources[..idx], service)
        invariant previewSrc == Previews(fileType, sources[..idx])
        invariant imageBytes == KeptImages(fileType, sources[..idx])
      {
        var source := sources[idx];
        var request := BuildRequest(fileType, source);
        if fileType == Image && source.Upload? {
          imageBytes := imageBytes + [source.file.content];
        }
        var outcome := service(idx, CallFor(request.document));
        var text := ResultText(outcome);
        ocrResult := ocrResult + [text];
        previewSrc := previewSrc + [request.preview];
        ghost var done := sources[..idx + 1];
        assert done[..idx] == sources[..idx] && done[idx] == source;
        assert text == ItemResult(fileType, source, service, idx);
      }
      assert sources[..|sources|] == sources;
    }
  }
}
