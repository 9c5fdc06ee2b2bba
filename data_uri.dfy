/** `data:` URIs of RFC 2397 with a base64 payload:
    `"data:" + mediatype + ";base64," + payload`. */
module DataUri {
  import opened Wrappers
  import Base64

  const Scheme := "data:"
  const Base64Marker := ";base64,"

  datatype Parts = Parts(mediaType: string, payload: string)

  /** The URI for a payload that is already base64 text. */
  function Build(mediaType: string, payload: string): string {
    Scheme + mediaType + Base64Marker + payload
  }

  /** Index of the last occurrence of `c` in `s`, or -1 when there is none. */
  function LastIndexOf(s: string, c: char): (k: int)
    ensures -1 <= k < |s|
    ensures k >= 0 ==> s[k] == c
    ensures forall j :: k < j < |s| ==> s[j] != c
  {
    if s == [] then -1
    else if s[|s| - 1] == c then |s| - 1
    else LastIndexOf(s[..|s| - 1], c)
  }

  /** Reads a base64 `data:` URI back into its media type and payload. The
      header ends at the last comma, which is where a payload made of base64
      text (which holds no comma) begins. */
  function Parse(uri: string): Option<Parts> {
    var k := LastIndexOf(uri, ',');
    if k < |Scheme| + |Base64Marker| - 1 then None
    else
      var header := uri[..k + 1];
      if header[..|Scheme|] == Scheme && header[|header| - |Base64Marker|..] == Base64Marker
      then Some(Parts(header[|Scheme|..|header| - |Base64Marker|], uri[k + 1..]))
      else None
  }

  /** Parsing a built URI gives back the media type and the payload, for any
      media type, as long as the payload holds no comma. */
  lemma ParseBuild(mediaType: string, payload: string)
    requires ',' !in payload
    ensures Parse(Build(mediaType, payload)) == Some(Parts(mediaType, payload))
  {
    var uri := Build(mediaType, payload);
    var h := |Scheme| + |mediaType| + |Base64Marker|;
    assert uri[..h] == Scheme + mediaType + Base64Marker;
    assert uri[h..] == payload;
    assert uri[h - 1] == ',';
    var k := LastIndexOf(uri, ',');
    assert k == h - 1;
  }

  /** Base64 text never holds a comma, so the URI Python's f-string builds
      for an upload parses back to its media type and its encoded bytes. */
  lemma ParseEncoded(mediaType: string, content: seq<Base64.byte>)
    ensures Parse(Build(mediaType, Base64.Encode(content)))
         == Some(Parts(mediaType, Base64.Encode(content)))
  {
    Base64.EncodeSpec(content);
    ParseBuild(mediaType, Base64.Encode(content));
  }
}
