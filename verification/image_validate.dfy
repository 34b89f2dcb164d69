/** Stage 3: the type sniffed from the bytes' magic number must be one of
    five image types; the bytes pass through unchanged. */
module ImageValidate {
  import opened Wrappers
  import opened Base64
  import opened ImageError
  import opened ImageFetch

  const AllowedMimeTypes: set<string> := {"image/png", "image/jpeg", "image/gif", "image/webp", "image/svg+xml"}

  predicate Acceptable(bytes: seq<byte>, sniff: seq<byte> -> Option<string>) {
    sniff(bytes).Some? && sniff(bytes).value in AllowedMimeTypes
  }

  /** `validate_content_type`: the url is only logged. */
  function ValidateContentType(fetched: FetchedImage, sniff: seq<byte> -> Option<string>): (r: Result<seq<byte>, FetchError>)
    ensures r.Ok? <==> Acceptable(fetched.bytes, sniff)
    ensures r.Ok? ==> r.value == fetched.bytes
    ensures r.Err? ==> r.error == InvalidContentType
  {
    match sniff(fetched.bytes)
    case None => Err(InvalidContentType)
    case Some(mime) =>
      if mime !in AllowedMimeTypes then Err(InvalidContentType)
      else Ok(fetched.bytes)
  }

  /** The verdict depends on the bytes alone. */
  lemma UrlIrrelevant(bytes: seq<byte>, u1: string, u2: string, sniff: seq<byte> -> Option<string>)
    ensures ValidateContentType(FetchedImage(bytes, u1), sniff) == ValidateContentType(FetchedImage(bytes, u2), sniff)
  {
  }
}
