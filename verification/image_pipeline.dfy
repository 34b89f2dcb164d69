/** `ImageFetcher::fetch_image` of the staged pipeline: cache, parse,
    fetch, validate, store, encode.  The cache is a plain map from the URL
    text to the raw validated bytes; the call returns the new cache with
    its result. */
module ImagePipeline {
  import opened Wrappers
  import opened Base64
  import opened Net
  import opened Resolver
  import opened ImageError
  import opened ImageParse
  import opened ImageFetch
  import opened ImageValidate

  type Cache = map<string, seq<byte>>

  /** `encode_base64_bytes`: the standard alphabet with padding. */
  function EncodeBase64Bytes(bytes: seq<byte>): (s: string)
    ensures Decode(s) == Some(bytes)
    ensures |s| == 4 * ((|bytes| + 2) / 3)
    ensures |bytes| == 0 ==> s == []
  {
    DecodeEncode(bytes);
    Encode(bytes)
  }

  /** Stage 1 on the URL parser's verdict for this text. */
  function ParseStage(url: string, w: World): Result<ParsedUrl, FetchError> {
    ParseUrl(url, w.parseUrl(url), w.parseIp, w.isGlobal)
  }

  /** Parse, fetch and validate all succeed for this URL. */
  predicate Succeeds(url: string, maxSize: nat, w: World) {
    var parsed := ParseStage(url, w);
    && parsed.Ok?
    && var fetched := FetchHttp(parsed.value, maxSize, w);
    && fetched.Ok?
    && ValidateContentType(fetched.value, w.sniff).Ok?
  }

  function FetchImage(url: string, cache: Cache, maxSize: nat, w: World): (r: (Result<string, FetchError>, Cache))
    // a hit answers from the cache and runs no stage
    ensures url in cache ==> r == (Ok(EncodeBase64Bytes(cache[url])), cache)
    // a failure stores nothing
    ensures r.0.Err? ==> r.1 == cache
    ensures url !in cache ==> (r.0.Ok? <==> Succeeds(url, maxSize, w))
    // a success stores the validated bytes, not their encoding, under the URL
    ensures url !in cache && r.0.Ok? ==>
      && url in r.1 && r.1 == cache[url := r.1[url]]
      && r.0.value == EncodeBase64Bytes(r.1[url])
      && Acceptable(r.1[url], w.sniff) && |r.1[url]| <= maxSize
    // and the stored bytes are the body the server sent for the URL
    ensures url !in cache && r.0.Ok? ==>
      && ParseStage(url, w).Ok? && FetchHttp(ParseStage(url, w).value, maxSize, w).Ok?
      && r.1[url] == FetchHttp(ParseStage(url, w).value, maxSize, w).value.bytes
      && w.send(url).Sent? && r.1[url] == Flatten(w.send(url).response.body)
    // the first failing stage decides the error
    ensures url !in cache && ParseStage(url, w).Err? ==>
      r.0 == Err(ParseStage(url, w).error)
    ensures url !in cache && ParseStage(url, w).Ok? ==>
      var fetched := FetchHttp(ParseStage(url, w).value, maxSize, w);
      && (fetched.Err? ==> r.0 == Err(fetched.error))
      && (fetched.Ok? && ValidateContentType(fetched.value, w.sniff).Err? ==> r.0 == Err(InvalidContentType))
  {
    if url in cache then (Ok(EncodeBase64Bytes(cache[url])), cache)
    else
      match ParseStage(url, w)
      case Err(e) => (Err(e), cache)
      case Ok(parsed) =>
        match FetchHttp(parsed, maxSize, w)
        case Err(e) => (Err(e), cache)
        case Ok(fetched) =>
          match ValidateContentType(fetched, w.sniff)
          case Err(e) => (Err(e), cache)
          case Ok(bytes) => (Ok(EncodeBase64Bytes(bytes)), cache[url := bytes])
  }

  /** After a success the same URL is a hit that returns the same text,
      whatever the world answers by then. */
  lemma SecondCallHits(url: string, cache: Cache, maxSize: nat, w: World, later: World)
    requires FetchImage(url, cache, maxSize, w).0.Ok?
    ensures var (res, c) := FetchImage(url, cache, maxSize, w);
      FetchImage(url, c, maxSize, later) == (res, c)
  {
  }

  /** A fetched image never came from a non-global address, for the first
      request and wherever the host's text reads as the host: a literal
      host is global, and a name resolved only to global addresses, at
      least one. */
  lemma SuccessIsGlobal(url: string, cache: Cache, maxSize: nat, w: World)
    requires url !in cache && FetchImage(url, cache, maxSize, w).0.Ok?
    requires HostTextAgrees(w.parseUrl(url), w.parseIp)
    ensures w.parseUrl(url).Url? && AllowedScheme(w.parseUrl(url).scheme)
    ensures var host := w.parseUrl(url).host;
      && (host.Some? && host.value.Ip? ==> w.isGlobal(host.value.ip))
      && (host.Some? && host.value.Domain? ==>
            && w.dns(host.value.name).Answer? && |w.dns(host.value.name).ips| > 0
            && AllGlobal(w.dns(host.value.name).ips, w.isGlobal))
  {
    var parsed := ParseStage(url, w).value;
    assert Delivers(parsed, maxSize, w);
  }

  /** As written, an image is fetched from the IPv6 loopback address: the
      literal check reads the bracketed text, which is not an address, and
      the client connects to the literal without asking the resolver. */
  lemma PrivateLiteralFetched(url: string, maxSize: nat, w: World, bytes: seq<byte>)
    requires w.parseUrl(url) == Url("http", Some("[::1]"), Some(Ip(Loopback6)))
    requires w.parseIp("[::1]").None? && !w.isGlobal(Loopback6)
    requires w.send(url) == Sent(Response(200, None, [Data(bytes)]))
    requires |bytes| <= maxSize && Acceptable(bytes, w.sniff)
    ensures FetchImage(url, map[], maxSize, w).0 == Ok(EncodeBase64Bytes(bytes))
    ensures ParseUrlCorrected(url, w.parseUrl(url), w.parseIp, w.isGlobal) == Err(PrivateIpBlocked(LiteralIp(Loopback6)))
  {
    BracketedLiteralPasses(url, w.parseIp, w.isGlobal);
    var parsed := ParseStage(url, w).value;
    assert parsed.original == url && parsed.host == Some(Ip(Loopback6));
    var body := [Data(bytes)];
    assert Flatten(body) == bytes + Flatten(body[1..]);
    assert bytes + [] == bytes;
    assert AllData(body);
    assert Delivers(parsed, maxSize, w);
    var fetched := FetchHttp(parsed, maxSize, w);
    assert fetched.value.bytes == bytes;
    assert ValidateContentType(fetched.value, w.sniff) == Ok(bytes);
  }
}
