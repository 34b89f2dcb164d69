/** The monolithic `ImageFetcher::fetch_image`: it checks every address a
    name resolves to before the request, buffers the whole body, and
    caches the base64 text rather than the bytes. */
module LegacyFetcher {
  import opened Wrappers
  import opened Base64
  import opened Net
  import opened Resolver
  import opened ImageError
  import opened ImageParse
  import opened ImageFetch
  import opened ImageValidate
  import ImagePipeline

  type Cache = map<string, string>

  /** The checks before the request: parse, scheme, then the host's text,
      which is either an address or looked up as a name. */
  function Precheck(syntax: UrlSyntax, w: World): (r: Result<(), FetchError>)
    ensures syntax.Unparseable? ==> r == Err(InvalidUrl(ParseFailurePrefix + syntax.reason))
    ensures syntax.Url? && !AllowedScheme(syntax.scheme) ==> r == Err(InvalidUrl(SchemePrefix + syntax.scheme))
    ensures syntax.Url? && AllowedScheme(syntax.scheme) && PrivateLiteral(syntax.hostText, w.parseIp, w.isGlobal) ==>
      r == Err(PrivateIpBlocked(LiteralIp(w.parseIp(syntax.hostText.value).value)))
    ensures syntax.Url? && AllowedScheme(syntax.scheme) && syntax.hostText.Some? && w.parseIp(syntax.hostText.value).None? ==>
      var name := syntax.hostText.value;
      && (w.dns(name).LookupFailed? ==> r == Err(Request(DnsFailed(w.dns(name).reason))))
      && (w.dns(name).Answer? && |w.dns(name).ips| == 0 ==> r == Err(Request(NoAddresses)))
      && (w.dns(name).Answer? && !AllGlobal(w.dns(name).ips, w.isGlobal) ==>
            exists k :: FirstNonGlobal(w.dns(name).ips, k, w.isGlobal)
                        && r == Err(PrivateIpBlocked(HostResolvesTo(name, w.dns(name).ips[k]))))
    ensures r.Ok? <==>
      && syntax.Url? && AllowedScheme(syntax.scheme) && !PrivateLiteral(syntax.hostText, w.parseIp, w.isGlobal)
      && (syntax.hostText.Some? && w.parseIp(syntax.hostText.value).None? ==>
            Resolve(w.dns(syntax.hostText.value), w.isGlobal).Ok?)
  {
    match syntax
    case Unparseable(reason) => Err(InvalidUrl(ParseFailurePrefix + reason))
    case Url(scheme, hostText, _) =>
      if !AllowedScheme(scheme) then Err(InvalidUrl(SchemePrefix + scheme))
      else match hostText
        case None => Ok(())
        case Some(name) =>
          match w.parseIp(name)
          case Some(ip) => if w.isGlobal(ip) then Ok(()) else Err(PrivateIpBlocked(LiteralIp(ip)))
          case None =>
            match w.dns(name)
            case LookupFailed(reason) => Err(Request(DnsFailed(reason)))
            case Answer(ips) =>
              if |ips| == 0 then Err(Request(NoAddresses))
              else match CheckAll(ips, w.isGlobal)
                case Err(e) => Err(PrivateIpBlocked(HostResolvesTo(name, e.ip)))
                case Ok(_) => Ok(())
  }

  /** `response.bytes()`: the whole body, or the first read failure. */
  function Buffer(chunks: seq<Chunk>): (r: Result<seq<byte>, FetchError>)
    ensures r.Ok? <==> AllData(chunks)
    ensures r.Ok? ==> r.value == Flatten(chunks)
    ensures r.Err? ==> r.error.Request? && r.error.cause.BodyFailed?
    decreases |chunks|
  {
    if |chunks| == 0 then Ok([])
    else
      assert forall i :: 1 <= i < |chunks| ==> chunks[i] == chunks[1..][i - 1];
      match chunks[0]
      case ReadFailed(reason) => Err(Request(BodyFailed(reason)))
      case Data(b) =>
        match Buffer(chunks[1..])
        case Err(e) => Err(e)
        case Ok(rest) => Ok(b + rest)
  }

  /** The request and the body checks, once the host has passed. */
  function Download(url: string, maxSize: nat, w: World): (r: Result<seq<byte>, FetchError>)
    ensures r.Ok? <==>
      && w.send(url).Sent?
      && var resp := w.send(url).response;
      && IsSuccess(resp.status)
      && (resp.contentLength.None? || resp.contentLength.value <= maxSize)
      && AllData(resp.body) && |Flatten(resp.body)| <= maxSize
    ensures r.Ok? ==> r.value == Flatten(w.send(url).response.body)
    // a body longer than the bound is refused whatever length was declared
    ensures w.send(url).Sent? ==>
      var resp := w.send(url).response;
      (&& IsSuccess(resp.status) && AllData(resp.body) && |Flatten(resp.body)| > maxSize)
        ==> r == Err(TooLarge)
    ensures w.send(url).SendFailed? ==> r == Err(Request(SendError(w.send(url).reason)))
    ensures w.send(url).Sent? ==>
      var resp := w.send(url).response;
      && (!IsSuccess(resp.status) ==> r == Err(Request(HttpStatus(resp.status))))
      // a declared length over the bound is refused before the body is read
      && (IsSuccess(resp.status) && resp.contentLength.Some? && resp.contentLength.value > maxSize ==> r == Err(TooLarge))
      && ((&& IsSuccess(resp.status) && (resp.contentLength.None? || resp.contentLength.value <= maxSize)
           && !AllData(resp.body))
          ==> r.Err? && r.error.Request? && r.error.cause.BodyFailed?)
  {
    match w.send(url)
    case SendFailed(reason) => Err(Request(SendError(reason)))
    case Sent(resp) =>
      if !IsSuccess(resp.status) then Err(Request(HttpStatus(resp.status)))
      else if resp.contentLength.Some? && resp.contentLength.value > maxSize then Err(TooLarge)
      else match Buffer(resp.body)
        case Err(e) => Err(e)
        case Ok(bytes) => if |bytes| > maxSize then Err(TooLarge) else Ok(bytes)
  }

  function FetchImage(url: string, cache: Cache, maxSize: nat, w: World): (r: (Result<string, FetchError>, Cache))
    // a hit returns the stored text verbatim
    ensures url in cache ==> r == (Ok(cache[url]), cache)
    ensures r.0.Err? ==> r.1 == cache
    // only a success stores, and it stores exactly what it returns
    ensures url !in cache && r.0.Ok? ==> r.1 == cache[url := r.0.value]
    ensures url !in cache && r.0.Ok? ==>
      && Precheck(w.parseUrl(url), w).Ok? && Download(url, maxSize, w).Ok?
      && Acceptable(Download(url, maxSize, w).value, w.sniff)
      && Decode(r.0.value) == Some(Download(url, maxSize, w).value)
    ensures url !in cache && Precheck(w.parseUrl(url), w).Err? ==> r.0 == Err(Precheck(w.parseUrl(url), w).error)
    // after the checks, the download's error, then the content type's
    ensures url !in cache && Precheck(w.parseUrl(url), w).Ok? && Download(url, maxSize, w).Err? ==>
      r.0 == Err(Download(url, maxSize, w).error)
    ensures url !in cache && Precheck(w.parseUrl(url), w).Ok? && Download(url, maxSize, w).Ok?
            && !Acceptable(Download(url, maxSize, w).value, w.sniff) ==>
      r.0 == Err(InvalidContentType)
    ensures url !in cache ==>
      (r.0.Ok? <==> && Precheck(w.parseUrl(url), w).Ok? && Download(url, maxSize, w).Ok?
                    && Acceptable(Download(url, maxSize, w).value, w.sniff))
  {
    if url in cache then (Ok(cache[url]), cache)
    else
      match Precheck(w.parseUrl(url), w)
      case Err(e) => (Err(e), cache)
      case Ok(_) =>
        match Download(url, maxSize, w)
        case Err(e) => (Err(e), cache)
        case Ok(bytes) =>
          match w.sniff(bytes)
          case None => (Err(InvalidContentType), cache)
          case Some(mime) =>
            if mime !in AllowedMimeTypes then (Err(InvalidContentType), cache)
            else
              var encoded := ImagePipeline.EncodeBase64Bytes(bytes);
              (Ok(encoded), cache[url := encoded])
  }

  /** On a URL neither cache holds and whose host text reads as its host,
      the monolithic fetcher and the staged pipeline succeed on the same
      worlds and return the same text. */
  lemma AgreesWithPipeline(url: string, legacy: Cache, staged: ImagePipeline.Cache, maxSize: nat, w: World)
    requires url !in legacy && url !in staged
    requires HostTextAgrees(w.parseUrl(url), w.parseIp)
    ensures FetchImage(url, legacy, maxSize, w).0.Ok? <==> ImagePipeline.FetchImage(url, staged, maxSize, w).0.Ok?
    ensures FetchImage(url, legacy, maxSize, w).0.Ok? ==>
      FetchImage(url, legacy, maxSize, w).0.value == ImagePipeline.FetchImage(url, staged, maxSize, w).0.value
  {
    var syntax := w.parseUrl(url);
    var parsed := ImagePipeline.ParseStage(url, w);
    if parsed.Ok? {
      assert Precheck(syntax, w).Ok? <==> ResolveFailure(parsed.value.host, w).None?;
      var fetched := FetchHttp(parsed.value, maxSize, w);
      if fetched.Ok? {
        assert fetched.value.bytes == Download(url, maxSize, w).value;
      }
    }
  }

  /** The two generations report a name that resolves to a private address
      differently: the monolithic one before any request, naming the host;
      the staged one as a failed request carrying the resolver's refusal. */
  lemma PrivateNameReportedDifferently(url: string, maxSize: nat, w: World, name: string, ip: IpAddr)
    requires w.parseUrl(url) == Url("https", Some(name), Some(Domain(name))) && w.parseIp(name).None?
    requires w.dns(name) == Answer([ip]) && !w.isGlobal(ip)
    ensures FetchImage(url, map[], maxSize, w).0 == Err(PrivateIpBlocked(HostResolvesTo(name, ip)))
    ensures ImagePipeline.FetchImage(url, map[], maxSize, w).0 == Err(Request(Resolving(PermissionDenied(ip))))
  {
    assert FirstNonGlobal([ip], 0, w.isGlobal);
  }

  /** The bracketed IPv6 loopback splits the two generations: the
      monolithic fetcher looks the bracketed text up as a name, and fails
      when that lookup fails, while the staged one connects to the
      literal. */
  lemma BracketedLiteralDiverges(url: string, maxSize: nat, w: World, bytes: seq<byte>, reason: string)
    requires w.parseUrl(url) == Url("http", Some("[::1]"), Some(Ip(Loopback6)))
    requires w.parseIp("[::1]").None? && !w.isGlobal(Loopback6)
    requires w.dns("[::1]") == LookupFailed(reason)
    requires w.send(url) == Sent(Response(200, None, [Data(bytes)]))
    requires |bytes| <= maxSize && Acceptable(bytes, w.sniff)
    ensures FetchImage(url, map[], maxSize, w).0 == Err(Request(DnsFailed(reason)))
    ensures ImagePipeline.FetchImage(url, map[], maxSize, w).0.Ok?
  {
    ImagePipeline.PrivateLiteralFetched(url, maxSize, w, bytes);
  }
}
