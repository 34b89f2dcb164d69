/** Stage 1 of the fetch pipeline: the URL must parse, use http or https,
    and its host text must not be a non-global address.  Names are left to
    the resolver. */
module ImageParse {
  import opened Wrappers
  import opened Net
  import opened ImageError

  datatype ParsedUrl = ParsedUrl(scheme: string, host: Option<Host>, original: string)

  const ParseFailurePrefix: string := "Failed to parse URL: "
  const SchemePrefix: string := "Only http/https schemes allowed, got: "

  predicate AllowedScheme(scheme: string) {
    scheme == "http" || scheme == "https"
  }

  /** The host text parses as an address, and that address is not global. */
  predicate PrivateLiteral(hostText: Option<string>, parseIp: string -> Option<IpAddr>, isGlobal: IpAddr -> bool) {
    hostText.Some? && parseIp(hostText.value).Some? && !isGlobal(parseIp(hostText.value).value)
  }

  /** `parse_url`, given the URL parser's verdict on the text.  The literal
      check reads the host's text, not the host the client connects to. */
  function ParseUrl(url: string, syntax: UrlSyntax, parseIp: string -> Option<IpAddr>, isGlobal: IpAddr -> bool)
    : (r: Result<ParsedUrl, FetchError>)
    ensures r.Ok? <==> syntax.Url? && AllowedScheme(syntax.scheme) && !PrivateLiteral(syntax.hostText, parseIp, isGlobal)
    ensures r.Ok? ==> r.value == ParsedUrl(syntax.scheme, syntax.host, url)
    ensures syntax.Unparseable? ==> r == Err(InvalidUrl(ParseFailurePrefix + syntax.reason))
    ensures syntax.Url? && !AllowedScheme(syntax.scheme) ==> r == Err(InvalidUrl(SchemePrefix + syntax.scheme))
    ensures syntax.Url? && AllowedScheme(syntax.scheme) && PrivateLiteral(syntax.hostText, parseIp, isGlobal) ==>
      r == Err(PrivateIpBlocked(LiteralIp(parseIp(syntax.hostText.value).value)))
  {
    match syntax
    case Unparseable(reason) => Err(InvalidUrl(ParseFailurePrefix + reason))
    case Url(scheme, hostText, host) =>
      if !AllowedScheme(scheme) then Err(InvalidUrl(SchemePrefix + scheme))
      else if hostText.Some? && parseIp(hostText.value).Some? && !isGlobal(parseIp(hostText.value).value) then
        Err(PrivateIpBlocked(LiteralIp(parseIp(hostText.value).value)))
      else Ok(ParsedUrl(scheme, host, url))
  }

  /** The scheme is checked before the host: a private literal under a
      bad scheme is reported as a bad scheme. */
  lemma SchemeCheckedFirst(url: string, scheme: string, text: string, ip: IpAddr,
                           parseIp: string -> Option<IpAddr>, isGlobal: IpAddr -> bool)
    requires !AllowedScheme(scheme) && parseIp(text) == Some(ip) && !isGlobal(ip)
    ensures ParseUrl(url, Url(scheme, Some(text), Some(Ip(ip))), parseIp, isGlobal).error.InvalidUrl?
  {
  }

  /** A name passes without any lookup: the outcome does not depend on the
      address test at all. */
  lemma NamesPassUnresolved(url: string, scheme: string, name: string, parseIp: string -> Option<IpAddr>,
                            g1: IpAddr -> bool, g2: IpAddr -> bool)
    requires AllowedScheme(scheme) && parseIp(name).None?
    ensures ParseUrl(url, Url(scheme, Some(name), Some(Domain(name))), parseIp, g1)
            == ParseUrl(url, Url(scheme, Some(name), Some(Domain(name))), parseIp, g2)
    ensures ParseUrl(url, Url(scheme, Some(name), Some(Domain(name))), parseIp, g1).Ok?
  {
  }

  /** The IPv6 loopback address `::1`. */
  const Loopback6: IpAddr := V6([0, 0, 0, 0, 0, 0, 0, 1])

  /** The URL library writes an IPv6 host in brackets, and the bracketed
      text is not an address: `http://[::1]/` passes the literal check
      although the client connects to `::1` itself. */
  lemma BracketedLiteralPasses(url: string, parseIp: string -> Option<IpAddr>, isGlobal: IpAddr -> bool)
    requires parseIp("[::1]").None? && !isGlobal(Loopback6)
    ensures ParseUrl(url, Url("http", Some("[::1]"), Some(Ip(Loopback6))), parseIp, isGlobal).Ok?
    ensures ParseUrlCorrected(url, Url("http", Some("[::1]"), Some(Ip(Loopback6))), parseIp, isGlobal)
            == Err(PrivateIpBlocked(LiteralIp(Loopback6)))
  {
  }

  /** The host the client connects to directly is an address that is not
      global. */
  predicate ConnectsToPrivate(host: Option<Host>, isGlobal: IpAddr -> bool) {
    host.Some? && host.value.Ip? && !isGlobal(host.value.ip)
  }

  /** `parse_url` as its comment intends: no URL naming a non-global
      address literally passes, whichever way the host is written. */
  function ParseUrlCorrected(url: string, syntax: UrlSyntax, parseIp: string -> Option<IpAddr>, isGlobal: IpAddr -> bool)
    : (r: Result<ParsedUrl, FetchError>)
    ensures r.Ok? <==> && ParseUrl(url, syntax, parseIp, isGlobal).Ok?
                       && !ConnectsToPrivate(syntax.host, isGlobal)
    ensures r.Ok? ==> r == ParseUrl(url, syntax, parseIp, isGlobal)
    ensures ParseUrl(url, syntax, parseIp, isGlobal).Err? ==> r == ParseUrl(url, syntax, parseIp, isGlobal)
    ensures ParseUrl(url, syntax, parseIp, isGlobal).Ok? && ConnectsToPrivate(syntax.host, isGlobal) ==>
      r == Err(PrivateIpBlocked(LiteralIp(syntax.host.value.ip)))
  {
    match ParseUrl(url, syntax, parseIp, isGlobal)
    case Err(e) => Err(e)
    case Ok(parsed) =>
      match parsed.host
      case Some(Ip(ip)) => if isGlobal(ip) then Ok(parsed) else Err(PrivateIpBlocked(LiteralIp(ip)))
      case _ => Ok(parsed)
  }

  /** Wherever the host's text reads as the host, the corrected check and
      the written one agree. */
  lemma CorrectedAgreesWhenTextAgrees(url: string, syntax: UrlSyntax, parseIp: string -> Option<IpAddr>,
                                      isGlobal: IpAddr -> bool)
    requires HostTextAgrees(syntax, parseIp)
    ensures ParseUrlCorrected(url, syntax, parseIp, isGlobal) == ParseUrl(url, syntax, parseIp, isGlobal)
  {
  }
}
