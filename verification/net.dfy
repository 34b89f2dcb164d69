/** What the fetch pipeline learns from the outside world.  URL parsing,
    address parsing, the global-address test, DNS, HTTP and magic-byte
    sniffing are libraries or the network; each is a function the caller
    supplies, and the model states what the pipeline does with every
    possible answer. */
module Net {
  import opened Wrappers
  import opened Base64

  /** An address as the standard library parses it.  Its classification
      (global or not) is external, so the fields are only carried. */
  datatype IpAddr = V4(octets: seq<byte>) | V6(segments: seq<nat>)

  /** The host of a parsed URL as the HTTP client sees it: an address
      literal, connected to directly, or a name, handed to the resolver. */
  datatype Host = Ip(ip: IpAddr) | Domain(name: string)

  /** The URL parser's verdict: the error text, or the scheme, the host's
      text (`host_str`) and the host itself (`host`).  The two views of the
      host differ for IPv6 literals, whose text keeps its brackets. */
  datatype UrlSyntax = Unparseable(reason: string) | Url(scheme: string, hostText: Option<string>, host: Option<Host>)

  /** The host's text reads as the host: a literal's text is that address
      in the standard library's syntax, and a name's text is the name and
      is not an address. */
  predicate HostTextAgrees(syntax: UrlSyntax, parseIp: string -> Option<IpAddr>) {
    syntax.Url? ==>
      match syntax.host
      case None => syntax.hostText.None?
      case Some(Ip(ip)) => syntax.hostText.Some? && parseIp(syntax.hostText.value) == Some(ip)
      case Some(Domain(name)) => syntax.hostText == Some(name) && parseIp(name).None?
  }

  datatype SocketAddr = SocketAddr(ip: IpAddr, port: nat)

  /** A DNS answer: the lookup error text, or the addresses in order. */
  datatype Lookup = LookupFailed(reason: string) | Answer(ips: seq<IpAddr>)

  /** One item of a streamed response body. */
  datatype Chunk = Data(bytes: seq<byte>) | ReadFailed(reason: string)

  datatype Response = Response(status: nat, contentLength: Option<nat>, body: seq<Chunk>)

  /** The HTTP client's answer to a request for a URL. */
  datatype SendOutcome = SendFailed(reason: string) | Sent(response: Response)

  /** The collaborators, all deterministic. */
  datatype World = World(
    parseUrl: string -> UrlSyntax,
    parseIp: string -> Option<IpAddr>,
    isGlobal: IpAddr -> bool,
    dns: string -> Lookup,
    send: string -> SendOutcome,
    sniff: seq<byte> -> Option<string>)
}
