/** The fetch pipeline's error variants.  The free-text parts of the
    source's messages are kept as structure: what failed, and the value
    the message would print. */
module ImageError {
  import opened Net
  import opened Resolver

  /** Why a request failed. */
  datatype RequestCause =
    | SendError(reason: string)
    | Resolving(error: ResolveError)    // the client's resolver refused the host
    | HttpStatus(status: nat)           // "HTTP <status>"
    | ChunkFailed(reason: string)       // "Failed to read response chunk: ..."
    | BodyFailed(reason: string)        // "Failed to read response body: ..."
    | DnsFailed(reason: string)         // "DNS lookup failed: ..."
    | NoAddresses                       // "No IP addresses resolved"

  /** What a private-address block names. */
  datatype Blocked =
    | LiteralIp(ip: IpAddr)                      // "Private IP address <ip> is not allowed"
    | HostResolvesTo(host: string, ip: IpAddr)   // "Hostname <host> resolves to private IP <ip>"

  datatype FetchError =
    | Request(cause: RequestCause)
    | TooLarge
    | InvalidContentType
    | PrivateIpBlocked(blocked: Blocked)
    | InvalidUrl(message: string)
}
