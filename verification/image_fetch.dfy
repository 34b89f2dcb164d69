/** Stage 2: the HTTP request.  The client resolves names through the
    global-only resolver; the status must be a success, a declared length
    must fit, and the body is accumulated chunk by chunk, never past the
    size bound. */
module ImageFetch {
  import opened Wrappers
  import opened Base64
  import opened Net
  import opened Resolver
  import opened ImageError
  import opened ImageParse

  datatype FetchedImage = FetchedImage(bytes: seq<byte>, url: string)

  /** The bytes a chunk contributes; a failed read contributes none. */
  function ChunkBytes(c: Chunk): seq<byte> {
    match c
    case Data(b) => b
    case ReadFailed(_) => []
  }

  /** The in-order concatenation of the chunks' bytes. */
  function Flatten(chunks: seq<Chunk>): seq<byte>
    decreases |chunks|
  {
    if |chunks| == 0 then [] else ChunkBytes(chunks[0]) + Flatten(chunks[1..])
  }

  predicate AllData(chunks: seq<Chunk>) {
    forall i :: 0 <= i < |chunks| ==> chunks[i].Data?
  }

  /** The `try_fold` over the body stream, from an accumulator: a failed
      read stops it, and so does the first chunk that would take the total
      past `max`. */
  function Fold(acc: seq<byte>, chunks: seq<Chunk>, max: nat): Result<seq<byte>, FetchError>
    decreases |chunks|
  {
    if |chunks| == 0 then Ok(acc)
    else match chunks[0]
      case ReadFailed(e) => Err(Request(ChunkFailed(e)))
      case Data(b) => if |acc| + |b| > max then Err(TooLarge) else Fold(acc + b, chunks[1..], max)
  }

  lemma PrefixStep(chunks: seq<Chunk>, k: nat)
    requires 0 < |chunks| && k < |chunks|
    ensures chunks[..k + 1][0] == chunks[0] && chunks[..k + 1][1..] == chunks[1..][..k]
  {
  }

  /** `chunks[k]` is the first failed read, and everything before it fits. */
  predicate FailsReadingAt(acc: seq<byte>, chunks: seq<Chunk>, k: int, max: nat) {
    && 0 <= k < |chunks| && chunks[k].ReadFailed?
    && AllData(chunks[..k]) && |acc| + |Flatten(chunks[..k])| <= max
  }

  /** `chunks[k]` is the first chunk that does not fit. */
  predicate OverflowsAt(acc: seq<byte>, chunks: seq<Chunk>, k: int, max: nat) {
    && 0 <= k < |chunks| && chunks[k].Data?
    && AllData(chunks[..k]) && |acc| + |Flatten(chunks[..k])| <= max
    && |acc| + |Flatten(chunks[..k])| + |chunks[k].bytes| > max
  }

  /** What the fold computes: the concatenation when every chunk is data
      and the total fits, and otherwise the error of the first chunk that
      fails or does not fit. */
  lemma {:induction false} FoldMeaning(acc: seq<byte>, chunks: seq<Chunk>, max: nat)
    requires |acc| <= max
    ensures Fold(acc, chunks, max).Ok? <==> AllData(chunks) && |acc| + |Flatten(chunks)| <= max
    ensures Fold(acc, chunks, max).Ok? ==> Fold(acc, chunks, max).value == acc + Flatten(chunks)
    ensures Fold(acc, chunks, max) == Err(TooLarge) ==> exists k :: OverflowsAt(acc, chunks, k, max)
    ensures Fold(acc, chunks, max).Err? && Fold(acc, chunks, max) != Err(TooLarge) ==>
      exists k :: FailsReadingAt(acc, chunks, k, max) && Fold(acc, chunks, max) == Err(Request(ChunkFailed(chunks[k].reason)))
    decreases |chunks|
  {
    if |chunks| > 0 {
      var rest := chunks[1..];
      assert forall i :: 1 <= i < |chunks| ==> chunks[i] == rest[i - 1];
      assert chunks[..0] == [];
      assert Flatten(chunks[..0]) == [];
      match chunks[0]
      case ReadFailed(e) =>
        assert FailsReadingAt(acc, chunks, 0, max);
      case Data(b) =>
        if |acc| + |b| > max {
          assert OverflowsAt(acc, chunks, 0, max);
        } else {
          FoldMeaning(acc + b, rest, max);
          assert acc + b + Flatten(rest) == acc + Flatten(chunks);
          var r := Fold(acc + b, rest, max);
          if r == Err(TooLarge) {
            var k :| OverflowsAt(acc + b, rest, k, max);
            PrefixStep(chunks, k);
            assert Flatten(chunks[..k + 1]) == b + Flatten(rest[..k]);
            assert OverflowsAt(acc, chunks, k + 1, max);
          } else if r.Err? {
            var k :| FailsReadingAt(acc + b, rest, k, max) && r == Err(Request(ChunkFailed(rest[k].reason)));
            PrefixStep(chunks, k);
            assert Flatten(chunks[..k + 1]) == b + Flatten(rest[..k]);
            assert FailsReadingAt(acc, chunks, k + 1, max);
          }
        }
    }
  }

  /** The streaming loop: the accumulator never exceeds `max`, and the
      result is the fold's. */
  method StreamBody(chunks: seq<Chunk>, max: nat) returns (r: Result<seq<byte>, FetchError>)
    ensures r == Fold([], chunks, max)
    ensures r.Ok? <==> AllData(chunks) && |Flatten(chunks)| <= max
    ensures r.Ok? ==> r.value == Flatten(chunks) && |r.value| <= max
    ensures r.Err? ==> r.error == TooLarge || r.error.Request?
  {
    var acc: seq<byte> := [];
    var i := 0;
    FoldMeaning([], chunks, max);
    while i < |chunks|
      invariant 0 <= i <= |chunks|
      invariant |acc| <= max
      invariant Fold(acc, chunks[i..], max) == Fold([], chunks, max)
    {
      assert chunks[i..][0] == chunks[i] && chunks[i..][1..] == chunks[i + 1..];
      match chunks[i]
      case ReadFailed(e) =>
        return Err(Request(ChunkFailed(e)));
      case Data(b) =>
        if |acc| + |b| > max {
          return Err(TooLarge);
        }
        acc := acc + b;
      i := i + 1;
    }
    assert chunks[i..] == [];
    r := Ok(acc);
  }

  predicate IsSuccess(status: nat) {
    200 <= status <= 299
  }

  /** What the client's resolver says about the host, if it refuses it.
      Only names are resolved: an address literal, however its text is
      written, is connected to directly. */
  function ResolveFailure(host: Option<Host>, w: World): (f: Option<ResolveError>)
    ensures f.Some? <==> host.Some? && host.value.Domain? && Resolve(w.dns(host.value.name), w.isGlobal).Err?
    ensures f.Some? ==> f.value == Resolve(w.dns(host.value.name), w.isGlobal).error
  {
    match host
    case Some(Domain(name)) =>
      (match Resolve(w.dns(name), w.isGlobal) case Err(e) => Some(e) case Ok(_) => None)
    case _ => None
  }

  /** Everything on the way to a stored image goes right. */
  predicate Delivers(parsed: ParsedUrl, maxSize: nat, w: World) {
    && ResolveFailure(parsed.host, w).None?
    && w.send(parsed.original).Sent?
    && var resp := w.send(parsed.original).response;
    && IsSuccess(resp.status)
    && (resp.contentLength.None? || resp.contentLength.value <= maxSize)
    && AllData(resp.body) && |Flatten(resp.body)| <= maxSize
  }

  /** `fetch_http`.  The request goes to the URL text as given. */
  function FetchHttp(parsed: ParsedUrl, maxSize: nat, w: World): (r: Result<FetchedImage, FetchError>)
    ensures r.Ok? <==> Delivers(parsed, maxSize, w)
    ensures r.Ok? ==> && r.value.url == parsed.original
                      && r.value.bytes == Flatten(w.send(parsed.original).response.body)
                      && |r.value.bytes| <= maxSize
    ensures ResolveFailure(parsed.host, w).Some? ==> r == Err(Request(Resolving(ResolveFailure(parsed.host, w).value)))
    ensures ResolveFailure(parsed.host, w).None? && w.send(parsed.original).SendFailed? ==>
      r == Err(Request(SendError(w.send(parsed.original).reason)))
    ensures ResolveFailure(parsed.host, w).None? && w.send(parsed.original).Sent? ==>
      var resp := w.send(parsed.original).response;
      && (!IsSuccess(resp.status) ==> r == Err(Request(HttpStatus(resp.status))))
      && (IsSuccess(resp.status) && resp.contentLength.Some? && resp.contentLength.value > maxSize ==> r == Err(TooLarge))
      // a body longer than the bound is cut off while streaming, whatever length was declared
      && ((&& IsSuccess(resp.status) && (resp.contentLength.None? || resp.contentLength.value <= maxSize)
           && AllData(resp.body) && |Flatten(resp.body)| > maxSize)
          ==> r == Err(TooLarge))
    ensures r.Err? ==> r.error == TooLarge || r.error.Request?
    // a refusal for size is the declared length or the first chunk that does not fit
    ensures r == Err(TooLarge) ==>
      && w.send(parsed.original).Sent?
      && var resp := w.send(parsed.original).response;
      || (resp.contentLength.Some? && resp.contentLength.value > maxSize)
      || exists k :: OverflowsAt([], resp.body, k, maxSize)
    // a failed read is reported for the first chunk that failed, all before it fitting
    ensures r.Err? && r.error.Request? && r.error.cause.ChunkFailed? ==>
      && w.send(parsed.original).Sent?
      && var body := w.send(parsed.original).response.body;
      exists k :: FailsReadingAt([], body, k, maxSize) && r.error.cause == ChunkFailed(body[k].reason)
  {
    match ResolveFailure(parsed.host, w)
    case Some(e) => Err(Request(Resolving(e)))
    case None =>
      match w.send(parsed.original)
      case SendFailed(reason) => Err(Request(SendError(reason)))
      case Sent(resp) =>
        if !IsSuccess(resp.status) then Err(Request(HttpStatus(resp.status)))
        else if resp.contentLength.Some? && resp.contentLength.value > maxSize then Err(TooLarge)
        else
          FoldMeaning([], resp.body, maxSize);
          match Fold([], resp.body, maxSize)
          case Err(e) => Err(e)
          case Ok(bytes) => Ok(FetchedImage(bytes, parsed.original))
  }

  /** A declared length equal to the bound is accepted: only a larger one
      is refused before the body is read. */
  lemma LengthAtBoundAccepted(parsed: ParsedUrl, maxSize: nat, w: World)
    requires ResolveFailure(parsed.host, w).None? && w.send(parsed.original).Sent?
    requires IsSuccess(w.send(parsed.original).response.status)
    requires w.send(parsed.original).response.contentLength == Some(maxSize)
    requires AllData(w.send(parsed.original).response.body)
    requires |Flatten(w.send(parsed.original).response.body)| <= maxSize
    ensures FetchHttp(parsed, maxSize, w).Ok?
  {
  }
}
