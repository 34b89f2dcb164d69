/** The request-parameter rules of the template route: length limits,
    defaults, and what a failed logo fetch does. */
module Params {
  import opened Wrappers
  import opened Decimal
  import opened Base64
  import opened ImageError
  import opened ImageValidate
  import ImagePipeline

  datatype OgParams = OgParams(title: Option<string>, description: Option<string>,
                               subtitle: Option<string>, logo: Option<string>)

  /** Bytes in the UTF-8 encoding of one scalar value. */
  function Utf8Width(c: char): (n: nat)
    ensures 1 <= n <= 4
  {
    if c as int < 0x80 then 1
    else if c as int < 0x800 then 2
    else if c as int < 0x1_0000 then 3
    else 4
  }

  /** `str::len`: the length in UTF-8 bytes, not in characters. */
  function Utf8Len(s: string): nat
    decreases |s|
  {
    if |s| == 0 then 0 else Utf8Width(s[0]) + Utf8Len(s[1..])
  }

  /** Every character takes one to four bytes; ASCII takes exactly one. */
  lemma {:induction false} Utf8LenBounds(s: string)
    ensures |s| <= Utf8Len(s) <= 4 * |s|
    ensures (forall i :: 0 <= i < |s| ==> s[i] as int < 0x80) ==> Utf8Len(s) == |s|
    decreases |s|
  {
    if |s| > 0 {
      assert forall i :: 1 <= i < |s| ==> s[1..][i - 1] == s[i];
      Utf8LenBounds(s[1..]);
    }
  }

  predicate Fits(v: Option<string>, maxLength: nat) {
    v.None? || Utf8Len(v.value) <= maxLength
  }

  function TooLong(name: string, maxLength: nat): string {
    name + " exceeds maximum length of " + NatToString(maxLength)
  }

  /** The loop over the named fields: the first one that does not fit is
      reported. */
  function CheckFields(fields: seq<(string, Option<string>)>, maxLength: nat): (r: Result<(), string>)
    ensures r.Ok? <==> forall i :: 0 <= i < |fields| ==> Fits(fields[i].1, maxLength)
    ensures r.Err? ==> exists k ::
      && 0 <= k < |fields| && !Fits(fields[k].1, maxLength)
      && (forall j :: 0 <= j < k ==> Fits(fields[j].1, maxLength))
      && r.error == TooLong(fields[k].0, maxLength)
    decreases |fields|
  {
    if |fields| == 0 then Ok(())
    else if !Fits(fields[0].1, maxLength) then Err(TooLong(fields[0].0, maxLength))
    else
      var rest := CheckFields(fields[1..], maxLength);
      assert forall i :: 1 <= i < |fields| ==> fields[i] == fields[1..][i - 1];
      if rest.Err? then
        var k :| && 0 <= k < |fields[1..]| && !Fits(fields[1..][k].1, maxLength)
                 && (forall j :: 0 <= j < k ==> Fits(fields[1..][j].1, maxLength))
                 && rest.error == TooLong(fields[1..][k].0, maxLength);
        assert !Fits(fields[k + 1].1, maxLength);
        rest
      else rest
  }

  /** `validate`: absent fields always pass; the fields are checked in the
      order title, description, subtitle, logo. */
  function Validate(p: OgParams, maxLength: nat): (r: Result<(), string>)
    ensures r.Ok? <==> Fits(p.title, maxLength) && Fits(p.description, maxLength)
                       && Fits(p.subtitle, maxLength) && Fits(p.logo, maxLength)
    ensures !Fits(p.title, maxLength) ==> r == Err(TooLong("Title", maxLength))
    ensures Fits(p.title, maxLength) && !Fits(p.description, maxLength) ==>
      r == Err(TooLong("Description", maxLength))
    ensures Fits(p.title, maxLength) && Fits(p.description, maxLength) && !Fits(p.subtitle, maxLength) ==>
      r == Err(TooLong("Subtitle", maxLength))
    ensures (Fits(p.title, maxLength) && Fits(p.description, maxLength) && Fits(p.subtitle, maxLength)
             && !Fits(p.logo, maxLength)) ==> r == Err(TooLong("Logo URL", maxLength))
  {
    var fields := [("Title", p.title), ("Description", p.description), ("Subtitle", p.subtitle), ("Logo URL", p.logo)];
    var r := CheckFields(fields, maxLength);
    assert fields[0].1 == p.title && fields[1].1 == p.description;
    assert fields[2].1 == p.subtitle && fields[3].1 == p.logo;
    r
  }

  /** A field with more characters than the limit never passes, whatever
      the characters are. */
  lemma TooManyCharactersRejected(p: OgParams, maxLength: nat)
    requires p.title.Some? && |p.title.value| > maxLength
    ensures Validate(p, maxLength) == Err(TooLong("Title", maxLength))
  {
    Utf8LenBounds(p.title.value);
  }

  /** The configured defaults. */
  datatype Defaults = Defaults(title: string, description: string, subtitle: string)

  predicate NoParams(p: OgParams) {
    p.title.None? && p.description.None? && p.subtitle.None? && p.logo.None?
  }

  function OrEmpty(v: Option<string>): (s: string)
    ensures v.Some? ==> s == v.value
    ensures v.None? ==> s == ""
  {
    match v case Some(x) => x case None => ""
  }

  /** `with_defaults`: the defaults only for a request with no parameters
      at all; otherwise each missing text is empty. */
  function WithDefaults(p: OgParams, d: Defaults): (r: (string, string, string))
    ensures NoParams(p) ==> r == (d.title, d.description, d.subtitle)
    ensures !NoParams(p) ==> r == (OrEmpty(p.title), OrEmpty(p.description), OrEmpty(p.subtitle))
  {
    var noParams := p.title.None? && p.description.None? && p.subtitle.None? && p.logo.None?;
    if noParams then (d.title, d.description, d.subtitle)
    else (OrEmpty(p.title), OrEmpty(p.description), OrEmpty(p.subtitle))
  }

  /** A logo alone switches the defaults off: every text is empty. */
  lemma LogoAloneSuppressesDefaults(logo: string, d: Defaults)
    ensures WithDefaults(OgParams(None, None, None, Some(logo)), d) == ("", "", "")
  {
  }

  /** The configured defaults are consulted only for a request that names
      nothing: the result depends on them iff no parameter is present.  A
      text the request gives is always used as given. */
  lemma DefaultsOnlyForEmptyRequest(p: OgParams, d1: Defaults, d2: Defaults)
    ensures WithDefaults(p, d1) == WithDefaults(p, d2) <==> (!NoParams(p) || d1 == d2)
    ensures p.title.Some? ==> WithDefaults(p, d1).0 == p.title.value
    ensures p.description.Some? ==> WithDefaults(p, d1).1 == p.description.value
    ensures p.subtitle.Some? ==> WithDefaults(p, d1).2 == p.subtitle.value
  {
    if NoParams(p) && WithDefaults(p, d1) == WithDefaults(p, d2) {
      assert d1.title == d2.title && d1.description == d2.description && d1.subtitle == d2.subtitle;
    }
  }

  datatype ImageFallback = Skip | Error

  /** The response sent instead of an image: the status and the failure it
      reports. */
  datatype ErrorResponse = ErrorResponse(status: nat, cause: FetchError)

  const InternalServerError: nat := 500

  /** `fetch_logo`, given the fetcher as a function of the URL. */
  function FetchLogo(p: OgParams, fallback: ImageFallback, fetch: string -> Result<string, FetchError>): (r: Result<Option<string>, ErrorResponse>)
    ensures p.logo.None? ==> r == Ok(None)
    ensures p.logo.Some? && fetch(p.logo.value).Ok? ==> r == Ok(Some(fetch(p.logo.value).value))
    ensures p.logo.Some? && fetch(p.logo.value).Err? ==>
      && (fallback == Skip ==> r == Ok(None))
      && (fallback == Error ==> r == Err(ErrorResponse(InternalServerError, fetch(p.logo.value).error)))
    ensures r.Err? ==> fallback == Error
  {
    match p.logo
    case None => Ok(None)
    case Some(url) =>
      match fetch(url)
      case Ok(base64) => Ok(Some(base64))
      case Err(e) =>
        match fallback
        case Skip => Ok(None)
        case Error => Err(ErrorResponse(InternalServerError, e))
  }

  /** With the staged pipeline as the fetcher, a logo handed to the
      template decodes to bytes the sniffer accepts and that fit the size
      bound, whether they came from the cache or from the network. */
  lemma LogoIsValidatedImage(p: OgParams, fallback: ImageFallback, cache: ImagePipeline.Cache,
                             maxSize: nat, w: Net.World)
    requires forall u :: u in cache ==> Acceptable(cache[u], w.sniff) && |cache[u]| <= maxSize
    ensures var r := FetchLogo(p, fallback, u => ImagePipeline.FetchImage(u, cache, maxSize, w).0);
      r.Ok? && r.value.Some? ==>
        && Decode(r.value.value).Some?
        && Acceptable(Decode(r.value.value).value, w.sniff)
        && |Decode(r.value.value).value| <= maxSize
  {
    var fetch := u => ImagePipeline.FetchImage(u, cache, maxSize, w).0;
    var r := FetchLogo(p, fallback, fetch);
    if r.Ok? && r.value.Some? {
      var url := p.logo.value;
      var (res, c) := ImagePipeline.FetchImage(url, cache, maxSize, w);
      assert res == fetch(url);
      if url !in cache {
        assert Decode(res.value) == Some(c[url]);
      }
    }
  }
}
