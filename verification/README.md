# ogis core in Dafny

A model of the two sequential cores of the ogis Open Graph image service,
and of its request-parameter rules, with their properties proved.

- **Template rewriter.** It makes one forward pass over the XML events of
  an SVG template. The live generation (`Engine`) keeps four things: a
  skip depth, the id of an image group whose bounding `<rect>` is still
  awaited, a text map and an image map. It replaces the text of marked
  elements, turns marked groups into one `<image>` with a base64 data
  URI, and removes groups whose image is absent. Two older generations
  are modelled as well: the middle one (`MiddleGen`) and the scaffold
  (`Scaffold`). So are the string-substitution generator (`Placeholder`)
  and the fixed-layout route (`OgRoute`).
- **Image fetch pipeline.** It checks the URL (`ImageParse`) and resolves
  names to global addresses only (`Resolver`). It requires a successful
  status and streams the body under a size bound (`ImageFetch`). It
  sniffs the type from the bytes (`ImageValidate`) and caches the raw
  bytes (`ImagePipeline`). The older monolithic fetcher
  (`LegacyFetcher`) is modelled too, and is proved to succeed on the same
  inputs with the same result wherever the URL's host text reads as its
  host.
- **Parameter rules** (`Params`): length limits, defaults, and the
  logo-fallback policy.

The outside world is a parameter, not something the model runs: the URL
parser's verdict, the standard library's address parser, the
global-address test, DNS answers, HTTP responses and magic-byte sniffing
(`Net.World`). The URL parser's verdict carries both views of the host:
its text, which the literal checks parse, and the host the HTTP client
connects to. An XML template is a sequence of
reader results (`Xml.Read`), and the writer's output is a sequence of
events. Writes go to an in-memory buffer and cannot fail, so the
write-error branches of the handlers are unreachable. The result types
are kept where the source has them.

Modules: `Wrappers`, `Xml`, `XmlEscape`, `Base64`, `Decimal`,
`SkipDepth`, `Strategies`, `Engine`, `EngineProps`, `MiddleGen`,
`EngineCorrected`, `Scaffold`, `Placeholder`, `OgRoute`, `Net`, `Resolver`, `ImageError`,
`ImageParse`, `ImageFetch`, `ImageValidate`, `ImagePipeline`,
`LegacyFetcher`, `Params`.

## Model

| member | source | states |
|---|---|---|
| SkipDepth.StartSkip | src/generator/events/state.rs:54-56 | Entering a skipped element adds exactly one; the result is skipping, and `EndSkip` right after it restores the original depth |
| SkipDepth.EndSkip | src/generator/events/state.rs:59-63 | A positive depth drops by exactly one; at zero it stays zero, so the depth never goes negative |
| SkipDepth.IsSkipping | src/generator/events/state.rs:49-51 | The test that the handlers branch on; what it means for a run is stated by SkipDepth.StartSkip, SkipDepth.EndSkip and EngineProps.SkipsSubtree |
| Scaffold.NewScaffoldState | src/generator/handlers/state.rs:11-13 | The scaffold state starts with depth 0, so it is not skipping |
| Scaffold.DefaultScaffoldState | src/generator/handlers/state.rs:2-3 | The derived default is the same state as `new` |
| Scaffold.HandleEnd | src/generator/handlers/end.rs:8-25 | The scaffold's saturating close: while skipping, it writes nothing and lowers the depth by one; otherwise it writes the end tag and keeps the state |
| Xml.FindAttr | src/generator/strategies/image_content.rs:57-60 | Nothing is found iff no readable attribute has exactly that key; a found value is that of a matching attribute with no matching one before it, and malformed attributes are skipped |
| Xml.GetIdFromElement | src/generator/utils.rs:4-10 | It gives none iff no readable attribute is keyed `id`; otherwise it gives the raw value of the first `id` attribute, not unescaped |
| Xml.FirstIdWins | src/generator/utils.rs:8 | An `id` attribute after attributes with other keys is the one returned |
| XmlEscape.Escape | src/generator.rs:1 | The escaped text is at least as long as the input and contains no raw `<`, `>`, `"` or `'` |
| XmlEscape.UnescapeEscape | src/generator/strategies/text_content.rs:20-22 | Unescaping an escaped text gives the text back, so the escaping loses nothing |
| XmlEscape.EscapeXmlIsEscape | src/routes/og.rs:84-90 | The route's chained replacements, with `&` first, agree with single-pass escaping on every string, so nothing is escaped twice |
| XmlEscape.EscapeXml | src/routes/og.rs:84-90 | The chain of five replacements; its meaning is stated by XmlEscape.EscapeXmlIsEscape (equal to single-pass escaping) and XmlEscape.UnescapeEscape |
| XmlEscape.EscapeIdentity | src/routes/og.rs:84-90 | A text with none of the five special characters is unchanged |
| XmlEscape.EscapeAmpersands | src/routes/og.rs:85-89 | Every `&` in escaped output begins one of the five entities |
| Base64.Encode | src/image/encode.rs:4-5 | The output has length 4·⌈n/3⌉ and uses only the standard alphabet and `=` |
| Base64.DecodeEncode | src/image/encode.rs:4-5 | Decoding the encoding of any byte sequence gives the bytes back |
| Strategies.TextContentReplace | src/generator/strategies/text_content.rs:9-30 | Exactly three events: the original start tag with its attributes in order, one text node that contains no raw markup and unescapes to the replacement, and an end tag with the original name |
| Strategies.ApplyReplacement | src/generator/strategies/mod.rs:11-28 | It is always Ok, since the writer cannot fail. It reports a replacement iff the lossily decoded id is a text key; it then writes the text replacement for that key, and otherwise writes nothing |
| Strategies.GetAttr | src/generator/strategies/image_content.rs:57-70 | A missing attribute gives "Missing required attribute: " plus the name; a non-UTF-8 value gives a decode error; otherwise it gives the first matching value |
| Strategies.DataUri | src/generator/strategies/image_content.rs:31-45 | The URI always starts `data:image/png;base64,`, whatever the bytes are; the rest decodes back to the bytes and needs no escaping |
| Strategies.ImageElementContents | src/generator/strategies/image_content.rs:35-46 | The `<image>` has exactly six attributes, in the order x, y, width, height, preserveAspectRatio, href, so nothing else (no `rx`, no `fill`) is carried over from the rect |
| Strategies.ImageElementValues | src/generator/strategies/image_content.rs:36-39 | The four geometry values, escaped on write, unescape to the rect's values as read |
| Strategies.ImageElementFixedValues | src/generator/strategies/image_content.rs:42-46 | The aspect ratio is written as `xMidYMid meet` and the href as the data URI, both unaltered by escaping |
| Strategies.ImageContentReplace | src/generator/strategies/image_content.rs:19-54 | The first of x, y, width, height that is missing or not UTF-8 gives its error, with nothing written; otherwise exactly one self-closing `<image>` is written |
| Strategies.PlainGeometryCopiedVerbatim | src/generator/strategies/image_content.rs:36-39 | Geometry free of special characters is copied character for character |
| Engine.NewState | src/generator/svg.rs:47 | The engine starts neither skipping nor awaiting, holding exactly the given maps |
| Engine.TryStartImageReplacement | src/generator/events/replacements/image.rs:55-63 | It answers true iff the id is a key of the image map, even one mapped to removal, and then marks that id as awaited; otherwise the state is unchanged |
| Engine.HandleRectForImageReplacement | src/generator/events/replacements/image.rs:12-31 | It writes exactly one image iff the awaited id maps to bytes, namely what the image strategy makes of the rect, and nothing when the entry is absent or removal. On success the marker is cleared and the depth rises by one, so the rest of the group is skipped; a strategy error is returned as it is |
| Engine.HandleElementInsideImageGroup | src/generator/events/replacements/image.rs:37-49 | A rect (by exact name) triggers the rect handler; any other element writes nothing and changes nothing |
| Engine.StartOutsideGroups | src/generator/events/handlers/start.rs:26-45 | An image id wins over a text id, and the group's start tag is not written. A text id writes the replacement and starts skipping. An element with no id, or one neither map holds, is written and the state is kept |
| Engine.HandleStart | src/generator/events/handlers/start.rs:10-46 | While skipping, it deepens by one and writes nothing. While awaiting, it delegates to the group handler, which never writes the element verbatim. Otherwise it acts by the element's id, and never fails outside a group |
| Engine.HandleEmpty | src/generator/events/handlers/empty.rs:8-27 | While skipping, it writes nothing and keeps the depth. While awaiting, it delegates, so a self-closing rect triggers the image. Otherwise it writes the element unchanged, with no text replacement. It never lowers the depth |
| Engine.HandleEnd | src/generator/handlers/end.rs:8-25 | While skipping, it lowers the depth by exactly one and writes nothing. Otherwise it writes the end tag unchanged and keeps the state. Nothing else in the state changes |
| Engine.HandleDefault | src/generator/events/handlers/default.rs:8-19 | A non-element event is written unchanged iff the depth is 0, even inside an awaited group; the state is not touched |
| Engine.TextReplacements | src/generator/svg.rs:24-28 | Exactly the keys ogis_title, ogis_description and ogis_subtitle, each bound to its argument |
| Engine.ImageReplacements | src/generator/svg.rs:42-45 | Always both keys ogis_logo and ogis_image; an absent image maps to removal |
| Engine.ToReplacement | src/generator/svg.rs:31-38 | A present image keeps its bytes and type; an absent one stays absent |
| Engine.Dispatch | src/generator/svg.rs:52-56 | The per-event dispatch to the four handlers; its meaning is stated by EngineProps.DispatchPreservesValid and EngineProps.HandlerErrorAborts |
| Engine.Drive | src/generator/svg.rs:50-60 | The driver loop; its meaning is stated by EngineProps.DriveAppend, EngineProps.DriveIgnoresAfterEof, EngineProps.ParseErrorAborts and EngineProps.DrivePreservesValid |
| Engine.GenerateSvg | src/generator/svg.rs:11-63 | The live generator; its meaning is stated by EngineProps.GenerateUnmarkedTemplate, EngineProps.GenerateReplacesTitle and EngineProps.GenerateRemovesMissingLogo |
| EngineProps.DispatchPreservesValid | src/generator/svg.rs:50-58 | Each dispatched step keeps the maps and the invariant: an awaited group is an image id, met with nothing skipped |
| EngineProps.DrivePreservesValid | src/generator/svg.rs:50-60 | The same invariant holds across the whole run |
| EngineProps.DriveIgnoresAfterEof | src/generator/svg.rs:52 | The loop stops at the end of the document; nothing after it is read |
| EngineProps.DriveAppend | src/generator/svg.rs:50-60 | Two stretches of events run one after the other from the state the first leaves, with their outputs joined |
| EngineProps.ParseErrorAborts | src/generator/svg.rs:57 | A parse error gives `Err("Parse error: " + message)` and discards everything written so far |
| EngineProps.HandlerErrorAborts | src/generator/svg.rs:53-56 | A handler error aborts the run the same way, with the handler's error |
| EngineProps.CleanPassThrough | src/generator/svg.rs:19 | Events selecting no replacement, whitespace text included, are written back unchanged, and the state is unchanged |
| EngineProps.SkipsSubtree | src/generator/handlers/end.rs:14-17 | While skipping, nothing is written; each start deepens the skip and each end undoes one level, so a skipped start and its end restore the depth |
| EngineProps.TextGroupReplaced | src/generator/events/handlers/start.rs:36-39 | A text-mapped element and its whole subtree become the three replacement events, and the state returns to what it was |
| EngineProps.ContentWritten | src/generator/events/handlers/default.rs:14 | Text and other content are written whenever nothing is skipped, also inside a group awaiting its rect |
| EngineProps.AwaitingWrites | src/generator/events/replacements/image.rs:37-49 | While the rect is awaited, any stretch without a rect leaves the state as it is; its start and self-closing tags are dropped, and its end tags, text and other content are written |
| EngineProps.ImageGroupReplaced | src/generator/events/replacements/image.rs:12-49 | A marked group loses its start tag. Before the rect, every child loses its start or self-closing tag, but its text and end tag are written. The rect becomes the image or nothing, and the rest of the group, end tag included, is dropped |
| EngineProps.OpenRectLeaksGroupEnd | src/generator/events/replacements/image.rs:43-48 | A non-self-closing `<rect></rect>` in a group marked for removal: the rect's end closes the skip, so the group's end tag is written although its start tag was not |
| EngineProps.GenerateUnmarkedTemplate | src/generator/svg.rs:11-63 | A template whose start tags carry none of the five ids is written back event for event |
| EngineProps.GenerateReplacesTitle | src/generator/svg.rs:24-28 | The ogis_title element and its children become the title text node |
| EngineProps.GenerateRemovesMissingLogo | src/generator/svg.rs:42-45 | With no logo, the ogis_logo group writes only the end tags and content of its children before the rect, and nothing from the rect on |
| EngineProps.TagOnlyLogoGroupVanishes | src/generator/svg.rs:42-45 | With no logo and only tags before the rect, the ogis_logo group disappears entirely |
| EngineProps.NonRectChildLeaksEndTag | src/generator/events/replacements/image.rs:47-48 | With no logo, a `<title>T</title>` before the rect in the logo group comes out as the text `T` and a `</title>` with no start tag |
| EngineProps.RectlessGroupMarkerLeaks | src/generator/events/replacements/image.rs:26-28 | With a logo and no image, a logo group without a rect followed by the image group writes the logo group's text and its `</g>`, then the logo drawn in the image group's rect, or the strategy's error; the image group itself, mapped to removal, is gone |
| EngineCorrected.HandleStartCorrected | src/generator/events/replacements/image.rs:47-48 | A non-rect element met while a rect is awaited writes nothing and opens a skip; every other start is handled as the live handler does |
| EngineCorrected.CorrectedDropsNonRectChild | src/generator/events/replacements/image.rs:47-48 | Under the corrected handler, a non-rect child of an awaited group and its whole subtree leave no output and the state unchanged |
| EngineCorrected.CorrectedRemovesWholeGroup | src/generator/events/replacements/image.rs:24 | Under the corrected handler, the removed group with a `<title>` before its rect writes nothing at all |
| EngineCorrected.HandleEndCorrected | src/generator/events/replacements/image.rs:24-28 | An end tag met while a rect is awaited and nothing is skipped closes the awaited group: it writes nothing and clears the awaited id. Elsewhere it is the written handler, so after an end tag an id is still awaited only if it was awaited under a skip |
| EngineCorrected.CorrectedRectlessGroupVanishes | src/generator/events/replacements/image.rs:24 | Under the corrected handlers, a marked group with no rect around a non-rect child writes nothing, and the next event meets the state the group was opened in |
| EngineCorrected.CorrectedRectlessLogoContained | src/generator/events/replacements/image.rs:24 | Under the corrected handlers, the input that leaks the logo writes only the logo group's direct text: no image, no end tag without its start tag, and the state is as before |
| MiddleGen.NewContext | src/generator/events/state.rs:12-26 | The context stores all five fields unchanged |
| MiddleGen.NewEventsState | src/generator/events/state.rs:41-46 | The middle-generation state starts with depth 0 and the given context |
| MiddleGen.HandleStart | src/generator/events/start.rs:10-38 | While skipping, it deepens by one. An element with an id always starts skipping, because `is_ok` holds whenever the writer works; only a mapped id writes anything. An element with no id is written unchanged |
| MiddleGen.AsWrittenDropsUnmapped | src/generator/events/start.rs:24 | An element whose id no map holds is dropped by the handler as written and kept by the corrected one |
| MiddleGen.HandleStartCorrected | src/generator/events/start.rs:22-35 | Only a mapped id starts skipping and writes the replacement; an unmapped id or no id writes the element unchanged |
| MiddleGen.CorrectedAgreesWithLive | src/generator/events/handlers/start.rs:27-45 | On any element that is not an image id, the corrected handler and the live one write the same events and reach the same depth |
| MiddleGen.HandleEmpty | src/generator/events/empty.rs:10-36 | It never changes the state. While skipping, it writes nothing; a text-mapped id expands to start, text, end; anything else is written unchanged |
| MiddleGen.EmptyExpansionKeepsElement | src/generator/events/empty.rs:21-26 | The expansion keeps the element's name and attributes, and its text reads back as the mapped string |
| MiddleGen.HandleDefault | src/generator/events/default.rs:7-20 | The event itself is written iff not skipping |
| MiddleGen.DefaultAgreesWithLive | src/generator/events/default.rs:13-17 | The middle and live default handlers write the same thing at the same depth |
| Scaffold.ShouldReplaceElement | src/generator/handlers/start.rs:37-43 | True iff some readable `id` attribute is exactly logo, title or description |
| Scaffold.LaterIdCounts | src/generator/handlers/empty.rs:33-39 | A target id after other attributes triggers the replacement |
| Scaffold.WriteReplacement | src/generator/handlers/start.rs:54-68 | The replacement is the constant `<g id="replaced"/>`, whatever the original was |
| Scaffold.HandleStart | src/generator/handlers/start.rs:8-34 | While skipping, it deepens and writes nothing. A target writes the placeholder and starts skipping; any other element is written unchanged |
| Scaffold.HandleEmpty | src/generator/handlers/empty.rs:8-30 | It never changes the depth. While skipping, it writes nothing; a target writes the placeholder; anything else is written unchanged |
| Scaffold.ReplacedThenClosed | src/generator/handlers/start.rs:20-25 | A replaced element closed at once writes only the placeholder and restores the state |
| Placeholder.ReplaceAll | src/generator.rs:9-10 | `str::replace`; its meaning is stated by Placeholder.ReplaceAbsent, Placeholder.ReplaceLeftmost and Placeholder.ReplaceBySelf |
| Placeholder.GenerateSvg | src/generator.rs:7-11 | The placeholder generator; its meaning is stated by Placeholder.GenerateWithoutPlaceholders, Placeholder.GenerateEscapesTitle and Placeholder.TitleMayIntroduceDescription |
| Placeholder.ReplaceAbsent | src/generator.rs:7-11 | A text in which the pattern does not occur is returned unchanged |
| Placeholder.ReplaceLeftmost | src/generator.rs:9 | The leftmost occurrence is replaced, the text before it is copied, and the search resumes after it |
| Placeholder.ReplaceBySelf | src/generator.rs:9-10 | Replacing a pattern by itself changes nothing |
| Placeholder.GenerateWithoutPlaceholders | src/generator.rs:7-11 | A template containing neither placeholder is returned as it is |
| Placeholder.TitleMayIntroduceDescription | src/generator.rs:8-10 | The description substitution also rewrites placeholders the title inserted |
| Placeholder.GenerateEscapesTitle | src/generator.rs:9 | The title is inserted escaped where its placeholder was |
| Decimal.NatToString | src/routes/og.rs:77-78 | The decimal form is non-empty, all digits, and has no leading zero |
| Decimal.ParseNatToString | src/routes/og.rs:77-78 | Reading the decimal form back gives the number |
| OgRoute.FromQuery | src/routes/og.rs:8-34 | Each missing field takes its own default: "Open Graph Image", "Generated with OGIS", 1200 and 630 |
| OgRoute.QueryRoundTrip | src/routes/og.rs:8-34 | A query naming every field gives back exactly those values, and the empty query gives exactly the four defaults |
| OgRoute.DefaultsArePlain | src/routes/og.rs:20-26 | The default texts need no escaping |
| OgRoute.GenerateSvg | src/routes/og.rs:66-82 | The route's fixed layout; where each argument lands is stated by OgRoute.WidthEmbedded, OgRoute.HeightEmbedded, OgRoute.TitleEmbedded and OgRoute.DescriptionEmbedded |
| OgRoute.WidthEmbedded | src/routes/og.rs:68-77 | The width appears in decimal right after the opening `<svg width="`, and reads back as the width |
| OgRoute.HeightEmbedded | src/routes/og.rs:68-78 | The height appears in decimal right after `" height="`, preceded by exactly the opening and the width, and reads back as the height |
| OgRoute.TitleEmbedded | src/routes/og.rs:74-79 | The escaped title sits right after the fixed head, inside the first `<text>`; it is followed by exactly the middle, the escaped description and the close, and unescapes to the title |
| OgRoute.DescriptionEmbedded | src/routes/og.rs:75-80 | The escaped description sits right after the middle, inside the second `<text>`; the document ends with exactly the close after it, and it unescapes to the description |
| OgRoute.MarkupIndependentOfTexts | src/routes/og.rs:66-90 | For each of `<`, `>`, `"`, `'`, the document holds exactly as many as the fixed layout, whatever the title and description |
| Resolver.CheckAll | src/image/resolver.rs:39-60 | Ok iff every address is global, and then the addresses in order with port 0; otherwise the first non-global address is refused |
| Resolver.Resolve | src/image/resolver.rs:26-74 | Ok iff the lookup succeeds, is non-empty and every address is global. A lookup failure gives LookupError, a private address PermissionDenied for the first one, an empty answer NotFound. On success the same count and order, port 0 |
| Resolver.OnePrivateBlocks | src/image/resolver.rs:40-56 | Fail closed: one private address anywhere blocks the name, whatever the others are |
| Resolver.ResolvedAreGlobal | src/image/resolver.rs:59-72 | Every address handed on comes from the answer, is global and has port 0 |
| ImageParse.ParseUrl | src/image/parse.rs:14-45 | Ok iff the text parses, the scheme is http or https, and the host's text does not parse as a non-global address. The errors are, in that order, "Failed to parse URL: ", "Only http/https schemes allowed, got: ", and a private-IP block. On success the original text is kept exactly |
| ImageParse.SchemeCheckedFirst | src/image/parse.rs:16-36 | A bad scheme with a private literal host reports InvalidUrl |
| ImageParse.NamesPassUnresolved | src/image/parse.rs:37-39 | A host name passes with no lookup, whatever the address test says |
| ImageParse.BracketedLiteralPasses | src/image/parse.rs:28-29 | `http://[::1]/` passes as written, because the host text keeps its brackets and so is not an address; the corrected check blocks it |
| ImageParse.ParseUrlCorrected | src/image/parse.rs:27-39 | Ok iff the written check passes and the host the client connects to is not a non-global literal; otherwise the same error, or a private-IP block for that literal |
| ImageParse.CorrectedAgreesWhenTextAgrees | src/image/parse.rs:27-39 | Wherever the host's text reads as the host, the corrected check is the written one |
| ImageFetch.FoldMeaning | src/image/fetch.rs:51-73 | The fold succeeds iff every chunk is data and the total fits, giving the in-order concatenation. Otherwise it fails at the first chunk that fails to read (Request) or would exceed the bound (TooLarge) |
| ImageFetch.StreamBody | src/image/fetch.rs:54-70 | The loop keeps the accumulator within the bound, equals the fold, and returns the concatenation when every chunk fits |
| ImageFetch.ResolveFailure | src/image/mod.rs:35-42 | Only a host the client sees as a name is resolved, through the global-only resolver, and its refusal stops the request; an address literal is connected to directly, however its text is written |
| ImageFetch.FetchHttp | src/image/fetch.rs:15-79 | Resolver refusal, send failure and non-2xx status each give Request. A declared length over the bound gives TooLarge before the body is read; a body over the bound gives TooLarge while streaming, whatever length was declared. Every TooLarge is the declared length or the first chunk that does not fit, and a failed chunk is reported for the first failed read. Success means all stages passed, and gives the streamed bytes, within the bound, with the original URL |
| ImageFetch.LengthAtBoundAccepted | src/image/fetch.rs:38-48 | A declared length equal to the bound is accepted |
| ImageValidate.ValidateContentType | src/image/validate.rs:5-33 | Ok iff the sniffed type is one of png, jpeg, gif, webp and svg+xml; then the bytes are returned unchanged, and otherwise InvalidContentType |
| ImageValidate.UrlIrrelevant | src/image/validate.rs:5-23 | The verdict depends on the bytes alone; the URL is only logged |
| ImagePipeline.EncodeBase64Bytes | src/image/encode.rs:4-5 | The result decodes to the bytes, has length 4·⌈n/3⌉, and is empty for empty input |
| ImagePipeline.FetchImage | src/image/mod.rs:70-95 | A hit returns the encoding of the cached bytes and runs no stage. Otherwise the first failing stage's error is returned and the cache is unchanged. A success stores the validated raw bytes under the URL, which are exactly the body the server sent, and returns their encoding |
| ImagePipeline.SecondCallHits | src/image/mod.rs:72-75 | After a success, the same URL returns the same text from the cache, whatever the world answers then |
| ImagePipeline.SuccessIsGlobal | src/image/mod.rs:77-84 | When the host's text reads as the host, the first request of a success went to an http(s) URL whose literal host is global, or whose name resolved to at least one address, all global |
| ImagePipeline.PrivateLiteralFetched | src/image/mod.rs:77-84 | As written, `http://[::1]/` is fetched and returned although `::1` is not global; the corrected parse blocks it |
| LegacyFetcher.Precheck | src/image_fetcher.rs:76-136 | Parse and scheme errors as in the staged parser. A host text that parses as a non-global address is blocked. A host text that is not an address is looked up as a name: a DNS failure or empty answer gives Request, and the first private address gives PrivateIpBlocked naming the host |
| LegacyFetcher.Buffer | src/image_fetcher.rs:170-172 | The buffered body is the concatenation iff every chunk is data, else a body-read Request error |
| LegacyFetcher.Download | src/image_fetcher.rs:140-182 | Ok iff the send succeeds with a 2xx status, any declared length fits, and the buffered body fits. A send failure and a non-2xx status give Request; a declared length over the bound gives TooLarge before the body is read; a failed read gives a body-read Request; a body over the bound is TooLarge, whatever length was declared |
| LegacyFetcher.FetchImage | src/image_fetcher.rs:69-215 | A hit returns the stored text verbatim. A failure stores nothing. Otherwise the checks' error, then the download's, then InvalidContentType for bytes outside the MIME allow-list. It succeeds iff all three pass, and then stores exactly the base64 text it returns, which decodes to the downloaded bytes |
| LegacyFetcher.AgreesWithPipeline | src/image_fetcher.rs:69-215 | On an uncached URL whose host text reads as its host, the monolithic and staged fetchers succeed on the same worlds with the same text |
| LegacyFetcher.BracketedLiteralDiverges | src/image_fetcher.rs:89-101 | On `http://[::1]/` the monolithic fetcher looks the bracketed text up as a name and fails with it, while the staged one fetches from the literal |
| LegacyFetcher.PrivateNameReportedDifferently | src/image_fetcher.rs:111-123 | A name resolving to a private address is PrivateIpBlocked in the monolithic fetcher, but a failed request carrying the resolver's refusal in the staged one |
| Params.Utf8Len | src/params.rs:38 | `value.len()`, the UTF-8 byte length; its meaning is stated by Params.Utf8LenBounds and Params.TooManyCharactersRejected |
| Params.Utf8LenBounds | src/params.rs:38 | The byte length is between one and four bytes per character, and equals the character count for ASCII |
| Params.CheckFields | src/params.rs:36-44 | Ok iff every present field fits; otherwise the message names the first field that does not |
| Params.Validate | src/params.rs:28-45 | Ok iff every present field's UTF-8 length is at most the limit, so absent fields never fail. The error names the first failing field in the order Title, Description, Subtitle, Logo URL, with the limit in decimal |
| Params.TooManyCharactersRejected | src/params.rs:37-39 | A title with more characters than the limit is always rejected |
| Params.WithDefaults | src/params.rs:80-99 | The configured defaults only when all four fields are absent; otherwise a missing text is empty and a present one is kept |
| Params.DefaultsOnlyForEmptyRequest | src/params.rs:80-99 | The result depends on the configured defaults iff the request names no parameter at all; a text the request gives is used as given |
| Params.LogoAloneSuppressesDefaults | src/params.rs:81-91 | A logo alone switches the defaults off |
| Params.FetchLogo | src/params.rs:48-77 | No logo gives Ok(None) without fetching, and a success gives Ok(Some(result)). A failure gives Ok(None) under Skip and a 500 response under Error, so only Error can fail |
| Params.LogoIsValidatedImage | src/params.rs:50-54 | With the staged pipeline as the fetcher, a logo handed on decodes to bytes the sniffer accepts and that fit the bound |

## Left out

- Writer errors are not modelled: writing to an in-memory buffer cannot fail, so the write-error branches of every handler are unreachable. The handlers keep their `Result` types.
- The final UTF-8 conversion of the output (src/generator/svg.rs:62) is left out. The output is a sequence of events.
- The tokenizer and the serializer of the XML library are left out; events are data. A lossily decoded attribute value is carried in the event, not computed.
- The template files are not part of this model. Each generator takes its template as a parameter.
- The driver loop is modelled on the handler from src/generator/handlers/end.rs. src/generator/events/end.rs is not part of this model.
- The live start handler calls `apply_text_replacement` (src/generator/events/handlers/start.rs:6, src/generator/events/handlers/start.rs:36), which no source file defines: src/generator/strategies/mod.rs defines only `apply_replacement` and declares only the text strategy, although src/generator/events/replacements/image.rs:6 imports an image strategy. `Engine.StartOutsideGroups` uses `Strategies.ApplyReplacement` in its place, with the text map as its map.
- The live state, with its awaited rect and its text and image maps, is not part of this model: src/generator/events/state.rs:30-38 is the middle generation's state. `Engine.State` is inferred from how the live handlers use its fields and methods.
- The live rect handler passes the image map's entry, which holds bytes and a MIME type (src/generator/svg.rs:31-45), to `image_content::replace`, whose parameter is the bytes alone (src/generator/strategies/image_content.rs:19-23); the two revisions do not fit together. `Engine.HandleRectForImageReplacement` passes the bytes only, so the MIME type is unused and the data URI is always labelled `image/png`.
- Attribute lists are general sequences: the tokenizer reports a repeated key as `Malformed`, so a second readable `id` never reaches the handlers. The lemmas on ids hold with or without such lists.
- Middle generation: the source hands the replacement context to a function that expects a text map, and reads a text map its state does not have. The model passes the text map explicitly.
- `usize` and `u32` overflow are not modelled: the skip depth, byte counts and sizes are unbounded.
- Free-text parts of error messages (library error texts, `Display` of addresses and status codes) are carried as structure, not formatted.
- `allow_http` (src/image/mod.rs:78) is left out: parse.rs takes no such argument and always allows http.
- The request goes to the URL text as given, not to the URL library's serialisation of it.
- Redirects, timeouts, connection reuse, the address the client finally connects to, and async scheduling are left out.
- The cache has no TTL, capacity or eviction, and no concurrency (src/image/cache.rs); it is a plain map.
- IPv6 literal hosts: the URL library writes their text in brackets, which do not parse as an address. The URL parser's verdict says which text and which host a URL has; neither is computed here.
- SuccessIsGlobal: holds for the first request only and only where the host's text reads as the host. Redirects are not modelled, so nothing is said about a redirect target. The bracketed IPv6 literal is the case where the text does not read as the host; it is the Findings row on parse.rs.
- AgreesWithPipeline: holds only where the host's text reads as the host, and both fetchers see the same DNS answers (`World.dns`). The monolithic fetcher's port 443 in its lookup is not modelled. Where the text does not read as the host, the two diverge (`LegacyFetcher.BracketedLiteralDiverges`).
- The monolithic fetcher's system resolver and the staged fetcher's resolver are both the same lookup function `World.dns`.
- Rasterisation to PNG (src/generator.rs:14-42, src/routes/og.rs:92-109) and the HTTP handler around it are left out: floating point and an external renderer.
- Params.FetchLogo: the error response carries the failure, not the formatted text "Failed to fetch logo: …".

## Findings

| source | as written | input that shows it | evidently intended | confidence | as-written member | corrected member |
|---|---|---|---|---|---|---|
| src/generator/events/start.rs:24 | `apply_replacement(...).is_ok()` holds whenever the writer does not fail, so every element with an id starts a skip | `<g id="background">` with no map entry: the element, its children and its end tag are all dropped | only a mapped id starts skipping (the `Ok(true)` case); an unmapped id falls through and is written, as the comment at line 29 says | not executed | MiddleGen.HandleStart, MiddleGen.AsWrittenDropsUnmapped | MiddleGen.HandleStartCorrected, MiddleGen.CorrectedAgreesWithLive |
| src/image/parse.rs:28-29 | the private-literal check parses `host_str()`, which for an IPv6 host is bracketed text that never parses as an address, while the client connects to such a literal without the resolver | `http://[::1]/`: parse passes, no name is resolved, and the loopback address is fetched | every non-global literal host is blocked, as the comment at line 27 says, however its text is written | not executed | ImageParse.BracketedLiteralPasses, ImagePipeline.PrivateLiteralFetched | ImageParse.ParseUrlCorrected, ImageParse.CorrectedAgreesWhenTextAgrees |
| src/generator/events/replacements/image.rs:47-48 | a non-rect child of a group awaiting its rect is "skipped" by returning without starting a skip, so only its start tag is dropped | `<g id="ogis_logo"><title>T</title><rect/></g>` with no logo: the output is `T</title>`, an end tag with no start tag | the child and its subtree are skipped, and a removed group disappears entirely, as the comment at line 24 says | not executed | EngineProps.NonRectChildLeaksEndTag | EngineCorrected.HandleStartCorrected, EngineCorrected.CorrectedDropsNonRectChild, EngineCorrected.CorrectedRemovesWholeGroup |
| src/generator/events/replacements/image.rs:27 | only the rect handler clears `awaiting_rect_for`; a marked group with no rect ends with `handle_end` at depth 0, which writes its `</g>` and leaves the id awaited | `<g id="ogis_logo">L</g><g id="ogis_image"><rect x=".." y=".." width=".." height=".."/></g>` with a logo and no image: the output is `L</g>` followed by the logo in the image group's rect | a group with no rect is dropped at its end tag and its image is drawn nowhere else, as the comment at line 24 says of a group without an image | not executed | EngineProps.RectlessGroupMarkerLeaks | EngineCorrected.HandleEndCorrected, EngineCorrected.CorrectedRectlessGroupVanishes, EngineCorrected.CorrectedRectlessLogoContained |
