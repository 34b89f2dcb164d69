/** The live streaming template rewriter: one forward pass over the
    template's events, each handled by a pure step that passes the event
    through, suppresses it, or replaces it.

    The state holds the skip depth, the id of an image group whose bounding
    `<rect>` is still awaited, the text map (id to replacement text) and the
    image map (id to image, or `None` to remove the group). */
module Engine {
  import opened Wrappers
  import opened Xml
  import opened SkipDepth
  import opened Strategies
  import Base64

  datatype ImageReplacement = ImageReplacement(bytes: seq<Base64.byte>, mimeType: string)

  /** Image bytes that passed content validation, as handed to the engine. */
  datatype ValidatedImage = ValidatedImage(bytes: seq<Base64.byte>, mimeType: string)

  datatype State = State(
    skipDepth: nat,
    awaitingRectFor: Option<string>,
    texts: map<string, string>,
    images: map<string, Option<ImageReplacement>>)

  /** A handler's effect: the next state and the events it wrote. */
  datatype Step = Step(state: State, out: seq<Event>)

  /** Neither skipping nor waiting for a rect. */
  predicate Clean(s: State) {
    s.skipDepth == 0 && s.awaitingRectFor.None?
  }

  /** The three states of the machine exclude each other, and the awaited
      group is always one of the image ids. */
  predicate Valid(s: State) {
    s.awaitingRectFor.Some? ==> s.skipDepth == 0 && s.awaitingRectFor.value in s.images
  }

  predicate SameMaps(s: State, t: State) {
    s.texts == t.texts && s.images == t.images
  }

  function NewState(texts: map<string, string>, images: map<string, Option<ImageReplacement>>): (s: State)
    ensures Clean(s) && Valid(s)
    ensures s.texts == texts && s.images == images
  {
    State(0, None, texts, images)
  }

  predicate IsRectElement(e: Element) {
    e.name == "rect"
  }

  /** Marks the group with this id as awaiting its rect, when the id is a
      key of the image map (whether it maps to an image or to removal). */
  function TryStartImageReplacement(id: string, s: State): (r: (bool, State))
    ensures r.0 <==> id in s.images
    ensures r.0 ==> r.1 == s.(awaitingRectFor := Some(id))
    ensures !r.0 ==> r.1 == s
  {
    if id in s.images then (true, s.(awaitingRectFor := Some(id))) else (false, s)
  }

  /** The awaited group's rect: writes the image if the group maps to one,
      nothing if it maps to removal, then drops the rest of the group. */
  function HandleRectForImageReplacement(rect: Element, s: State): (r: Result<Step, string>)
    requires s.awaitingRectFor.Some?
    ensures var id := s.awaitingRectFor.value;
      var img := if id in s.images then s.images[id] else None;
      // removal writes nothing; an image writes what the strategy makes of the rect, or fails as it does
      && (img.None? ==> r == Ok(Step(s.(awaitingRectFor := None, skipDepth := s.skipDepth + 1), [])))
      && (img.Some? ==> (r.Ok? <==> ImageContentReplace(rect, img.value.bytes).Ok?))
      && (img.Some? && r.Ok? ==> r.value.out == ImageContentReplace(rect, img.value.bytes).value)
      && (img.Some? && r.Err? ==> r.error == ImageContentReplace(rect, img.value.bytes).error)
    // the rest of the group is skipped, from the depth the group was opened at
    ensures r.Ok? ==> r.value.state == s.(awaitingRectFor := None, skipDepth := s.skipDepth + 1)
    ensures r.Ok? ==> (|r.value.out| == 1 <==> (var id := s.awaitingRectFor.value; id in s.images && s.images[id].Some?))
    ensures r.Ok? ==> r.value.state.awaitingRectFor.None? && IsSkipping(r.value.state.skipDepth)
  {
    var id := s.awaitingRectFor.value;
    var written :- if id in s.images && s.images[id].Some?
                   then ImageContentReplace(rect, s.images[id].value.bytes)
                   else Ok([]);
    Ok(Step(s.(awaitingRectFor := None, skipDepth := StartSkip(s.skipDepth)), written))
  }

  /** Any element met while the rect is awaited: the rect triggers the
      replacement; every other element is dropped and changes nothing. */
  function HandleElementInsideImageGroup(e: Element, s: State): (r: Result<Step, string>)
    requires s.awaitingRectFor.Some?
    ensures IsRectElement(e) ==> r == HandleRectForImageReplacement(e, s)
    ensures !IsRectElement(e) ==> r == Ok(Step(s, []))
  {
    if IsRectElement(e) then HandleRectForImageReplacement(e, s) else Ok(Step(s, []))
  }

  /** Whether an element's id selects a replacement in this state. */
  predicate Marked(e: Element, s: State) {
    var id := GetIdFromElement(e);
    id.Some? && (Lossy(id.value) in s.images || Lossy(id.value) in s.texts)
  }

  /** The id-based part of `handle_start`, reached when neither skipping
      nor awaiting: an image id wins over a text id, and an element that
      neither map selects is written unchanged. */
  function StartOutsideGroups(e: Element, s: State): (r: Step)
    ensures SameMaps(s, r.state)
    ensures Marked(e, s) && Lossy(GetIdFromElement(e).value) in s.images ==>
      r == Step(s.(awaitingRectFor := Some(Lossy(GetIdFromElement(e).value))), [])
    ensures Marked(e, s) && Lossy(GetIdFromElement(e).value) !in s.images ==>
      r == Step(s.(skipDepth := s.skipDepth + 1), TextContentReplace(e, s.texts[Lossy(GetIdFromElement(e).value)]))
    ensures !Marked(e, s) ==> r == Step(s, [Start(e)])
  {
    match GetIdFromElement(e)
    case None => Step(s, [Start(e)])
    case Some(id) =>
      var (started, s') := TryStartImageReplacement(Lossy(id), s);
      if started then Step(s', [])
      else
        // The `?` in the source never fires: the writer cannot fail.
        var applied := ApplyReplacement(e, id, s.texts).value;
        if applied.replaced then Step(s.(skipDepth := StartSkip(s.skipDepth)), applied.out)
        else Step(s, [Start(e)])
  }

  /** `handle_start`: skipping first, then the awaited group, then the
      element's id. */
  function HandleStart(e: Element, s: State): (r: Result<Step, string>)
    ensures IsSkipping(s.skipDepth) ==>
      r == Ok(Step(s.(skipDepth := s.skipDepth + 1), []))
    ensures !IsSkipping(s.skipDepth) && s.awaitingRectFor.Some? ==>
      r == HandleElementInsideImageGroup(e, s) && (r.Ok? ==> Start(e) !in r.value.out)
    ensures Clean(s) ==> r == Ok(StartOutsideGroups(e, s))
    ensures s.awaitingRectFor.None? ==> r.Ok?
  {
    if IsSkipping(s.skipDepth) then
      Ok(Step(s.(skipDepth := StartSkip(s.skipDepth)), []))
    else if s.awaitingRectFor.Some? then
      HandleElementInsideImageGroup(e, s)
    else
      Ok(StartOutsideGroups(e, s))
  }

  /** `handle_empty`: no text or image-start replacement applies to a
      self-closing element; only the awaited rect is replaced. */
  function HandleEmpty(e: Element, s: State): (r: Result<Step, string>)
    ensures r.Ok? ==> SameMaps(s, r.value.state)
    ensures IsSkipping(s.skipDepth) ==> r == Ok(Step(s, []))
    ensures !IsSkipping(s.skipDepth) && s.awaitingRectFor.Some? ==> r == HandleElementInsideImageGroup(e, s)
    ensures s.awaitingRectFor.None? ==> r.Ok? && r.value.state == s
    ensures Clean(s) ==> r == Ok(Step(s, [Empty(e)]))
    ensures r.Ok? ==> r.value.state.skipDepth >= s.skipDepth
  {
    if IsSkipping(s.skipDepth) then Ok(Step(s, []))
    else if s.awaitingRectFor.Some? then HandleElementInsideImageGroup(e, s)
    else Ok(Step(s, [Empty(e)]))
  }

  /** `handle_end`: closes one skipped element, or writes the end tag. */
  function HandleEnd(name: string, s: State): (r: Result<Step, string>)
    ensures r.Ok? && r.value.state == s.(skipDepth := r.value.state.skipDepth)
    ensures IsSkipping(s.skipDepth) ==> r.value.out == [] && r.value.state.skipDepth + 1 == s.skipDepth
    ensures !IsSkipping(s.skipDepth) ==> r.value == Step(s, [End(name)])
  {
    if IsSkipping(s.skipDepth) then Ok(Step(s.(skipDepth := EndSkip(s.skipDepth)), []))
    else Ok(Step(s, [End(name)]))
  }

  /** `handle_default` for text, comments and the rest: only the skip depth
      is consulted, so text inside an awaited group is still written.  The
      state is read, never changed. */
  function HandleDefault(ev: Event, s: State): (out: seq<Event>)
    ensures out == [ev] <==> !IsSkipping(s.skipDepth)
    ensures out == [] <==> IsSkipping(s.skipDepth)
  {
    if !IsSkipping(s.skipDepth) then [ev] else []
  }

  /** The dispatch of the driver loop. */
  function Dispatch(ev: Event, s: State): Result<Step, string>
  {
    match ev
    case Start(e) => HandleStart(e, s)
    case Empty(e) => HandleEmpty(e, s)
    case End(name) => HandleEnd(name, s)
    case _ => Ok(Step(s, HandleDefault(ev, s)))
  }

  /** The driver loop: reads until the end of the document, stops at the
      first parse or handler error, and otherwise concatenates what every
      step wrote.  Running out of reads counts as the end of the document. */
  function Drive(input: seq<Read>, s: State): Result<Step, string>
    decreases |input|
  {
    if |input| == 0 then Ok(Step(s, []))
    else match input[0]
      case Eof => Ok(Step(s, []))
      case ParseError(m) => Err("Parse error: " + m)
      case Parsed(ev) =>
        match Dispatch(ev, s)
        case Err(m) => Err(m)
        case Ok(first) => Prepend(first.out, Drive(input[1..], first.state))
  }

  /** Output already written, put in front of what the rest of the run
      yields; an error discards it. */
  function Prepend(out: seq<Event>, r: Result<Step, string>): Result<Step, string>
  {
    match r
    case Err(m) => Err(m)
    case Ok(rest) => Ok(Step(rest.state, out + rest.out))
  }

  /** The text map: exactly the three text ids, each bound to its argument. */
  function TextReplacements(title: string, description: string, subtitle: string): (m: map<string, string>)
    ensures m.Keys == {"ogis_title", "ogis_description", "ogis_subtitle"}
    ensures m["ogis_title"] == title && m["ogis_description"] == description && m["ogis_subtitle"] == subtitle
  {
    map["ogis_title" := title, "ogis_description" := description, "ogis_subtitle" := subtitle]
  }

  function ToReplacement(v: Option<ValidatedImage>): (r: Option<ImageReplacement>)
    ensures r.Some? <==> v.Some?
    ensures v.Some? ==> r.value.bytes == v.value.bytes && r.value.mimeType == v.value.mimeType
  {
    match v
    case None => None
    case Some(img) => Some(ImageReplacement(img.bytes, img.mimeType))
  }

  /** The image map always holds both image ids; an absent image maps to
      `None`, which removes its group instead of passing it through. */
  function ImageReplacements(logo: Option<ValidatedImage>, image: Option<ValidatedImage>): (m: map<string, Option<ImageReplacement>>)
    ensures m.Keys == {"ogis_logo", "ogis_image"}
    ensures m["ogis_logo"] == ToReplacement(logo) && m["ogis_image"] == ToReplacement(image)
  {
    map["ogis_logo" := ToReplacement(logo), "ogis_image" := ToReplacement(image)]
  }

  /** `generate_svg`: rewrites the template's events with the five
      arguments; an error yields no output at all. */
  function GenerateSvg(template: seq<Read>, title: string, description: string, subtitle: string,
                       logo: Option<ValidatedImage>, image: Option<ValidatedImage>): Result<seq<Event>, string>
  {
    var s := NewState(TextReplacements(title, description, subtitle), ImageReplacements(logo, image));
    match Drive(template, s)
    case Err(m) => Err(m)
    case Ok(st) => Ok(st.out)
  }
}
