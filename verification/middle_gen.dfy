/** The middle generation of the template handlers: a skip depth and a
    replacement context, text replacement only, and no image groups.

    The start handler tests the replacement result with `is_ok`, which
    holds whenever the writer does not fail, so every element carrying an
    id is dropped with its subtree whether or not its id is mapped.
    `HandleStart` keeps that behaviour; `HandleStartCorrected` tests the
    reported flag instead and is the one the rest of this module relates
    to the live engine. */
module MiddleGen {
  import opened Wrappers
  import opened Xml
  import opened SkipDepth
  import opened Strategies
  import Engine

  /** The values a replacement may draw on. */
  datatype ReplacementContext = ReplacementContext(
    title: string, description: string, logo: string, subtitle: string,
    logoImageBase64: Option<string>)

  function NewContext(title: string, description: string, logo: string, subtitle: string,
                      logoImageBase64: Option<string>): (c: ReplacementContext)
    ensures c.title == title && c.description == description && c.logo == logo
    ensures c.subtitle == subtitle && c.logoImageBase64 == logoImageBase64
  {
    ReplacementContext(title, description, logo, subtitle, logoImageBase64)
  }

  datatype EventsState = EventsState(skipDepth: nat, context: ReplacementContext)

  function NewEventsState(context: ReplacementContext): (s: EventsState)
    ensures !IsSkipping(s.skipDepth) && s.context == context
  {
    EventsState(0, context)
  }

  datatype MiddleStep = MiddleStep(state: EventsState, out: seq<Event>)

  /** `handle_start` as written.  The text map is an explicit argument: the
      handler hands the replacement context to a function that expects a
      map. */
  function HandleStart(e: Element, texts: map<string, string>, s: EventsState): (r: MiddleStep)
    ensures IsSkipping(s.skipDepth) ==> r == MiddleStep(s.(skipDepth := s.skipDepth + 1), [])
    ensures !IsSkipping(s.skipDepth) && GetIdFromElement(e).Some? ==>
      && r.state == s.(skipDepth := 1)
      && r.out == (if Lossy(GetIdFromElement(e).value) in texts
                   then TextContentReplace(e, texts[Lossy(GetIdFromElement(e).value)]) else [])
    ensures !IsSkipping(s.skipDepth) && GetIdFromElement(e).None? ==> r == MiddleStep(s, [Start(e)])
  {
    if IsSkipping(s.skipDepth) then MiddleStep(s.(skipDepth := StartSkip(s.skipDepth)), [])
    else match GetIdFromElement(e)
      case None => MiddleStep(s, [Start(e)])
      case Some(id) =>
        var applied := ApplyReplacement(e, id, texts);
        if applied.Ok? then MiddleStep(s.(skipDepth := StartSkip(s.skipDepth)), applied.value.out)
        else MiddleStep(s, [Start(e)])
  }

  /** The handler as its comments describe it: an id the map does not hold
      falls through and the element is written as it is. */
  function HandleStartCorrected(e: Element, texts: map<string, string>, s: EventsState): (r: MiddleStep)
    ensures IsSkipping(s.skipDepth) ==> r == MiddleStep(s.(skipDepth := s.skipDepth + 1), [])
    ensures !IsSkipping(s.skipDepth) && GetIdFromElement(e).Some? && Lossy(GetIdFromElement(e).value) in texts ==>
      r == MiddleStep(s.(skipDepth := 1), TextContentReplace(e, texts[Lossy(GetIdFromElement(e).value)]))
    ensures !IsSkipping(s.skipDepth) && (GetIdFromElement(e).None? || Lossy(GetIdFromElement(e).value) !in texts) ==>
      r == MiddleStep(s, [Start(e)])
  {
    if IsSkipping(s.skipDepth) then MiddleStep(s.(skipDepth := StartSkip(s.skipDepth)), [])
    else match GetIdFromElement(e)
      case None => MiddleStep(s, [Start(e)])
      case Some(id) =>
        var applied := ApplyReplacement(e, id, texts).value;
        if applied.replaced then MiddleStep(s.(skipDepth := StartSkip(s.skipDepth)), applied.out)
        else MiddleStep(s, [Start(e)])
  }

  /** As written, an element whose id no map holds is not written, and the
      skip it starts swallows its children and its end tag. */
  lemma AsWrittenDropsUnmapped(ctx: ReplacementContext)
    ensures var e := Element("g", [Attr("id", Utf8("background"))]);
      var s := NewEventsState(ctx);
      && HandleStart(e, map[], s) == MiddleStep(s.(skipDepth := 1), [])
      && HandleStartCorrected(e, map[], s) == MiddleStep(s, [Start(e)])
  {
    var e := Element("g", [Attr("id", Utf8("background"))]);
    assert GetIdFromElement(e) == Some(Utf8("background")) by {
      FirstIdWins([], Utf8("background"), []);
      assert [] + [Attr("id", Utf8("background"))] + [] == e.attrs;
    }
  }

  /** The corrected handler makes the same decision as the live one on
      every element whose id is not an image id, and the same output. */
  lemma CorrectedAgreesWithLive(e: Element, live: Engine.State)
    requires live.awaitingRectFor.None?
    requires GetIdFromElement(e).None? || Lossy(GetIdFromElement(e).value) !in live.images
    ensures var mid := EventsState(live.skipDepth, NewContext("", "", "", "", None));
      var m := HandleStartCorrected(e, live.texts, mid);
      var l := Engine.HandleStart(e, live);
      && l.Ok? && l.value.out == m.out && l.value.state.skipDepth == m.state.skipDepth
  {
  }

  /** `handle_empty`: a self-closing element with a mapped id is expanded
      to start tag, text and end tag; the skip depth is never touched. */
  function HandleEmpty(e: Element, texts: map<string, string>, s: EventsState): (r: Result<MiddleStep, string>)
    ensures r.Ok? && r.value.state == s
    ensures IsSkipping(s.skipDepth) ==> r.value.out == []
    ensures !IsSkipping(s.skipDepth) && GetIdFromElement(e).Some? && Lossy(GetIdFromElement(e).value) in texts ==>
      r.value.out == TextContentReplace(e, texts[Lossy(GetIdFromElement(e).value)])
    ensures !IsSkipping(s.skipDepth) && (GetIdFromElement(e).None? || Lossy(GetIdFromElement(e).value) !in texts) ==>
      r.value.out == [Empty(e)]
  {
    if IsSkipping(s.skipDepth) then Ok(MiddleStep(s, []))
    else match GetIdFromElement(e)
      case None => Ok(MiddleStep(s, [Empty(e)]))
      case Some(id) =>
        // The `?` in the source never fires: the writer cannot fail.
        var applied := ApplyReplacement(e, id, texts).value;
        if applied.replaced then Ok(MiddleStep(s, applied.out))
        else Ok(MiddleStep(s, [Empty(e)]))
  }

  /** An expanded self-closing element keeps its name and attributes, and
      its text reads back as the mapped string. */
  lemma EmptyExpansionKeepsElement(e: Element, texts: map<string, string>, s: EventsState)
    requires !IsSkipping(s.skipDepth) && GetIdFromElement(e).Some? && Lossy(GetIdFromElement(e).value) in texts
    ensures var out := HandleEmpty(e, texts, s).value.out;
      && |out| == 3 && out[0] == Start(e) && out[2] == End(e.name)
      && out[1].Text? && XmlEscape.Unescape(out[1].raw) == texts[Lossy(GetIdFromElement(e).value)]
  {
  }

  /** `handle_default`: the event itself, exactly when nothing is skipped. */
  function HandleDefault(ev: Event, s: EventsState): (out: seq<Event>)
    ensures out == [ev] <==> !IsSkipping(s.skipDepth)
    ensures out == [] <==> IsSkipping(s.skipDepth)
  {
    if !IsSkipping(s.skipDepth) then [ev] else []
  }

  /** The middle generation's default handler and the live one write the
      same thing at the same depth. */
  lemma DefaultAgreesWithLive(ev: Event, s: EventsState, live: Engine.State)
    requires live.skipDepth == s.skipDepth
    ensures HandleDefault(ev, s) == Engine.HandleDefault(ev, live)
  {
  }
}
