/** The live rewriter with the start and end handlers its comments
    describe: an element other than the rect met while the rect is awaited
    is skipped with its whole subtree, instead of losing only its start
    tag, and the end of a group whose rect never came drops the group and
    clears the awaited id.  Every other event is handled as before. */
module EngineCorrected {
  import opened Wrappers
  import opened Xml
  import opened SkipDepth
  import opened Engine
  import opened EngineProps

  /** `handle_start` with the non-rect child skipped. */
  function HandleStartCorrected(e: Element, s: State): (r: Result<Step, string>)
    // a non-rect child of an awaited group writes nothing and opens a skip
    ensures !IsSkipping(s.skipDepth) && s.awaitingRectFor.Some? && !IsRectElement(e) ==>
      r == Ok(Step(s.(skipDepth := s.skipDepth + 1), []))
    // everywhere else it is the written handler
    ensures !(!IsSkipping(s.skipDepth) && s.awaitingRectFor.Some? && !IsRectElement(e)) ==>
      r == HandleStart(e, s)
  {
    if !IsSkipping(s.skipDepth) && s.awaitingRectFor.Some? && !IsRectElement(e) then
      Ok(Step(s.(skipDepth := StartSkip(s.skipDepth)), []))
    else HandleStart(e, s)
  }

  /** `handle_end` that also closes an awaited group with no rect.  Under
      the corrected start handler every child of an awaited group is
      skipped, so an end tag met while awaiting at depth 0 is the group's
      own: the group is dropped and the awaited id is cleared. */
  function HandleEndCorrected(name: string, s: State): (r: Result<Step, string>)
    ensures !IsSkipping(s.skipDepth) && s.awaitingRectFor.Some? ==>
      r == Ok(Step(s.(awaitingRectFor := None), []))
    ensures !(!IsSkipping(s.skipDepth) && s.awaitingRectFor.Some?) ==> r == HandleEnd(name, s)
    // no end tag leaves an id awaited
    ensures r.Ok? && r.value.state.awaitingRectFor.None? == (s.awaitingRectFor.None? || !IsSkipping(s.skipDepth))
  {
    if !IsSkipping(s.skipDepth) && s.awaitingRectFor.Some? then Ok(Step(s.(awaitingRectFor := None), []))
    else HandleEnd(name, s)
  }

  function DispatchCorrected(ev: Event, s: State): Result<Step, string>
  {
    match ev
    case Start(e) => HandleStartCorrected(e, s)
    case End(name) => HandleEndCorrected(name, s)
    case _ => Dispatch(ev, s)
  }

  /** The driver loop of `Engine.Drive` over the corrected dispatch. */
  function DriveCorrected(input: seq<Read>, s: State): Result<Step, string>
    decreases |input|
  {
    if |input| == 0 then Ok(Step(s, []))
    else match input[0]
      case Eof => Ok(Step(s, []))
      case ParseError(m) => Err("Parse error: " + m)
      case Parsed(ev) =>
        match DispatchCorrected(ev, s)
        case Err(m) => Err(m)
        case Ok(first) => Prepend(first.out, DriveCorrected(input[1..], first.state))
  }

  lemma PrependEmpty(r: Result<Step, string>)
    ensures Prepend([], r) == r
  {
    if r.Ok? {
      assert [] + r.value.out == r.value.out;
    }
  }

  /** While skipping, a stretch that never closes the skip writes nothing
      and only moves the depth by its net nesting. */
  lemma {:induction false} CorrectedSkips(evs: seq<Event>, rest: seq<Read>, t: State)
    requires StaysInside(evs, t.skipDepth)
    ensures t.skipDepth + Net(evs) >= 0
    ensures DriveCorrected(Wrap(evs) + rest, t) == DriveCorrected(rest, t.(skipDepth := t.skipDepth + Net(evs)))
    decreases |evs|
  {
    if |evs| == 0 {
      assert Wrap(evs) + rest == rest;
      assert t.(skipDepth := t.skipDepth + Net(evs)) == t;
    } else {
      assert evs[..0] == [];
      var all := Wrap(evs) + rest;
      assert all[0] == Parsed(evs[0]);
      assert all[1..] == Wrap(evs[1..]) + rest;
      var d := t.skipDepth + Delta(evs[0]);
      assert d >= 0;
      var t1 := t.(skipDepth := d);
      assert DispatchCorrected(evs[0], t) == Ok(Step(t1, []));
      StaysInsideTail(evs, t.skipDepth);
      CorrectedSkips(evs[1..], rest, t1);
      PrependEmpty(DriveCorrected(all[1..], t1));
    }
  }

  /** A non-rect child of an awaited group leaves nothing behind: not its
      start tag, text or end tag, and the state is as before. */
  lemma CorrectedDropsNonRectChild(c: Element, inner: seq<Event>, rest: seq<Read>, s: State)
    requires !IsSkipping(s.skipDepth) && s.awaitingRectFor.Some? && !IsRectElement(c)
    requires StaysInside(inner, 1) && 1 + Net(inner) == 0
    ensures DriveCorrected(Wrap([Start(c)] + inner) + rest, s) == DriveCorrected(rest, s)
  {
    var all := Wrap([Start(c)] + inner) + rest;
    assert all[0] == Parsed(Start(c));
    assert ([Start(c)] + inner)[1..] == inner;
    assert all[1..] == Wrap(inner) + rest;
    var s1 := s.(skipDepth := 1);
    assert DispatchCorrected(Start(c), s) == Ok(Step(s1, []));
    CorrectedSkips(inner, rest, s1);
    assert s1.(skipDepth := 1 + Net(inner)) == s;
    PrependEmpty(DriveCorrected(rest, s));
  }

  /** The written handler leaks `</title>` out of a removed logo group
      (`EngineProps.NonRectChildLeaksEndTag`); the corrected one drops the
      group entirely. */
  lemma CorrectedRemovesWholeGroup(id: string, rect: Element, t: string, s: State)
    requires Clean(s) && id in s.images && s.images[id].None? && IsRectElement(rect)
    ensures DriveCorrected(Wrap([Start(Element("g", [Attr("id", Utf8(id))])), Start(Element("title", [])),
                                 Text(t), End("title"), Empty(rect), End("g")]), s)
            == Ok(Step(s, []))
  {
    var g := Element("g", [Attr("id", Utf8(id))]);
    var c := Element("title", []);
    assert GetIdFromElement(g) == Some(Utf8(id)) by {
      FirstIdWins([], Utf8(id), []);
      assert [] + [Attr("id", Utf8(id))] + [] == g.attrs;
    }
    var s1 := s.(awaitingRectFor := Some(id));
    var s2 := s.(skipDepth := 1);
    var inner := [Text(t), End("title")];
    assert inner[..0] == [] && inner[..1] == [Text(t)];
    assert inner[1..] == [End("title")] && inner[1..][1..] == [];
    assert Net(inner[1..][1..]) == 0;
    assert Net(inner[1..]) == Delta(End("title")) + Net(inner[1..][1..]) == -1;
    assert Net(inner) == Delta(Text(t)) + Net(inner[1..]) == -1;
    assert Net(inner[..1]) == Delta(Text(t)) + Net(inner[..1][1..]) == 0;
    assert StaysInside(inner, 1);
    var tail := Wrap([Empty(rect), End("g")]);
    var w := Wrap([Start(g), Start(c), Text(t), End("title"), Empty(rect), End("g")]);
    assert w[1..] == Wrap([Start(c)] + inner) + tail;
    CorrectedDropsNonRectChild(c, inner, tail, s1);
    assert DispatchCorrected(Start(g), s) == Ok(Step(s1, []));
    assert DispatchCorrected(Empty(rect), s1) == Ok(Step(s2, []));
    assert DispatchCorrected(End("g"), s2) == Ok(Step(s, []));
    assert tail[1..][1..] == [];
    PrependEmpty(DriveCorrected(tail[1..][1..], s));
    PrependEmpty(DriveCorrected(tail[1..], s));
    assert DriveCorrected(tail[1..], s2) == Ok(Step(s, []));
    PrependEmpty(DriveCorrected(tail[1..], s2));
    assert DriveCorrected(tail, s1) == Ok(Step(s, []));
    PrependEmpty(DriveCorrected(w[1..], s1));
  }

  /** A marked group with no rect, holding one child that is not a rect,
      leaves nothing behind under the corrected handlers, and the next
      event meets the state the group was opened in. */
  lemma CorrectedRectlessGroupVanishes(g: Element, c: Element, inner: seq<Event>, n: string,
                                       rest: seq<Read>, s: State)
    requires Clean(s) && GetIdFromElement(g).Some? && Lossy(GetIdFromElement(g).value) in s.images
    requires !IsRectElement(c)
    requires StaysInside(inner, 1) && 1 + Net(inner) == 0
    ensures DriveCorrected(Wrap([Start(g), Start(c)] + inner + [End(n)]) + rest, s) == DriveCorrected(rest, s)
  {
    var id := Lossy(GetIdFromElement(g).value);
    var s1 := s.(awaitingRectFor := Some(id));
    assert Marked(g, s);
    assert DispatchCorrected(Start(g), s) == Ok(Step(s1, []));
    var after := Wrap([End(n)]) + rest;
    var all := Wrap([Start(g), Start(c)] + inner + [End(n)]) + rest;
    assert [Start(g), Start(c)] + inner + [End(n)] == [Start(g)] + (([Start(c)] + inner) + [End(n)]);
    WrapAppend([Start(g)], ([Start(c)] + inner) + [End(n)]);
    WrapAppend([Start(c)] + inner, [End(n)]);
    assert all[0] == Parsed(Start(g));
    assert all[1..] == Wrap([Start(c)] + inner) + after;
    CorrectedDropsNonRectChild(c, inner, after, s1);
    assert after[0] == Parsed(End(n)) && after[1..] == rest;
    assert DispatchCorrected(End(n), s1) == Ok(Step(s, []));
    PrependEmpty(DriveCorrected(rest, s));
    PrependEmpty(DriveCorrected(all[1..], s1));
  }

  /** The input of `EngineProps.RectlessGroupMarkerLeaks` under the
      corrected handlers: the rect-less logo group keeps only its direct
      text, which the default handler writes at depth 0; no image is drawn
      in the image group's rect, and no end tag is written without its
      start tag. */
  lemma CorrectedRectlessLogoContained(g1: Element, l: string, g2: Element, rect: Element, logo: ValidatedImage,
                                       title: string, description: string, subtitle: string)
    requires GetIdFromElement(g1) == Some(Utf8("ogis_logo")) && GetIdFromElement(g2) == Some(Utf8("ogis_image"))
    requires !IsRectElement(g2) && IsRectElement(rect)
    ensures var s := NewState(TextReplacements(title, description, subtitle), ImageReplacements(Some(logo), None));
      DriveCorrected(Wrap([Start(g1), Text(l), End("g"), Start(g2), Empty(rect), End("g")]), s)
      == Ok(Step(s, [Text(l)]))
  {
    var s := NewState(TextReplacements(title, description, subtitle), ImageReplacements(Some(logo), None));
    var s1 := s.(awaitingRectFor := Some("ogis_logo"));
    var s3 := s.(awaitingRectFor := Some("ogis_image"));
    var s4 := s.(skipDepth := 1);
    assert Lossy(GetIdFromElement(g1).value) == "ogis_logo" && Lossy(GetIdFromElement(g2).value) == "ogis_image";
    assert s.images["ogis_image"] == None;
    assert Marked(g1, s) && Marked(g2, s);
    assert DispatchCorrected(Start(g1), s) == Ok(Step(s1, []));
    assert DispatchCorrected(Text(l), s1) == Ok(Step(s1, [Text(l)]));
    assert DispatchCorrected(End("g"), s1) == Ok(Step(s, []));
    assert DispatchCorrected(Start(g2), s) == Ok(Step(s3, []));
    assert HandleRectForImageReplacement(rect, s3) == Ok(Step(s4, []));
    assert DispatchCorrected(Empty(rect), s3) == Ok(Step(s4, []));
    assert DispatchCorrected(End("g"), s4) == Ok(Step(s, []));
    var w := Wrap([Start(g1), Text(l), End("g"), Start(g2), Empty(rect), End("g")]);
    assert w[5..][1..] == [];
    assert w[5..][0] == Parsed(End("g"));
    PrependEmpty(DriveCorrected(w[5..][1..], s));
    assert DriveCorrected(w[5..], s4) == Ok(Step(s, []));
    assert w[4..][1..] == w[5..] && w[4..][0] == Parsed(Empty(rect));
    PrependEmpty(DriveCorrected(w[5..], s4));
    assert DriveCorrected(w[4..], s3) == Ok(Step(s, []));
    assert w[3..][1..] == w[4..] && w[3..][0] == Parsed(Start(g2));
    PrependEmpty(DriveCorrected(w[4..], s3));
    assert DriveCorrected(w[3..], s) == Ok(Step(s, []));
    assert w[2..][1..] == w[3..] && w[2..][0] == Parsed(End("g"));
    PrependEmpty(DriveCorrected(w[3..], s));
    assert DriveCorrected(w[2..], s1) == Ok(Step(s, []));
    assert w[1..][1..] == w[2..] && w[1..][0] == Parsed(Text(l));
    assert [Text(l)] + [] == [Text(l)];
    assert DriveCorrected(w[1..], s1) == Ok(Step(s, [Text(l)]));
    assert w[0] == Parsed(Start(g1));
    PrependEmpty(DriveCorrected(w[1..], s1));
  }
}
