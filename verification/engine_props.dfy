/** Properties of the live template rewriter over whole event streams. */
module EngineProps {
  import opened Wrappers
  import opened Xml
  import opened SkipDepth
  import opened Strategies
  import opened Engine

  /** The reader yielding exactly these events. */
  function Wrap(evs: seq<Event>): (r: seq<Read>)
    ensures |r| == |evs|
    ensures forall i :: 0 <= i < |evs| ==> r[i] == Parsed(evs[i])
  {
    if |evs| == 0 then [] else [Parsed(evs[0])] + Wrap(evs[1..])
  }

  lemma WrapAppend(a: seq<Event>, b: seq<Event>)
    ensures Wrap(a + b) == Wrap(a) + Wrap(b)
  {
  }

  predicate AllParsed(input: seq<Read>) {
    forall i :: 0 <= i < |input| ==> input[i].Parsed?
  }

  lemma {:induction false} PrependPrepend(a: seq<Event>, b: seq<Event>, r: Result<Step, string>)
    ensures Prepend(a, Prepend(b, r)) == Prepend(a + b, r)
  {
    if r.Ok? {
      assert a + (b + r.value.out) == (a + b) + r.value.out;
    }
  }

  /** The handlers never touch the maps, and the awaited group is always an
      image id met while nothing was skipped. */
  lemma DispatchPreservesValid(ev: Event, s: State)
    requires Valid(s)
    ensures Dispatch(ev, s).Ok? ==> Valid(Dispatch(ev, s).value.state) && SameMaps(s, Dispatch(ev, s).value.state)
  {
    match ev
    case Start(e) =>
      if !IsSkipping(s.skipDepth) && s.awaitingRectFor.None? {
        var st := StartOutsideGroups(e, s);
        assert SameMaps(s, st.state);
      }
    case _ =>
  }

  lemma {:induction false} DrivePreservesValid(input: seq<Read>, s: State)
    requires Valid(s)
    ensures Drive(input, s).Ok? ==> Valid(Drive(input, s).value.state) && SameMaps(s, Drive(input, s).value.state)
    decreases |input|
  {
    if |input| > 0 && input[0].Parsed? {
      DispatchPreservesValid(input[0].ev, s);
      var d := Dispatch(input[0].ev, s);
      if d.Ok? {
        DrivePreservesValid(input[1..], d.value.state);
      }
    }
  }

  /** Nothing after the end of the document is read. */
  lemma {:induction false} DriveIgnoresAfterEof(a: seq<Read>, b: seq<Read>, s: State)
    ensures Drive(a + [Eof] + b, s) == Drive(a, s)
    decreases |a|
  {
    var all := a + [Eof] + b;
    if |a| == 0 {
      assert all[0] == Eof;
    } else {
      assert all[0] == a[0];
      assert all[1..] == a[1..] + [Eof] + b;
      if a[0].Parsed? {
        var d := Dispatch(a[0].ev, s);
        if d.Ok? {
          DriveIgnoresAfterEof(a[1..], b, d.value.state);
        }
      }
    }
  }

  /** Running two stretches of events is running the first, then the
      second from the state the first left, with the outputs joined. */
  lemma {:induction false} DriveAppend(a: seq<Read>, b: seq<Read>, s: State)
    requires AllParsed(a)
    ensures Drive(a + b, s) == match Drive(a, s)
                               case Err(m) => Err(m)
                               case Ok(x) => Prepend(x.out, Drive(b, x.state))
    decreases |a|
  {
    if |a| == 0 {
      assert a + b == b;
      assert Drive(b, s) == Prepend([], Drive(b, s)) by {
        if Drive(b, s).Ok? { assert [] + Drive(b, s).value.out == Drive(b, s).value.out; }
      }
    } else {
      assert (a + b)[0] == a[0];
      assert (a + b)[1..] == a[1..] + b;
      var d := Dispatch(a[0].ev, s);
      if d.Ok? {
        DriveAppend(a[1..], b, d.value.state);
        var rest := Drive(a[1..], d.value.state);
        if rest.Ok? {
          PrependPrepend(d.value.out, rest.value.out, Drive(b, rest.value.state));
        }
      }
    }
  }

  /** A parse error after a stretch that succeeded aborts the run: the
      result is the error, and the output written so far is discarded. */
  lemma ParseErrorAborts(a: seq<Read>, msg: string, b: seq<Read>, s: State)
    requires AllParsed(a) && Drive(a, s).Ok?
    ensures Drive(a + [ParseError(msg)] + b, s) == Err("Parse error: " + msg)
  {
    assert a + [ParseError(msg)] + b == a + ([ParseError(msg)] + b);
    DriveAppend(a, [ParseError(msg)] + b, s);
  }

  /** A handler error aborts the run the same way. */
  lemma HandlerErrorAborts(a: seq<Read>, ev: Event, b: seq<Read>, s: State)
    requires AllParsed(a) && Drive(a, s).Ok?
    requires Dispatch(ev, Drive(a, s).value.state).Err?
    ensures Drive(a + [Parsed(ev)] + b, s) == Err(Dispatch(ev, Drive(a, s).value.state).error)
  {
    assert a + [Parsed(ev)] + b == a + ([Parsed(ev)] + b);
    DriveAppend(a, [Parsed(ev)] + b, s);
  }

  /** A stream whose start tags select no replacement is written back
      unchanged, whitespace text included, and leaves the state as it was. */
  lemma {:induction false} CleanPassThrough(evs: seq<Event>, s: State)
    requires Clean(s)
    requires forall i :: 0 <= i < |evs| && evs[i].Start? ==> !Marked(evs[i].elem, s)
    ensures Drive(Wrap(evs), s) == Ok(Step(s, evs))
    decreases |evs|
  {
    if |evs| > 0 {
      var w := Wrap(evs);
      assert w[1..] == Wrap(evs[1..]);
      assert Dispatch(evs[0], s) == Ok(Step(s, [evs[0]]));
      CleanPassThrough(evs[1..], s);
      assert [evs[0]] + evs[1..] == evs;
    }
  }

  /** The change of nesting depth an event makes. */
  function Delta(ev: Event): int {
    match ev
    case Start(_) => 1
    case End(_) => -1
    case _ => 0
  }

  /** The net change of nesting depth over a stretch of events. */
  function Net(evs: seq<Event>): int
    decreases |evs|
  {
    if |evs| == 0 then 0 else Delta(evs[0]) + Net(evs[1..])
  }

  /** Starting at depth `d`, the depth stays positive before every event. */
  predicate StaysInside(evs: seq<Event>, d: int) {
    forall k :: 0 <= k < |evs| ==> d + Net(evs[..k]) > 0
  }

  lemma StaysInsideTail(evs: seq<Event>, d: int)
    requires |evs| > 0 && StaysInside(evs, d)
    ensures StaysInside(evs[1..], d + Delta(evs[0]))
  {
    forall k | 0 <= k < |evs| - 1
      ensures d + Delta(evs[0]) + Net(evs[1..][..k]) > 0
    {
      assert evs[..k + 1][1..] == evs[1..][..k];
      assert d + Net(evs[..k + 1]) > 0;
    }
  }

  /** While skipping, nothing is written whatever the events are; each start
      tag deepens the skip and each end tag undoes one level. */
  lemma {:induction false} SkipsSubtree(evs: seq<Event>, s: State)
    requires StaysInside(evs, s.skipDepth)
    ensures Drive(Wrap(evs), s).Ok?
    ensures Drive(Wrap(evs), s).value.out == []
    ensures s.skipDepth + Net(evs) >= 0
    ensures Drive(Wrap(evs), s).value.state.skipDepth == s.skipDepth + Net(evs)
    ensures Drive(Wrap(evs), s).value.state == s.(skipDepth := Drive(Wrap(evs), s).value.state.skipDepth)
    decreases |evs|
  {
    if |evs| > 0 {
      assert evs[..0] == [];
      var w := Wrap(evs);
      assert w[1..] == Wrap(evs[1..]);
      var d := s.skipDepth + Delta(evs[0]);
      assert d >= 0;
      var s1 := s.(skipDepth := d);
      assert Dispatch(evs[0], s) == Ok(Step(s1, []));
      StaysInsideTail(evs, s.skipDepth);
      SkipsSubtree(evs[1..], s1);
    }
  }

  /** A text-mapped element, its children and its end tag become the
      original start tag, the escaped text and the end tag, and the state
      returns to what it was. */
  lemma TextGroupReplaced(e: Element, children: seq<Event>, s: State)
    requires Clean(s) && Marked(e, s) && Lossy(GetIdFromElement(e).value) !in s.images
    requires StaysInside(children, 1) && 1 + Net(children) == 0
    ensures Drive(Wrap([Start(e)] + children), s)
            == Ok(Step(s, TextContentReplace(e, s.texts[Lossy(GetIdFromElement(e).value)])))
  {
    var w := Wrap([Start(e)] + children);
    assert w[0] == Parsed(Start(e));
    assert ([Start(e)] + children)[1..] == children;
    var s1 := s.(skipDepth := 1);
    SkipsSubtree(children, s1);
    var out := TextContentReplace(e, s.texts[Lossy(GetIdFromElement(e).value)]);
    assert out + [] == out;
  }

  /** Content other than elements. */
  predicate IsContent(ev: Event) {
    ev.Text? || ev.Other?
  }

  /** Text and other content are written whenever nothing is skipped, even
      inside a group still awaiting its rect. */
  lemma {:induction false} ContentWritten(content: seq<Event>, rest: seq<Read>, s: State)
    requires !IsSkipping(s.skipDepth)
    requires forall i :: 0 <= i < |content| ==> IsContent(content[i])
    ensures Drive(Wrap(content) + rest, s) == Prepend(content, Drive(rest, s))
    decreases |content|
  {
    if |content| == 0 {
      assert Wrap(content) + rest == rest;
      if Drive(rest, s).Ok? { assert [] + Drive(rest, s).value.out == Drive(rest, s).value.out; }
    } else {
      var all := Wrap(content) + rest;
      assert all[0] == Parsed(content[0]);
      assert all[1..] == Wrap(content[1..]) + rest;
      assert Dispatch(content[0], s) == Ok(Step(s, [content[0]]));
      ContentWritten(content[1..], rest, s);
      PrependPrepend([content[0]], content[1..], Drive(rest, s));
      assert [content[0]] + content[1..] == content;
    }
  }

  /** What the awaited rect leaves behind once its group is closed: the
      image, or nothing for a group mapped to removal. */
  function RectOutcome(rect: Element, img: Option<ImageReplacement>, s: State): Result<Step, string>
  {
    match img
    case None => Ok(Step(s, []))
    case Some(i) =>
      match ImageContentReplace(rect, i.bytes)
      case Err(m) => Err(m)
      case Ok(written) => Ok(Step(s, written))
  }

  /** One turn of the driver loop on a parsed event. */
  lemma DriveHead(input: seq<Read>, s: State)
    requires |input| > 0 && input[0].Parsed?
    ensures Drive(input, s) == match Dispatch(input[0].ev, s)
                               case Err(m) => Err(m)
                               case Ok(first) => Prepend(first.out, Drive(input[1..], first.state))
  {
  }

  /** What the awaited rect does to the state and the output. */
  lemma RectDispatch(rect: Element, id: string, s: State)
    requires Clean(s) && id in s.images && IsRectElement(rect)
    ensures var s1 := s.(awaitingRectFor := Some(id));
      var s2 := s.(skipDepth := 1);
      Dispatch(Empty(rect), s1) == match RectOutcome(rect, s.images[id], s)
                                   case Err(m) => Err(m)
                                   case Ok(x) => Ok(Step(s2, x.out))
  {
    var s1 := s.(awaitingRectFor := Some(id));
    assert Dispatch(Empty(rect), s1) == HandleRectForImageReplacement(rect, s1);
  }

  /** From the awaited rect on: the rect is handled, and the rest of the
      group is skipped back to the state before the group. */
  lemma RectThenRestOfGroup(rect: Element, children: seq<Event>, id: string, s: State)
    requires Clean(s) && id in s.images && IsRectElement(rect)
    requires StaysInside(children, 1) && 1 + Net(children) == 0
    ensures Drive(Wrap([Empty(rect)] + children), s.(awaitingRectFor := Some(id)))
            == RectOutcome(rect, s.images[id], s)
  {
    var s1 := s.(awaitingRectFor := Some(id));
    var tail := Wrap([Empty(rect)] + children);
    assert tail[0] == Parsed(Empty(rect));
    assert ([Empty(rect)] + children)[1..] == children;
    assert tail[1..] == Wrap(children);
    var s2 := s.(skipDepth := 1);
    SkipsSubtree(children, s2);
    assert Drive(Wrap(children), s2) == Ok(Step(s, []));
    DriveHead(tail, s1);
    RectDispatch(rect, id, s);
    var o := RectOutcome(rect, s.images[id], s);
    if o.Ok? {
      assert o.value.state == s;
      assert o.value.out + [] == o.value.out;
    }
  }

  lemma GroupLayout(g: Element, content: seq<Event>, rect: Element, children: seq<Event>)
    ensures var all := Wrap([Start(g)] + content + [Empty(rect)] + children);
      all[0] == Parsed(Start(g)) && all[1..] == Wrap(content) + Wrap([Empty(rect)] + children)
  {
    assert [Start(g)] + content + [Empty(rect)] + children == [Start(g)] + (content + ([Empty(rect)] + children));
    WrapAppend([Start(g)], content + ([Empty(rect)] + children));
    WrapAppend(content, [Empty(rect)] + children);
  }

  /** Neither a start tag nor a self-closing tag of a rect. */
  predicate NoRect(evs: seq<Event>) {
    forall i :: 0 <= i < |evs| && (evs[i].Start? || evs[i].Empty?) ==> !IsRectElement(evs[i].elem)
  }

  /** What a group still awaiting its rect writes of these events: every
      start tag and self-closing tag is dropped, while end tags, text and
      other content are written. */
  function WhileAwaiting(evs: seq<Event>): (out: seq<Event>)
    ensures forall i :: 0 <= i < |out| ==> !out[i].Start? && !out[i].Empty?
    ensures out == [] <==> forall i :: 0 <= i < |evs| ==> evs[i].Start? || evs[i].Empty?
    decreases |evs|
  {
    if |evs| == 0 then []
    else
      var rest := WhileAwaiting(evs[1..]);
      assert forall i :: 1 <= i < |evs| ==> evs[i] == evs[1..][i - 1];
      (if evs[0].Start? || evs[0].Empty? then [] else [evs[0]]) + rest
  }

  /** While a rect is awaited and nothing is skipped, no event other than a
      rect changes the state, and the written part is `WhileAwaiting`'s. */
  lemma {:induction false} AwaitingWrites(evs: seq<Event>, rest: seq<Read>, s: State)
    requires !IsSkipping(s.skipDepth) && s.awaitingRectFor.Some?
    requires NoRect(evs)
    ensures Drive(Wrap(evs) + rest, s) == Prepend(WhileAwaiting(evs), Drive(rest, s))
    decreases |evs|
  {
    if |evs| == 0 {
      assert Wrap(evs) + rest == rest;
      if Drive(rest, s).Ok? { assert [] + Drive(rest, s).value.out == Drive(rest, s).value.out; }
    } else {
      var all := Wrap(evs) + rest;
      assert all[0] == Parsed(evs[0]);
      assert all[1..] == Wrap(evs[1..]) + rest;
      var first := if evs[0].Start? || evs[0].Empty? then [] else [evs[0]];
      assert Dispatch(evs[0], s) == Ok(Step(s, first));
      assert NoRect(evs[1..]) by {
        forall i | 0 <= i < |evs| - 1 && (evs[1..][i].Start? || evs[1..][i].Empty?)
          ensures !IsRectElement(evs[1..][i].elem)
        {
          assert evs[1..][i] == evs[i + 1];
        }
      }
      AwaitingWrites(evs[1..], rest, s);
      PrependPrepend(first, WhileAwaiting(evs[1..]), Drive(rest, s));
    }
  }

  /** An image group: its start tag is dropped; before the rect, every
      child loses its start tag or self-closing tag but keeps its text and
      end tag; the rect becomes the image when the group maps to one, or
      nothing when it maps to removal; everything after the rect up to the
      group's end is dropped. */
  lemma ImageGroupReplaced(g: Element, content: seq<Event>, rect: Element, children: seq<Event>, s: State)
    requires Clean(s) && GetIdFromElement(g).Some? && Lossy(GetIdFromElement(g).value) in s.images
    requires NoRect(content)
    requires IsRectElement(rect)
    requires StaysInside(children, 1) && 1 + Net(children) == 0
    ensures Drive(Wrap([Start(g)] + content + [Empty(rect)] + children), s)
            == Prepend(WhileAwaiting(content), RectOutcome(rect, s.images[Lossy(GetIdFromElement(g).value)], s))
  {
    var id := Lossy(GetIdFromElement(g).value);
    var s1 := s.(awaitingRectFor := Some(id));
    var tail := Wrap([Empty(rect)] + children);
    var all := Wrap([Start(g)] + content + [Empty(rect)] + children);
    GroupLayout(g, content, rect, children);
    assert Marked(g, s);
    assert StartOutsideGroups(g, s) == Step(s1, []);
    assert Dispatch(Start(g), s) == Ok(Step(s1, []));
    DriveHead(all, s);
    assert Drive(all, s) == Prepend([], Drive(Wrap(content) + tail, s1));
    AwaitingWrites(content, tail, s1);
    PrependPrepend([], WhileAwaiting(content), Drive(tail, s1));
    assert [] + WhileAwaiting(content) == WhileAwaiting(content);
    RectThenRestOfGroup(rect, children, id, s);
  }

  /** A group around an open `<rect ...></rect>`: the rect's own end tag
      closes the skip the rect started, so the group's end tag is written
      although its start tag was not. */
  lemma OpenRectLeaksGroupEnd(id: string, s: State)
    requires Clean(s) && id in s.images && s.images[id].None?
    ensures Drive(Wrap([Start(Element("g", [Attr("id", Utf8(id))])), Start(Element("rect", [])),
                        End("rect"), End("g")]), s)
            == Ok(Step(s, [End("g")]))
  {
    var g := Element("g", [Attr("id", Utf8(id))]);
    var rect := Element("rect", []);
    var evs := [Start(g), Start(rect), End("rect"), End("g")];
    assert GetIdFromElement(g) == Some(Utf8(id)) by {
      FirstIdWins([], Utf8(id), []);
      assert [] + [Attr("id", Utf8(id))] + [] == g.attrs;
    }
    var s1 := s.(awaitingRectFor := Some(id));
    var s2 := s.(skipDepth := 1);
    assert Dispatch(Start(g), s) == Ok(Step(s1, []));
    assert Dispatch(Start(rect), s1) == Ok(Step(s2, []));
    assert Dispatch(End("rect"), s2) == Ok(Step(s, []));
    assert Dispatch(End("g"), s) == Ok(Step(s, [End("g")]));
    var w := Wrap(evs);
    assert w[3..] == [Parsed(End("g"))];
    assert w[3..][1..] == [];
    assert [End("g")] + [] == [End("g")];
    assert [] + [End("g")] == [End("g")];
    DriveHead(w[3..], s);
    assert Drive(w[3..], s) == Ok(Step(s, [End("g")]));
    assert w[2..][1..] == w[3..];
    assert w[2..][0] == Parsed(End("rect"));
    DriveHead(w[2..], s2);
    assert Drive(w[2..], s2) == Ok(Step(s, [End("g")]));
    assert w[1..][1..] == w[2..];
    assert w[1..][0] == Parsed(Start(rect));
    DriveHead(w[1..], s1);
    assert Drive(w[1..], s1) == Ok(Step(s, [End("g")]));
    DriveHead(w, s);
    assert w[0] == Parsed(Start(g));
  }

  const TemplateIds: set<string> := {"ogis_title", "ogis_description", "ogis_subtitle", "ogis_logo", "ogis_image"}

  /** A template none of whose start tags carries one of the five ids is
      written back event for event, up to the end of the document. */
  lemma GenerateUnmarkedTemplate(evs: seq<Event>, rest: seq<Read>, title: string, description: string,
                                 subtitle: string, logo: Option<ValidatedImage>, image: Option<ValidatedImage>)
    requires forall i :: 0 <= i < |evs| && evs[i].Start? && GetIdFromElement(evs[i].elem).Some?
               ==> Lossy(GetIdFromElement(evs[i].elem).value) !in TemplateIds
    ensures GenerateSvg(Wrap(evs) + [Eof] + rest, title, description, subtitle, logo, image) == Ok(evs)
  {
    var s := NewState(TextReplacements(title, description, subtitle), ImageReplacements(logo, image));
    DriveIgnoresAfterEof(Wrap(evs), rest, s);
    CleanPassThrough(evs, s);
  }

  /** In a generated image, the title group is the title text. */
  lemma GenerateReplacesTitle(e: Element, children: seq<Event>, title: string, description: string,
                              subtitle: string, logo: Option<ValidatedImage>, image: Option<ValidatedImage>)
    requires GetIdFromElement(e) == Some(Utf8("ogis_title"))
    requires StaysInside(children, 1) && 1 + Net(children) == 0
    ensures GenerateSvg(Wrap([Start(e)] + children) + [Eof], title, description, subtitle, logo, image)
            == Ok(TextContentReplace(e, title))
  {
    var s := NewState(TextReplacements(title, description, subtitle), ImageReplacements(logo, image));
    DriveIgnoresAfterEof(Wrap([Start(e)] + children), [], s);
    assert Wrap([Start(e)] + children) + [Eof] + [] == Wrap([Start(e)] + children) + [Eof];
    TextGroupReplaced(e, children, s);
  }

  /** With no logo, the logo group writes only what its children before
      the rect leave behind: nothing at all when they are only tags. */
  lemma GenerateRemovesMissingLogo(g: Element, content: seq<Event>, rect: Element, children: seq<Event>,
                                   title: string, description: string, subtitle: string,
                                   image: Option<ValidatedImage>)
    requires GetIdFromElement(g) == Some(Utf8("ogis_logo")) && IsRectElement(rect)
    requires NoRect(content)
    requires StaysInside(children, 1) && 1 + Net(children) == 0
    ensures GenerateSvg(Wrap([Start(g)] + content + [Empty(rect)] + children) + [Eof], title, description, subtitle, None, image)
            == Ok(WhileAwaiting(content))
  {
    var s := NewState(TextReplacements(title, description, subtitle), ImageReplacements(None, image));
    assert Lossy(GetIdFromElement(g).value) == "ogis_logo";
    assert s.images["ogis_logo"] == None;
    RemovedGroupDrive(g, content, rect, children, s);
    GenerateOfDriven([Start(g)] + content + [Empty(rect)] + children, title, description, subtitle, None, image);
  }

  /** With no logo and only tags before the rect, the logo group
      disappears entirely. */
  lemma TagOnlyLogoGroupVanishes(g: Element, content: seq<Event>, rect: Element, children: seq<Event>,
                                 title: string, description: string, subtitle: string,
                                 image: Option<ValidatedImage>)
    requires GetIdFromElement(g) == Some(Utf8("ogis_logo")) && IsRectElement(rect)
    requires NoRect(content) && forall i :: 0 <= i < |content| ==> content[i].Start? || content[i].Empty?
    requires StaysInside(children, 1) && 1 + Net(children) == 0
    ensures GenerateSvg(Wrap([Start(g)] + content + [Empty(rect)] + children) + [Eof], title, description, subtitle, None, image)
            == Ok([])
  {
    GenerateRemovesMissingLogo(g, content, rect, children, title, description, subtitle, image);
    assert WhileAwaiting(content) == [];
  }

  /** Generating from a template is driving its events from the fresh
      state, up to the end of the document. */
  lemma GenerateOfDriven(evs: seq<Event>, title: string, description: string, subtitle: string,
                         logo: Option<ValidatedImage>, image: Option<ValidatedImage>)
    ensures var s := NewState(TextReplacements(title, description, subtitle), ImageReplacements(logo, image));
      GenerateSvg(Wrap(evs) + [Eof], title, description, subtitle, logo, image)
      == match Drive(Wrap(evs), s) case Err(m) => Err(m) case Ok(st) => Ok(st.out)
  {
    var s := NewState(TextReplacements(title, description, subtitle), ImageReplacements(logo, image));
    DriveIgnoresAfterEof(Wrap(evs), [], s);
    assert Wrap(evs) + [Eof] + [] == Wrap(evs) + [Eof];
  }

  /** The run of a group mapped to removal, from a clean state. */
  lemma RemovedGroupDrive(g: Element, content: seq<Event>, rect: Element, children: seq<Event>, s: State)
    requires Clean(s) && GetIdFromElement(g).Some? && Lossy(GetIdFromElement(g).value) in s.images
    requires s.images[Lossy(GetIdFromElement(g).value)] == None
    requires NoRect(content) && IsRectElement(rect)
    requires StaysInside(children, 1) && 1 + Net(children) == 0
    ensures Drive(Wrap([Start(g)] + content + [Empty(rect)] + children), s) == Ok(Step(s, WhileAwaiting(content)))
  {
    ImageGroupReplaced(g, content, rect, children, s);
    assert RectOutcome(rect, None, s) == Ok(Step(s, []));
    assert WhileAwaiting(content) + [] == WhileAwaiting(content);
  }

  /** A child before the rect that is not a rect loses its start tag but
      not its text or end tag: with no logo, a `<title>` inside the logo
      group leaves an end tag with no start tag in the output. */
  lemma NonRectChildLeaksEndTag(g: Element, rect: Element, t: string, title: string, description: string,
                                subtitle: string, image: Option<ValidatedImage>)
    requires GetIdFromElement(g) == Some(Utf8("ogis_logo")) && IsRectElement(rect)
    ensures GenerateSvg(Wrap([Start(g), Start(Element("title", [])), Text(t), End("title"), Empty(rect), End("g")]) + [Eof],
                        title, description, subtitle, None, image)
            == Ok([Text(t), End("title")])
  {
    var content := [Start(Element("title", [])), Text(t), End("title")];
    var children := [End("g")];
    assert [Start(g), Start(Element("title", [])), Text(t), End("title"), Empty(rect), End("g")]
           == [Start(g)] + content + [Empty(rect)] + children;
    assert children[..0] == [] && Net(children[..0]) == 0;
    assert StaysInside(children, 1);
    assert Net(children) == -1;
    assert NoRect(content);
    GenerateRemovesMissingLogo(g, content, rect, children, title, description, subtitle, image);
    assert content[1..] == [Text(t), End("title")];
    assert content[1..][1..] == [End("title")];
    assert content[1..][1..][1..] == [];
    assert WhileAwaiting([End("title")]) == [End("title")] + WhileAwaiting([]);
    assert WhileAwaiting([Text(t), End("title")]) == [Text(t)] + WhileAwaiting([End("title")]);
    assert WhileAwaiting(content) == [] + WhileAwaiting([Text(t), End("title")]);
    assert WhileAwaiting([]) == [];
    assert [End("title")] + [] == [End("title")];
    assert [Text(t)] + [End("title")] == [Text(t), End("title")];
    assert [] + [Text(t), End("title")] == [Text(t), End("title")];
    assert WhileAwaiting(content) == [Text(t), End("title")];
  }

  /** A marked group with no rect: only the rect clears the awaited id, so
      the group's own end tag is written and the id stays awaited.  The
      next element that is not a rect loses its start tag, the next rect
      anywhere is replaced with the first group's image, and the rect's
      own group is dropped in its place.  With a logo and no image, a
      rect-less logo group followed by the image group draws the logo in
      the image group's rect. */
  lemma RectlessGroupMarkerLeaks(g1: Element, l: string, g2: Element, rect: Element, logo: ValidatedImage,
                                 title: string, description: string, subtitle: string)
    requires GetIdFromElement(g1) == Some(Utf8("ogis_logo"))
    requires !IsRectElement(g2) && IsRectElement(rect)
    ensures GenerateSvg(Wrap([Start(g1), Text(l), End("g"), Start(g2), Empty(rect), End("g")]) + [Eof],
                        title, description, subtitle, Some(logo), None)
            == match ImageContentReplace(rect, logo.bytes)
               case Err(m) => Err(m)
               case Ok(w) => Ok([Text(l), End("g")] + w)
  {
    var s := NewState(TextReplacements(title, description, subtitle), ImageReplacements(Some(logo), None));
    var content := [Text(l), End("g"), Start(g2)];
    var children := [End("g")];
    assert [Start(g1), Text(l), End("g"), Start(g2), Empty(rect), End("g")]
           == [Start(g1)] + content + [Empty(rect)] + children;
    assert children[..0] == [] && Net(children[..0]) == 0;
    assert StaysInside(children, 1);
    assert Net(children) == -1;
    assert NoRect(content);
    assert Lossy(GetIdFromElement(g1).value) == "ogis_logo";
    assert s.images["ogis_logo"] == Some(ImageReplacement(logo.bytes, logo.mimeType));
    ImageGroupReplaced(g1, content, rect, children, s);
    GenerateOfDriven([Start(g1)] + content + [Empty(rect)] + children, title, description, subtitle, Some(logo), None);
    assert content[1..] == [End("g"), Start(g2)];
    assert content[1..][1..] == [Start(g2)];
    assert content[1..][1..][1..] == [];
    assert WhileAwaiting([Start(g2)]) == [] + WhileAwaiting([]);
    assert WhileAwaiting([End("g"), Start(g2)]) == [End("g")] + WhileAwaiting([Start(g2)]);
    assert WhileAwaiting(content) == [Text(l)] + WhileAwaiting([End("g"), Start(g2)]);
    assert WhileAwaiting([]) == [];
    assert WhileAwaiting(content) == [Text(l), End("g")];
  }
}
