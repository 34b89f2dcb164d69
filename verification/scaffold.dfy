/** The first generation of the template handlers: a bare skip depth and a
    hard-coded set of ids, each replaced by one constant placeholder. */
module Scaffold {
  import opened Xml
  import opened SkipDepth

  datatype ScaffoldState = ScaffoldState(skipDepth: nat)

  function NewScaffoldState(): (s: ScaffoldState)
    ensures !IsSkipping(s.skipDepth)
  {
    ScaffoldState(0)
  }

  /** The derived default is the same state as `new`. */
  function DefaultScaffoldState(): (s: ScaffoldState)
    ensures s == NewScaffoldState()
  {
    ScaffoldState(0)
  }

  datatype ScaffoldStep = ScaffoldStep(state: ScaffoldState, out: seq<Event>)

  const TargetIds: set<string> := {"logo", "title", "description"}

  /** The raw value is compared byte for byte, so only valid text can match. */
  predicate IsTargetId(v: Value) {
    v.Utf8? && v.text in TargetIds
  }

  /** Whether any readable `id` attribute, not only the first, is a target. */
  function ShouldReplaceElement(attrs: seq<AttrItem>): (r: bool)
    ensures r <==> exists i :: 0 <= i < |attrs| && attrs[i].Attr? && attrs[i].key == "id" && IsTargetId(attrs[i].value)
  {
    if |attrs| == 0 then false
    else if attrs[0].Attr? && attrs[0].key == "id" && IsTargetId(attrs[0].value) then true
    else
      var r := ShouldReplaceElement(attrs[1..]);
      assert forall j :: 1 <= j < |attrs| ==> attrs[j] == attrs[1..][j - 1];
      r
  }

  /** A target id after other attributes triggers the replacement.  The
      tokenizer reports a repeated key as `Malformed`, so in practice the
      attributes before it carry no readable `id`; the lemma needs no such
      restriction. */
  lemma {:induction false} LaterIdCounts(before: seq<AttrItem>, v: Value, after: seq<AttrItem>)
    requires IsTargetId(v)
    ensures ShouldReplaceElement(before + [Attr("id", v)] + after)
  {
    var all := before + [Attr("id", v)] + after;
    assert all[|before|] == Attr("id", v);
  }

  /** The placeholder `<g id="replaced"/>`, whatever the original was. */
  const Replacement: Event := Empty(Element("g", [Attr("id", Utf8("replaced"))]))

  function WriteReplacement(original: Element): (out: seq<Event>)
    ensures out == [Replacement]
  {
    [Replacement]
  }

  /** `handle_start`: a target is replaced and its subtree skipped. */
  function HandleStart(e: Element, s: ScaffoldState): (r: ScaffoldStep)
    ensures IsSkipping(s.skipDepth) ==> r == ScaffoldStep(ScaffoldState(s.skipDepth + 1), [])
    ensures !IsSkipping(s.skipDepth) && ShouldReplaceElement(e.attrs) ==> r == ScaffoldStep(ScaffoldState(1), [Replacement])
    ensures !IsSkipping(s.skipDepth) && !ShouldReplaceElement(e.attrs) ==> r == ScaffoldStep(s, [Start(e)])
  {
    if IsSkipping(s.skipDepth) then ScaffoldStep(ScaffoldState(StartSkip(s.skipDepth)), [])
    else if ShouldReplaceElement(e.attrs) then ScaffoldStep(ScaffoldState(StartSkip(s.skipDepth)), WriteReplacement(e))
    else ScaffoldStep(s, [Start(e)])
  }

  /** `handle_empty`: a target is replaced; nothing starts skipping. */
  function HandleEmpty(e: Element, s: ScaffoldState): (r: ScaffoldStep)
    ensures r.state == s
    ensures IsSkipping(s.skipDepth) ==> r.out == []
    ensures !IsSkipping(s.skipDepth) && ShouldReplaceElement(e.attrs) ==> r.out == [Replacement]
    ensures !IsSkipping(s.skipDepth) && !ShouldReplaceElement(e.attrs) ==> r.out == [Empty(e)]
  {
    if IsSkipping(s.skipDepth) then ScaffoldStep(s, [])
    else if ShouldReplaceElement(e.attrs) then ScaffoldStep(s, WriteReplacement(e))
    else ScaffoldStep(s, [Empty(e)])
  }

  /** `handle_end`: the same saturating close as in the live engine. */
  function HandleEnd(name: string, s: ScaffoldState): (r: ScaffoldStep)
    ensures IsSkipping(s.skipDepth) ==> r.out == [] && r.state.skipDepth + 1 == s.skipDepth
    ensures !IsSkipping(s.skipDepth) ==> r == ScaffoldStep(s, [End(name)])
  {
    if IsSkipping(s.skipDepth) then ScaffoldStep(ScaffoldState(EndSkip(s.skipDepth)), [])
    else ScaffoldStep(s, [End(name)])
  }

  /** A replaced element closed at once leaves the state as it found it and
      writes only the placeholder. */
  lemma ReplacedThenClosed(e: Element)
    requires ShouldReplaceElement(e.attrs)
    ensures var st := HandleStart(e, NewScaffoldState());
      var en := HandleEnd(e.name, st.state);
      en.state == NewScaffoldState() && st.out + en.out == [Replacement]
  {
    var st := HandleStart(e, NewScaffoldState());
    var en := HandleEnd(e.name, st.state);
    assert st.out + en.out == [Replacement] + [];
  }
}
