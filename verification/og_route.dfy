/** The fixed-layout OG route: query defaults and an SVG built by string
    formatting, with the title and description escaped by `EscapeXml`. */
module OgRoute {
  import opened Wrappers
  import opened XmlEscape
  import opened Decimal

  type u32 = n: int | 0 <= n < 0x1_0000_0000

  const DefaultTitle: string := "Open Graph Image"
  const DefaultDescription: string := "Generated with OGIS"
  const DefaultWidth: u32 := 1200
  const DefaultHeight: u32 := 630

  /** The query as received: any field may be missing. */
  datatype OgQuery = OgQuery(title: Option<string>, description: Option<string>,
                             width: Option<u32>, height: Option<u32>)

  datatype OgParams = OgParams(title: string, description: string, width: u32, height: u32)

  /** Each missing field takes its own default, independently of the others. */
  function FromQuery(q: OgQuery): (p: OgParams)
    ensures q.title.Some? ==> p.title == q.title.value
    ensures q.title.None? ==> p.title == DefaultTitle
    ensures q.description.Some? ==> p.description == q.description.value
    ensures q.description.None? ==> p.description == DefaultDescription
    ensures q.width.Some? ==> p.width == q.width.value
    ensures q.width.None? ==> p.width == DefaultWidth
    ensures q.height.Some? ==> p.height == q.height.value
    ensures q.height.None? ==> p.height == DefaultHeight
  {
    OgParams(
      match q.title case Some(t) => t case None => DefaultTitle,
      match q.description case Some(d) => d case None => DefaultDescription,
      match q.width case Some(w) => w case None => DefaultWidth,
      match q.height case Some(h) => h case None => DefaultHeight)
  }

  /** The query that names every field. */
  function ToQuery(p: OgParams): (q: OgQuery)
    ensures q.title.Some? && q.description.Some? && q.width.Some? && q.height.Some?
  {
    OgQuery(Some(p.title), Some(p.description), Some(p.width), Some(p.height))
  }

  /** A query naming every field is read back as it was written, and the
      empty query gives exactly the four defaults. */
  lemma QueryRoundTrip(p: OgParams)
    ensures FromQuery(ToQuery(p)) == p
    ensures FromQuery(OgQuery(None, None, None, None))
            == OgParams(DefaultTitle, DefaultDescription, DefaultWidth, DefaultHeight)
  {
  }

  /** The default texts contain nothing to escape, so they are drawn as
      written. */
  lemma DefaultsArePlain()
    ensures EscapeXml(DefaultTitle) == DefaultTitle
    ensures EscapeXml(DefaultDescription) == DefaultDescription
  {
    assert NoSpecials(DefaultTitle) by {
      forall i | 0 <= i < |DefaultTitle| ensures !IsSpecial(DefaultTitle[i]) {
        assert DefaultTitle[i] in "Open Graph Image";
      }
    }
    assert NoSpecials(DefaultDescription) by {
      forall i | 0 <= i < |DefaultDescription| ensures !IsSpecial(DefaultDescription[i]) {
        assert DefaultDescription[i] in "Generated with OGIS";
      }
    }
    EscapeXmlIsEscape(DefaultTitle);
    EscapeXmlIsEscape(DefaultDescription);
    EscapeIdentity(DefaultTitle);
    EscapeIdentity(DefaultDescription);
  }

  const SvgOpen: string := "<svg width=\""
  const SvgHeight: string := "\" height=\""
  const SvgHead: string := "\" xmlns=\"http://www.w3.org/2000/svg\">\n"
    + "  <rect width=\"100%\" height=\"100%\" fill=\"#1a1a2e\"/>\n"
    + "  <style>\n"
    + "    .title { font: bold 72px sans-serif; fill: #ffffff; }\n"
    + "    .description { font: 36px sans-serif; fill: #cccccc; }\n"
    + "  </style>\n"
    + "  <text x=\"50%\" y=\"40%\" text-anchor=\"middle\" class=\"title\">"
  const SvgMiddle: string := "</text>\n"
    + "  <text x=\"50%\" y=\"55%\" text-anchor=\"middle\" class=\"description\">"
  const SvgClose: string := "</text>\n</svg>"

  /** `generate_svg` of the route: the dimensions in decimal, the texts
      escaped. */
  function GenerateSvg(title: string, description: string, width: u32, height: u32): string
  {
    SvgOpen + NatToString(width) + SvgHeight + NatToString(height) + SvgHead
      + EscapeXml(title) + SvgMiddle + EscapeXml(description) + SvgClose
  }

  /** The slot after a fixed opening, whatever follows it. */
  lemma Slot(o: string, w: string, r1: string, r2: string, r3: string, r4: string,
             r5: string, r6: string, r7: string)
    ensures var s := o + w + r1 + r2 + r3 + r4 + r5 + r6 + r7;
      |o| + |w| <= |s| && s[|o|..|o| + |w|] == w
  {
    var s := o + w + r1 + r2 + r3 + r4 + r5 + r6 + r7;
    assert forall i :: |o| <= i < |o| + |w| ==> s[i] == w[i - |o|];
  }

  /** The width is the text right after the opening, and reads back as the
      width. */
  lemma WidthEmbedded(title: string, description: string, width: u32, height: u32)
    ensures var s := GenerateSvg(title, description, width, height);
      var w := NatToString(width);
      && |SvgOpen| + |w| <= |s|
      && s[|SvgOpen|..|SvgOpen| + |w|] == w
      && ParseDigits(s[|SvgOpen|..|SvgOpen| + |w|]) == width
  {
    Slot(SvgOpen, NatToString(width), SvgHeight, NatToString(height), SvgHead,
         EscapeXml(title), SvgMiddle, EscapeXml(description), SvgClose);
    ParseNatToString(width);
  }

  /** The slot between a known prefix and a known suffix. */
  lemma Between(a: string, b: string, c: string)
    ensures |a| + |b| <= |a + b + c|
    ensures (a + b + c)[|a|..|a| + |b|] == b
    ensures (a + b + c)[..|a|] == a
    ensures (a + b + c)[|a| + |b|..] == c
  {
    var s := a + b + c;
    assert forall i :: |a| <= i < |a| + |b| ==> s[i] == b[i - |a|];
    assert forall i :: 0 <= i < |a| ==> s[i] == a[i];
    assert forall i :: |a| + |b| <= i < |s| ==> s[i] == c[i - |a| - |b|];
  }

  /** The document's nine parts, regrouped around each slot. */
  lemma Regroup(p1: string, p2: string, p3: string, p4: string, p5: string,
                p6: string, p7: string, p8: string, p9: string)
    ensures p1 + p2 + p3 + p4 + p5 + p6 + p7 + p8 + p9
            == (p1 + p2 + p3) + p4 + (p5 + p6 + p7 + p8 + p9)
    ensures p1 + p2 + p3 + p4 + p5 + p6 + p7 + p8 + p9
            == (p1 + p2 + p3 + p4 + p5) + p6 + (p7 + p8 + p9)
    ensures p1 + p2 + p3 + p4 + p5 + p6 + p7 + p8 + p9
            == (p1 + p2 + p3 + p4 + p5 + p6 + p7) + p8 + p9
  {
  }

  /** The height is the text right after `" height="`, and reads back as the
      height. */
  lemma HeightEmbedded(title: string, description: string, width: u32, height: u32)
    ensures var s := GenerateSvg(title, description, width, height);
      var h := NatToString(height);
      var o := |SvgOpen + NatToString(width) + SvgHeight|;
      && o + |h| <= |s|
      && s[..o] == SvgOpen + NatToString(width) + SvgHeight
      && s[o..o + |h|] == h
      && ParseDigits(s[o..o + |h|]) == height
  {
    var w := NatToString(width);
    var h := NatToString(height);
    var rest := SvgHead + EscapeXml(title) + SvgMiddle + EscapeXml(description) + SvgClose;
    Regroup(SvgOpen, w, SvgHeight, h, SvgHead, EscapeXml(title), SvgMiddle, EscapeXml(description), SvgClose);
    Between(SvgOpen + w + SvgHeight, h, rest);
    ParseNatToString(height);
  }

  /** Escaped text unescapes to the text as given. */
  lemma ReadsBack(x: string)
    ensures Unescape(EscapeXml(x)) == x
  {
    EscapeXmlIsEscape(x);
    UnescapeEscape(x);
  }

  /** The escaped title fills the first `<text>` element: it follows the
      fixed head, it is followed by the fixed middle, and it unescapes to the
      title as given. */
  lemma TitleEmbedded(title: string, description: string, width: u32, height: u32)
    ensures var s := GenerateSvg(title, description, width, height);
      var pre := SvgOpen + NatToString(width) + SvgHeight + NatToString(height) + SvgHead;
      var t := EscapeXml(title);
      && |pre| + |t| <= |s|
      && s[..|pre|] == pre
      && s[|pre|..|pre| + |t|] == t
      && s[|pre| + |t|..] == SvgMiddle + EscapeXml(description) + SvgClose
      && Unescape(s[|pre|..|pre| + |t|]) == title
  {
    var pre := SvgOpen + NatToString(width) + SvgHeight + NatToString(height) + SvgHead;
    var t := EscapeXml(title);
    var rest := SvgMiddle + EscapeXml(description) + SvgClose;
    Regroup(SvgOpen, NatToString(width), SvgHeight, NatToString(height), SvgHead, t, SvgMiddle,
            EscapeXml(description), SvgClose);
    Between(pre, t, rest);
    ReadsBack(title);
  }

  /** The escaped description fills the second `<text>` element: it follows
      the middle, the document ends with the fixed close right after it, and
      it unescapes to the description as given. */
  lemma DescriptionEmbedded(title: string, description: string, width: u32, height: u32)
    ensures var s := GenerateSvg(title, description, width, height);
      var pre := SvgOpen + NatToString(width) + SvgHeight + NatToString(height) + SvgHead
                 + EscapeXml(title) + SvgMiddle;
      var d := EscapeXml(description);
      && |pre| + |d| <= |s|
      && s[..|pre|] == pre
      && s[|pre|..|pre| + |d|] == d
      && s[|pre| + |d|..] == SvgClose
      && Unescape(s[|pre|..|pre| + |d|]) == description
  {
    var pre := SvgOpen + NatToString(width) + SvgHeight + NatToString(height) + SvgHead
               + EscapeXml(title) + SvgMiddle;
    var d := EscapeXml(description);
    assert GenerateSvg(title, description, width, height) == pre + d + SvgClose;
    Between(pre, d, SvgClose);
    ReadsBack(description);
  }

  function Count(s: string, c: char): (n: nat)
    ensures n <= |s|
    decreases |s|
  {
    if |s| == 0 then 0 else (if s[0] == c then 1 else 0) + Count(s[1..], c)
  }

  lemma {:induction false} CountAppend(a: string, b: string, c: char)
    ensures Count(a + b, c) == Count(a, c) + Count(b, c)
    decreases |a|
  {
    if |a| == 0 {
      assert a + b == b;
    } else {
      assert (a + b)[0] == a[0];
      assert (a + b)[1..] == a[1..] + b;
      CountAppend(a[1..], b, c);
    }
  }

  lemma {:induction false} CountAbsent(s: string, c: char)
    requires forall i :: 0 <= i < |s| ==> s[i] != c
    ensures Count(s, c) == 0
    decreases |s|
  {
    if |s| > 0 {
      CountAbsent(s[1..], c);
    }
  }

  /** Escaped text contributes none of `<`, `>`, `"` or `'`. */
  lemma EscapedHasNoMarkup(s: string, c: char)
    requires IsMarkup(c)
    ensures Count(EscapeXml(s), c) == 0
  {
    EscapeXmlIsEscape(s);
    CountAbsent(EscapeXml(s), c);
  }

  lemma DecimalHasNoMarkup(n: nat, c: char)
    requires IsMarkup(c)
    ensures Count(NatToString(n), c) == 0
  {
    CountAbsent(NatToString(n), c);
  }

  /** Whatever the title and description are, the document has exactly the
      markup characters of the fixed layout: the texts cannot add a tag,
      close an attribute or open a new one. */
  lemma MarkupIndependentOfTexts(title: string, description: string, width: u32, height: u32, c: char)
    requires IsMarkup(c)
    ensures Count(GenerateSvg(title, description, width, height), c)
            == Count(SvgOpen + SvgHeight + SvgHead + SvgMiddle + SvgClose, c)
  {
    var w := NatToString(width);
    var h := NatToString(height);
    var t := EscapeXml(title);
    var d := EscapeXml(description);
    CountAppend(SvgOpen, w, c);
    CountAppend(SvgOpen + w, SvgHeight, c);
    CountAppend(SvgOpen + w + SvgHeight, h, c);
    CountAppend(SvgOpen + w + SvgHeight + h, SvgHead, c);
    CountAppend(SvgOpen + w + SvgHeight + h + SvgHead, t, c);
    CountAppend(SvgOpen + w + SvgHeight + h + SvgHead + t, SvgMiddle, c);
    CountAppend(SvgOpen + w + SvgHeight + h + SvgHead + t + SvgMiddle, d, c);
    CountAppend(SvgOpen + w + SvgHeight + h + SvgHead + t + SvgMiddle + d, SvgClose, c);
    CountAppend(SvgOpen, SvgHeight, c);
    CountAppend(SvgOpen + SvgHeight, SvgHead, c);
    CountAppend(SvgOpen + SvgHeight + SvgHead, SvgMiddle, c);
    CountAppend(SvgOpen + SvgHeight + SvgHead + SvgMiddle, SvgClose, c);
    EscapedHasNoMarkup(title, c);
    EscapedHasNoMarkup(description, c);
    DecimalHasNoMarkup(width, c);
    DecimalHasNoMarkup(height, c);
  }
}
