/** The placeholder generator: the template text with every `ogis_title`
    replaced by the escaped title, and then every `ogis_description` by the
    escaped description.

    `ReplaceAll` follows `str::replace`: matches are found left to right
    and do not overlap, and the replacement text is not searched again. */
module Placeholder {
  import opened XmlEscape

  /** `p` occurs in `s` at position `i`. */
  predicate MatchAt(s: string, i: int, p: string) {
    0 <= i && i + |p| <= |s| && s[i..i + |p|] == p
  }

  /** An empty pattern matches at every character boundary. */
  function ReplaceEmpty(s: string, rep: string): (r: string)
    ensures |r| == |s| + (|s| + 1) * |rep|
    decreases |s|
  {
    if |s| == 0 then rep else rep + [s[0]] + ReplaceEmpty(s[1..], rep)
  }

  function ReplaceAll(s: string, pat: string, rep: string): string
    decreases |s|
  {
    if |pat| == 0 then ReplaceEmpty(s, rep)
    else if |s| < |pat| then s
    else if s[..|pat|] == pat then rep + ReplaceAll(s[|pat|..], pat, rep)
    else [s[0]] + ReplaceAll(s[1..], pat, rep)
  }

  lemma MatchShift(c: char, s: string, i: int, p: string)
    requires i >= 0
    ensures MatchAt([c] + s, i + 1, p) <==> MatchAt(s, i, p)
  {
    if 0 <= i && i + |p| <= |s| {
      assert ([c] + s)[i + 1..i + 1 + |p|] == s[i..i + |p|];
    }
  }

  /** A text in which the pattern does not occur is returned unchanged. */
  lemma {:induction false} ReplaceAbsent(s: string, pat: string, rep: string)
    requires |pat| > 0
    requires forall i :: 0 <= i < |s| ==> !MatchAt(s, i, pat)
    ensures ReplaceAll(s, pat, rep) == s
    decreases |s|
  {
    if |s| >= |pat| {
      assert !MatchAt(s, 0, pat);
      forall i | 0 <= i < |s| - 1 ensures !MatchAt(s[1..], i, pat) {
        assert s == [s[0]] + s[1..];
        MatchShift(s[0], s[1..], i, pat);
      }
      ReplaceAbsent(s[1..], pat, rep);
      assert [s[0]] + s[1..] == s;
    }
  }

  /** The leftmost occurrence is the one replaced: text before it is
      copied, and the search resumes after it. */
  lemma {:induction false} ReplaceLeftmost(a: string, pat: string, b: string, rep: string)
    requires |pat| > 0
    requires forall i :: 0 <= i < |a| ==> !MatchAt(a + pat + b, i, pat)
    ensures ReplaceAll(a + pat + b, pat, rep) == a + rep + ReplaceAll(b, pat, rep)
    decreases |a|
  {
    var s := a + pat + b;
    if |a| == 0 {
      assert s == pat + b;
      assert s[..|pat|] == pat;
      assert s[|pat|..] == b;
    } else {
      assert !MatchAt(s, 0, pat);
      assert s[1..] == a[1..] + pat + b;
      forall i | 0 <= i < |a| - 1 ensures !MatchAt(a[1..] + pat + b, i, pat) {
        assert s == [s[0]] + s[1..];
        MatchShift(s[0], s[1..], i, pat);
      }
      ReplaceLeftmost(a[1..], pat, b, rep);
      assert [a[0]] + (a[1..] + rep + ReplaceAll(b, pat, rep)) == a + rep + ReplaceAll(b, pat, rep);
    }
  }

  /** Replacing a pattern by itself changes nothing. */
  lemma {:induction false} ReplaceBySelf(s: string, pat: string)
    requires |pat| > 0
    ensures ReplaceAll(s, pat, pat) == s
    decreases |s|
  {
    if |s| >= |pat| {
      if s[..|pat|] == pat {
        ReplaceBySelf(s[|pat|..], pat);
        assert pat + s[|pat|..] == s;
      } else {
        ReplaceBySelf(s[1..], pat);
        assert [s[0]] + s[1..] == s;
      }
    }
  }

  const TitlePlaceholder: string := "ogis_title"
  const DescriptionPlaceholder: string := "ogis_description"

  /** `generate_svg` of the placeholder generator.  The template is a
      parameter: the bundled template file is not part of this model. */
  function GenerateSvg(template: string, title: string, description: string): string
  {
    ReplaceAll(ReplaceAll(template, TitlePlaceholder, Escape(title)), DescriptionPlaceholder, Escape(description))
  }

  /** A template without either placeholder is returned as it is. */
  lemma GenerateWithoutPlaceholders(template: string, title: string, description: string)
    requires forall i :: 0 <= i < |template| ==> !MatchAt(template, i, TitlePlaceholder)
    requires forall i :: 0 <= i < |template| ==> !MatchAt(template, i, DescriptionPlaceholder)
    ensures GenerateSvg(template, title, description) == template
  {
    ReplaceAbsent(template, TitlePlaceholder, Escape(title));
    ReplaceAbsent(template, DescriptionPlaceholder, Escape(description));
  }

  /** A text that is exactly the pattern becomes exactly the replacement. */
  lemma ReplaceWhole(pat: string, rep: string)
    requires |pat| > 0
    ensures ReplaceAll(pat, pat, rep) == rep
  {
    var empty: string := [];
    assert pat == empty + pat + empty;
    ReplaceLeftmost(empty, pat, empty, rep);
    assert ReplaceAll(empty, pat, rep) == empty;
    assert empty + rep + empty == rep;
  }

  lemma DescriptionPlaceholderIsPlain()
    ensures Escape(DescriptionPlaceholder) == DescriptionPlaceholder
  {
    assert NoSpecials(DescriptionPlaceholder) by {
      forall i | 0 <= i < |DescriptionPlaceholder| ensures !IsSpecial(DescriptionPlaceholder[i]) {
        assert DescriptionPlaceholder[i] in "ogis_description";
      }
    }
    EscapeIdentity(DescriptionPlaceholder);
  }

  /** The second substitution also sees what the first inserted: a title
      spelling the description placeholder becomes the description. */
  lemma TitleMayIntroduceDescription(description: string)
    ensures GenerateSvg(TitlePlaceholder, DescriptionPlaceholder, description) == Escape(description)
  {
    DescriptionPlaceholderIsPlain();
    ReplaceWhole(TitlePlaceholder, DescriptionPlaceholder);
    ReplaceWhole(DescriptionPlaceholder, Escape(description));
  }

  /** A template holding the title placeholder once, between texts free of
      both placeholders and of anything the title could join with, carries
      the title escaped: no raw markup character of the title survives. */
  lemma GenerateEscapesTitle(a: string, b: string, title: string)
    requires forall i :: 0 <= i < |a| ==> !MatchAt(a + TitlePlaceholder + b, i, TitlePlaceholder)
    requires forall i :: 0 <= i < |b| ==> !MatchAt(b, i, TitlePlaceholder)
    requires forall i :: 0 <= i < |a + Escape(title) + b| ==> !MatchAt(a + Escape(title) + b, i, DescriptionPlaceholder)
    ensures GenerateSvg(a + TitlePlaceholder + b, title, "") == a + Escape(title) + b
  {
    ReplaceLeftmost(a, TitlePlaceholder, b, Escape(title));
    ReplaceAbsent(b, TitlePlaceholder, Escape(title));
    ReplaceAbsent(a + Escape(title) + b, DescriptionPlaceholder, Escape(""));
  }
}
