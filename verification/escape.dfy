/** XML escaping of text and attribute values.

    `Escape` is the single-pass escaping the XML library applies to text
    nodes and pushed attribute values: each of the five special characters
    becomes its predefined entity.  `EscapeXml` is the hand-written
    `escape_xml` of the legacy route, five chained `str::replace` calls with
    `&` first; `EscapeXmlIsEscape` shows the two agree on every string.
    `Unescape` is the partner used to state the round trip. */
module XmlEscape {

  predicate IsSpecial(c: char) {
    c == '&' || c == '<' || c == '>' || c == '"' || c == '\''
  }

  /** The characters that may never appear raw in escaped output. */
  predicate IsMarkup(c: char) {
    c == '<' || c == '>' || c == '"' || c == '\''
  }

  predicate NoSpecials(s: string) {
    forall i :: 0 <= i < |s| ==> !IsSpecial(s[i])
  }

  predicate StartsWith(s: string, p: string) {
    |p| <= |s| && s[..|p|] == p
  }

  const Amp: string := "&amp;"
  const Lt: string := "&lt;"
  const Gt: string := "&gt;"
  const Quot: string := "&quot;"
  const Apos: string := "&apos;"

  function EscapeChar(c: char): string {
    if c == '&' then Amp
    else if c == '<' then Lt
    else if c == '>' then Gt
    else if c == '"' then Quot
    else if c == '\'' then Apos
    else [c]
  }

  /** Single-pass escaping of the five special characters. */
  function Escape(s: string): (r: string)
    ensures |r| >= |s|
    ensures forall i :: 0 <= i < |r| ==> !IsMarkup(r[i])
  {
    if |s| == 0 then [] else EscapeChar(s[0]) + Escape(s[1..])
  }

  /** Decodes the five predefined entities; every other character is kept. */
  function Unescape(s: string): string
  {
    if |s| == 0 then []
    else if StartsWith(s, Amp) then "&" + Unescape(s[|Amp|..])
    else if StartsWith(s, Lt) then "<" + Unescape(s[|Lt|..])
    else if StartsWith(s, Gt) then ">" + Unescape(s[|Gt|..])
    else if StartsWith(s, Quot) then "\"" + Unescape(s[|Quot|..])
    else if StartsWith(s, Apos) then "'" + Unescape(s[|Apos|..])
    else [s[0]] + Unescape(s[1..])
  }

  /** `str::replace` with a character pattern: every occurrence of `c`
      becomes `rep`, scanning left to right. */
  function ReplaceChar(s: string, c: char, rep: string): string
  {
    if |s| == 0 then []
    else (if s[0] == c then rep else [s[0]]) + ReplaceChar(s[1..], c, rep)
  }

  /** The route's `escape_xml`: `&` first, then `<`, `>`, `"` and `'`. */
  function EscapeXml(s: string): string
  {
    ReplaceChar(ReplaceChar(ReplaceChar(ReplaceChar(ReplaceChar(
      s, '&', Amp), '<', Lt), '>', Gt), '"', Quot), '\'', Apos)
  }

  lemma {:induction false} ReplaceCharAppend(a: string, b: string, c: char, rep: string)
    ensures ReplaceChar(a + b, c, rep) == ReplaceChar(a, c, rep) + ReplaceChar(b, c, rep)
  {
    if |a| == 0 {
      assert a + b == b;
    } else {
      assert (a + b)[1..] == a[1..] + b;
      ReplaceCharAppend(a[1..], b, c, rep);
    }
  }

  lemma {:induction false} ReplaceCharAbsent(s: string, c: char, rep: string)
    requires c !in s
    ensures ReplaceChar(s, c, rep) == s
  {
    if |s| > 0 {
      assert s[0] in s;
      assert c !in s[1..] by {
        forall i | 0 <= i < |s[1..]| ensures s[1..][i] != c {
          assert s[1..][i] == s[i + 1] && s[i + 1] in s;
        }
      }
      ReplaceCharAbsent(s[1..], c, rep);
    }
  }

  lemma EscapeXmlAppend(a: string, b: string)
    ensures EscapeXml(a + b) == EscapeXml(a) + EscapeXml(b)
  {
    var a1, b1 := ReplaceChar(a, '&', Amp), ReplaceChar(b, '&', Amp);
    ReplaceCharAppend(a, b, '&', Amp);
    var a2, b2 := ReplaceChar(a1, '<', Lt), ReplaceChar(b1, '<', Lt);
    ReplaceCharAppend(a1, b1, '<', Lt);
    var a3, b3 := ReplaceChar(a2, '>', Gt), ReplaceChar(b2, '>', Gt);
    ReplaceCharAppend(a2, b2, '>', Gt);
    var a4, b4 := ReplaceChar(a3, '"', Quot), ReplaceChar(b3, '"', Quot);
    ReplaceCharAppend(a3, b3, '"', Quot);
    ReplaceCharAppend(a4, b4, '\'', Apos);
  }

  lemma ReplaceCharSingle(c: char, x: char, rep: string)
    ensures ReplaceChar([c], x, rep) == if c == x then rep else [c]
  {
    assert [c][1..] == [];
  }

  /** The last four replacements of `escape_xml`, applied to text that
      already went through the `&` step. */
  function TailReplacements(s: string): string
  {
    ReplaceChar(ReplaceChar(ReplaceChar(ReplaceChar(s, '<', Lt), '>', Gt), '"', Quot), '\'', Apos)
  }

  lemma TailReplacementsAbsent(e: string)
    requires '<' !in e && '>' !in e && '"' !in e && '\'' !in e
    ensures TailReplacements(e) == e
  {
    ReplaceCharAbsent(e, '<', Lt);
    ReplaceCharAbsent(e, '>', Gt);
    ReplaceCharAbsent(e, '"', Quot);
    ReplaceCharAbsent(e, '\'', Apos);
  }

  lemma TailReplacementsChar(c: char)
    requires c != '&'
    ensures TailReplacements([c]) == EscapeChar(c)
  {
    ReplaceCharSingle(c, '<', Lt);
    var s2 := ReplaceChar([c], '<', Lt);
    if c == '<' {
      assert s2 == Lt;
      TailReplacementsAbsent(Lt);
    } else {
      ReplaceCharSingle(c, '>', Gt);
      var s3 := ReplaceChar([c], '>', Gt);
      if c == '>' {
        ReplaceCharAbsent(Gt, '"', Quot);
        ReplaceCharAbsent(Gt, '\'', Apos);
      } else {
        ReplaceCharSingle(c, '"', Quot);
        if c == '"' {
          ReplaceCharAbsent(Quot, '\'', Apos);
        } else {
          ReplaceCharSingle(c, '\'', Apos);
        }
      }
    }
  }

  /** The five chained replacements act on one character exactly as the
      single-pass escape does: no entity contains a character a later
      replacement looks for. */
  lemma EscapeXmlChar(c: char)
    ensures EscapeXml([c]) == EscapeChar(c)
  {
    ReplaceCharSingle(c, '&', Amp);
    assert EscapeXml([c]) == TailReplacements(ReplaceChar([c], '&', Amp));
    if c == '&' {
      TailReplacementsAbsent(Amp);
    } else {
      TailReplacementsChar(c);
    }
  }

  lemma {:induction false} EscapeXmlIsEscape(s: string)
    ensures EscapeXml(s) == Escape(s)
  {
    if |s| == 0 {
      assert EscapeXml(s) == [];
    } else {
      assert s == [s[0]] + s[1..];
      EscapeXmlAppend([s[0]], s[1..]);
      EscapeXmlChar(s[0]);
      EscapeXmlIsEscape(s[1..]);
    }
  }

  lemma UnescapeEntity(e: string, c: char, rest: string)
    requires IsSpecial(c) && e == EscapeChar(c)
    ensures Unescape(e + rest) == [c] + Unescape(rest)
  {
    var s := e + rest;
    assert s[..|e|] == e;
    assert s[|e|..] == rest;
    assert s[0] == '&';
    if c == '<' {
      assert s[1] == 'l';
    } else if c == '>' {
      assert s[1] == 'g';
    } else if c == '"' {
      assert s[1] == 'q';
    } else if c == '\'' {
      assert s[1] == 'a' && s[2] == 'p';
    }
  }

  lemma UnescapeOrdinary(c: char, rest: string)
    requires c != '&'
    ensures Unescape([c] + rest) == [c] + Unescape(rest)
  {
    var s := [c] + rest;
    forall p | p in {Amp, Lt, Gt, Quot, Apos}
      ensures !StartsWith(s, p)
    {
      assert p[0] == '&';
      if |p| <= |s| {
        assert s[..|p|][0] == s[0];
      }
    }
    assert s[1..] == rest;
  }

  /** Unescaping undoes escaping, for every string. */
  lemma {:induction false} UnescapeEscape(s: string)
    ensures Unescape(Escape(s)) == s
  {
    if |s| > 0 {
      var c := s[0];
      UnescapeEscape(s[1..]);
      if IsSpecial(c) {
        UnescapeEntity(EscapeChar(c), c, Escape(s[1..]));
      } else {
        UnescapeOrdinary(c, Escape(s[1..]));
      }
      assert s == [c] + s[1..];
    }
  }

  /** A string without special characters is left unchanged. */
  lemma {:induction false} EscapeIdentity(s: string)
    requires NoSpecials(s)
    ensures Escape(s) == s
  {
    if |s| > 0 {
      EscapeIdentity(s[1..]);
      assert s == [s[0]] + s[1..];
    }
  }

  predicate IsEntityAt(r: string, i: nat)
    requires i <= |r|
  {
    var t := r[i..];
    StartsWith(t, Amp) || StartsWith(t, Lt) || StartsWith(t, Gt) || StartsWith(t, Quot) || StartsWith(t, Apos)
  }

  /** Every `&` of the escaped text begins one of the five entities, so a
      reader never sees a bare ampersand and nothing is escaped twice. */
  lemma {:induction false} EscapeAmpersands(s: string)
    ensures forall i :: 0 <= i < |Escape(s)| && Escape(s)[i] == '&' ==> IsEntityAt(Escape(s), i)
  {
    if |s| > 0 {
      EscapeAmpersands(s[1..]);
      var h, t := EscapeChar(s[0]), Escape(s[1..]);
      var r := h + t;
      assert Escape(s) == r;
      forall i | 0 <= i < |r| && r[i] == '&'
        ensures IsEntityAt(r, i)
      {
        if i < |h| {
          assert IsSpecial(s[0]) && i == 0;
          assert r[..|h|] == h;
          assert r[i..][..|h|] == h;
        } else {
          assert r[i..] == t[i - |h|..];
          assert t[i - |h|] == '&';
        }
      }
    }
  }
}
