/** The replacement strategies: text content keeps the element and swaps
    its children for one escaped text node; image content turns the
    bounding `<rect>` of a group into one self-closing `<image>`. */
module Strategies {
  import opened Wrappers
  import opened Xml
  import opened XmlEscape
  import Base64

  /** What `apply_replacement` reports: whether a text replacement applied,
      and the events it wrote. */
  datatype Applied = Applied(replaced: bool, out: seq<Event>)

  /** `text_content::replace`: the original start tag, the new text, the
      matching end tag. */
  function TextContentReplace(original: Element, text: string): (r: seq<Event>)
    ensures |r| == 3
    ensures r[0] == Start(original) && r[2] == End(original.name)
    ensures r[1].Text? && Unescape(r[1].raw) == text
    ensures forall i :: 0 <= i < |r[1].raw| ==> !IsMarkup(r[1].raw[i])
  {
    UnescapeEscape(text);
    [Start(original), Text(Escape(text)), End(original.name)]
  }

  /** `apply_replacement`: looks the lossily decoded id up in the text map.
      Writes go to an in-memory buffer and cannot fail, so the result is
      always `Ok`. */
  function ApplyReplacement(original: Element, id: Value, texts: map<string, string>): (r: Result<Applied, string>)
    ensures r.Ok?
    ensures r.value.replaced <==> Lossy(id) in texts
    ensures r.value.replaced ==> r.value.out == TextContentReplace(original, texts[Lossy(id)])
    ensures !r.value.replaced ==> r.value.out == []
  {
    var key := Lossy(id);
    if key in texts then Ok(Applied(true, TextContentReplace(original, texts[key])))
    else Ok(Applied(false, []))
  }

  /** `get_attr`: the first readable attribute named `name`, which must be
      valid UTF-8. */
  function GetAttr(e: Element, name: string): (r: Result<string, string>)
    ensures FindAttr(e.attrs, name).None? ==> r == Err("Missing required attribute: " + name)
    ensures FindAttr(e.attrs, name).Some? && FindAttr(e.attrs, name).value.NonUtf8? ==> r == Err("UTF-8 decode error")
    ensures FindAttr(e.attrs, name).Some? && FindAttr(e.attrs, name).value.Utf8?
            ==> r == Ok(FindAttr(e.attrs, name).value.text)
  {
    match FindAttr(e.attrs, name)
    case None => Err("Missing required attribute: " + name)
    case Some(Utf8(t)) => Ok(t)
    case Some(NonUtf8(_)) => Err("UTF-8 decode error")
  }

  const DataUriPrefix: string := "data:image/png;base64,"
  const AspectRatio: string := "xMidYMid meet"

  /** The data URI is always labelled `image/png`, whatever the bytes are. */
  function DataUri(bytes: seq<Base64.byte>): (r: string)
    ensures |DataUriPrefix| <= |r| && r[..|DataUriPrefix|] == DataUriPrefix
    ensures Base64.Decode(r[|DataUriPrefix|..]) == Some(bytes)
    ensures NoSpecials(r)
  {
    var enc := Base64.Encode(bytes);
    var r := DataUriPrefix + enc;
    Base64.DecodeEncode(bytes);
    assert r[..|DataUriPrefix|] == DataUriPrefix;
    assert r[|DataUriPrefix|..] == enc;
    DataUriIsPlain(enc);
    r
  }

  /** Neither the prefix nor any Base64 character is one the writer
      escapes. */
  lemma DataUriIsPlain(enc: string)
    requires forall i :: 0 <= i < |enc| ==> Base64.IsEncodingChar(enc[i])
    ensures NoSpecials(DataUriPrefix + enc)
  {
    var r := DataUriPrefix + enc;
    assert NoSpecials(DataUriPrefix);
    forall i | 0 <= i < |r| ensures !IsSpecial(r[i]) {
      if i >= |DataUriPrefix| {
        assert r[i] == enc[i - |DataUriPrefix|];
      }
    }
  }

  lemma AspectRatioIsPlain()
    ensures Escape(AspectRatio) == AspectRatio
  {
    assert NoSpecials(AspectRatio) by {
      forall i | 0 <= i < |AspectRatio| ensures !IsSpecial(AspectRatio[i]) {
        assert AspectRatio[i] in "xMidYMid meet";
      }
    }
    EscapeIdentity(AspectRatio);
  }

  /** The `<image>` element built from the rect's geometry.  Each pushed
      attribute value is escaped by the XML library. */
  function ImageElement(x: string, y: string, width: string, height: string, bytes: seq<Base64.byte>): Element
  {
    Element("image", [
      Attr("x", Utf8(Escape(x))), Attr("y", Utf8(Escape(y))),
      Attr("width", Utf8(Escape(width))), Attr("height", Utf8(Escape(height))),
      Attr("preserveAspectRatio", Utf8(Escape(AspectRatio))),
      Attr("href", Utf8(Escape(DataUri(bytes))))])
  }

  /** The image has six attributes: the four geometry keys in order, then
      the aspect-ratio policy and the data URI, and nothing else. */
  lemma ImageElementContents(x: string, y: string, width: string, height: string, bytes: seq<Base64.byte>)
    ensures ImageElement(x, y, width, height, bytes).name == "image"
    ensures |ImageElement(x, y, width, height, bytes).attrs| == 6
    ensures var a := ImageElement(x, y, width, height, bytes).attrs;
      a[0].key == "x" && a[1].key == "y" && a[2].key == "width" && a[3].key == "height"
    ensures var a := ImageElement(x, y, width, height, bytes).attrs;
      a[4].key == "preserveAspectRatio" && a[5].key == "href"
  {
    var e := ImageElement(x, y, width, height, bytes);
    var vx, vy, vw, vh := Utf8(Escape(x)), Utf8(Escape(y)), Utf8(Escape(width)), Utf8(Escape(height));
    var va, vd := Utf8(Escape(AspectRatio)), Utf8(Escape(DataUri(bytes)));
    assert e.attrs == [Attr("x", vx), Attr("y", vy), Attr("width", vw), Attr("height", vh),
                       Attr("preserveAspectRatio", va), Attr("href", vd)];
  }

  /** The geometry values read back as given. */
  lemma ImageElementValues(x: string, y: string, width: string, height: string, bytes: seq<Base64.byte>)
    ensures var a := ImageElement(x, y, width, height, bytes).attrs;
      Unescape(a[0].value.text) == x && Unescape(a[1].value.text) == y
    ensures var a := ImageElement(x, y, width, height, bytes).attrs;
      Unescape(a[2].value.text) == width && Unescape(a[3].value.text) == height
  {
    var a := ImageElement(x, y, width, height, bytes).attrs;
    assert a[0].value.text == Escape(x) && a[1].value.text == Escape(y);
    assert a[2].value.text == Escape(width) && a[3].value.text == Escape(height);
    UnescapeEscape(x);
    UnescapeEscape(y);
    UnescapeEscape(width);
    UnescapeEscape(height);
  }

  /** The aspect-ratio policy and the data URI are written as they are:
      neither contains a character the writer escapes. */
  lemma ImageElementFixedValues(x: string, y: string, width: string, height: string, bytes: seq<Base64.byte>)
    ensures ImageElement(x, y, width, height, bytes).attrs[4].value.text == AspectRatio
    ensures ImageElement(x, y, width, height, bytes).attrs[5].value.text == DataUri(bytes)
  {
    var a := ImageElement(x, y, width, height, bytes).attrs;
    assert a[4].value.text == Escape(AspectRatio) && a[5].value.text == Escape(DataUri(bytes));
    EscapeIdentity(DataUri(bytes));
    AspectRatioIsPlain();
  }

  /** `image_content::replace`: reads `x`, `y`, `width` and `height` from
      the rect, in that order, failing on the first one missing or not
      UTF-8, and then writes exactly one self-closing `<image>`. */
  function ImageContentReplace(rect: Element, bytes: seq<Base64.byte>): (r: Result<seq<Event>, string>)
    ensures GetAttr(rect, "x").Err? ==> r == Err(GetAttr(rect, "x").error)
    ensures (GetAttr(rect, "x").Ok? && GetAttr(rect, "y").Err?) ==> r == Err(GetAttr(rect, "y").error)
    ensures (GetAttr(rect, "x").Ok? && GetAttr(rect, "y").Ok? && GetAttr(rect, "width").Err?)
            ==> r == Err(GetAttr(rect, "width").error)
    ensures (GetAttr(rect, "x").Ok? && GetAttr(rect, "y").Ok? && GetAttr(rect, "width").Ok?
             && GetAttr(rect, "height").Err?) ==> r == Err(GetAttr(rect, "height").error)
    ensures r.Ok? <==> (GetAttr(rect, "x").Ok? && GetAttr(rect, "y").Ok?
                        && GetAttr(rect, "width").Ok? && GetAttr(rect, "height").Ok?)
    ensures r.Ok? ==> r.value == [Empty(ImageElement(GetAttr(rect, "x").value, GetAttr(rect, "y").value,
                                                     GetAttr(rect, "width").value, GetAttr(rect, "height").value, bytes))]
  {
    var x :- GetAttr(rect, "x");
    var y :- GetAttr(rect, "y");
    var width :- GetAttr(rect, "width");
    var height :- GetAttr(rect, "height");
    Ok([Empty(ImageElement(x, y, width, height, bytes))])
  }

  /** Geometry written in plain digits is copied character for character. */
  lemma PlainGeometryCopiedVerbatim(rect: Element, bytes: seq<Base64.byte>)
    requires GetAttr(rect, "x").Ok? && GetAttr(rect, "y").Ok? && GetAttr(rect, "width").Ok? && GetAttr(rect, "height").Ok?
    requires NoSpecials(GetAttr(rect, "x").value) && NoSpecials(GetAttr(rect, "y").value)
    requires NoSpecials(GetAttr(rect, "width").value) && NoSpecials(GetAttr(rect, "height").value)
    ensures ImageContentReplace(rect, bytes).Ok?
    ensures var attrs := ImageContentReplace(rect, bytes).value[0].elem.attrs;
      && attrs[0] == Attr("x", Utf8(GetAttr(rect, "x").value))
      && attrs[1] == Attr("y", Utf8(GetAttr(rect, "y").value))
      && attrs[2] == Attr("width", Utf8(GetAttr(rect, "width").value))
      && attrs[3] == Attr("height", Utf8(GetAttr(rect, "height").value))
  {
    var x, y := GetAttr(rect, "x").value, GetAttr(rect, "y").value;
    var w, h := GetAttr(rect, "width").value, GetAttr(rect, "height").value;
    assert ImageContentReplace(rect, bytes).value[0].elem == ImageElement(x, y, w, h, bytes);
    var a := ImageElement(x, y, w, h, bytes).attrs;
    assert a[0] == Attr("x", Utf8(Escape(x))) && a[1] == Attr("y", Utf8(Escape(y)));
    assert a[2] == Attr("width", Utf8(Escape(w))) && a[3] == Attr("height", Utf8(Escape(h)));
    EscapeIdentity(x);
    EscapeIdentity(y);
    EscapeIdentity(w);
    EscapeIdentity(h);
  }
}
