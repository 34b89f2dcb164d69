/** The XML token stream the template engine reads and writes.

    An element carries its name and its attributes in document order.  An
    attribute the tokenizer cannot read is `Malformed`; a readable one keeps
    its raw (still escaped) value, which is either valid UTF-8 text or a run
    of invalid bytes together with the text a lossy decoding yields for it.
    Text and other tokens (comments, CDATA, declarations, processing
    instructions, doctypes) carry their raw document text. */
module Xml {
  import opened Wrappers

  datatype Value = Utf8(text: string) | NonUtf8(lossy: string)

  datatype AttrItem = Attr(key: string, value: Value) | Malformed

  datatype Element = Element(name: string, attrs: seq<AttrItem>)

  datatype Event =
    | Start(elem: Element)
    | Empty(elem: Element)
    | End(name: string)
    | Text(raw: string)
    | Other(raw: string)

  /** What one call of the reader yields: an event, the end of the
      document, or a parse error. */
  datatype Read = Parsed(ev: Event) | Eof | ParseError(msg: string)

  /** `String::from_utf8_lossy` of an attribute value. */
  function Lossy(v: Value): string {
    match v
    case Utf8(t) => t
    case NonUtf8(l) => l
  }

  predicate HasKey(a: AttrItem, key: string) {
    a.Attr? && a.key == key
  }

  /** The first readable attribute whose key is exactly `key`; malformed
      attributes are skipped. */
  function FindAttr(attrs: seq<AttrItem>, key: string): (r: Option<Value>)
    ensures r.None? <==> forall i :: 0 <= i < |attrs| ==> !HasKey(attrs[i], key)
    ensures r.Some? ==> exists i :: 0 <= i < |attrs| && attrs[i] == Attr(key, r.value)
                                    && forall j :: 0 <= j < i ==> !HasKey(attrs[j], key)
  {
    if |attrs| == 0 then None
    else if HasKey(attrs[0], key) then Some(attrs[0].value)
    else
      var r := FindAttr(attrs[1..], key);
      assert forall j :: 1 <= j < |attrs| ==> attrs[j] == attrs[1..][j - 1];
      r
  }

  /** `get_id_from_element`: the raw value of the first `id` attribute. */
  function GetIdFromElement(e: Element): (r: Option<Value>)
    ensures r.None? <==> forall i :: 0 <= i < |e.attrs| ==> !HasKey(e.attrs[i], "id")
    ensures r.Some? ==> exists i :: 0 <= i < |e.attrs| && e.attrs[i] == Attr("id", r.value)
                                    && forall j :: 0 <= j < i ==> !HasKey(e.attrs[j], "id")
  {
    FindAttr(e.attrs, "id")
  }

  /** An `id` after attributes with other keys is the one returned.  The
      tokenizer reports a repeated key as `Malformed`, so a second readable
      `id` does not occur in practice; the lemma holds whatever follows. */
  lemma {:induction false} FirstIdWins(before: seq<AttrItem>, v: Value, after: seq<AttrItem>)
    requires forall i :: 0 <= i < |before| ==> !HasKey(before[i], "id")
    ensures FindAttr(before + [Attr("id", v)] + after, "id") == Some(v)
  {
    if |before| > 0 {
      var all := before + [Attr("id", v)] + after;
      assert all[1..] == before[1..] + [Attr("id", v)] + after;
      FirstIdWins(before[1..], v, after);
    }
  }
}
