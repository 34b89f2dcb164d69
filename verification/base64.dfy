/** Base64 with the standard alphabet and `=` padding (section 4 of
    RFC 4648), as used for data URIs and for the fetch pipeline's result.
    `Decode` is the partner of `Encode`: `DecodeEncode` proves the round
    trip for every byte sequence. */
module Base64 {
  import opened Wrappers

  type byte = b: int | 0 <= b < 256

  /** The 64-character alphabet of RFC 4648 table 1. */
  function EncodeChar(i: int): (c: char)
    requires 0 <= i < 64
  {
    if i < 26 then (65 + i) as char
    else if i < 52 then (97 + i - 26) as char
    else if i < 62 then (48 + i - 52) as char
    else if i == 62 then '+'
    else '/'
  }

  predicate IsAlphabet(c: char) {
    ('A' <= c <= 'Z') || ('a' <= c <= 'z') || ('0' <= c <= '9') || c == '+' || c == '/'
  }

  function DecodeChar(c: char): (i: int)
    requires IsAlphabet(c)
    ensures 0 <= i < 64
  {
    if 'A' <= c <= 'Z' then c as int - 65
    else if 'a' <= c <= 'z' then c as int - 97 + 26
    else if '0' <= c <= '9' then c as int - 48 + 52
    else if c == '+' then 62
    else 63
  }

  lemma CharRoundTrip(i: int)
    requires 0 <= i < 64
    ensures IsAlphabet(EncodeChar(i)) && DecodeChar(EncodeChar(i)) == i
  {
  }

  /** One full 3-byte group becomes four alphabet characters. */
  function EncodeBlock(b0: byte, b1: byte, b2: byte): string
  {
    [EncodeChar(b0 / 4), EncodeChar((b0 % 4) * 16 + b1 / 16),
     EncodeChar((b1 % 16) * 4 + b2 / 64), EncodeChar(b2 % 64)]
  }

  /** A final group of two bytes: three characters and one `=`. */
  function EncodeTail2(b0: byte, b1: byte): string
  {
    [EncodeChar(b0 / 4), EncodeChar((b0 % 4) * 16 + b1 / 16), EncodeChar((b1 % 16) * 4), '=']
  }

  /** A final group of one byte: two characters and `==`. */
  function EncodeTail1(b0: byte): string
  {
    [EncodeChar(b0 / 4), EncodeChar((b0 % 4) * 16), '=', '=']
  }

  /** Characters that may appear in an encoding: the alphabet and the pad. */
  predicate IsEncodingChar(c: char) {
    IsAlphabet(c) || c == '='
  }

  function Encode(b: seq<byte>): (s: string)
    ensures |s| == 4 * ((|b| + 2) / 3)
    ensures forall i :: 0 <= i < |s| ==> IsEncodingChar(s[i])
    decreases |b|
  {
    if |b| == 0 then []
    else if |b| == 1 then EncodeTail1(b[0])
    else if |b| == 2 then EncodeTail2(b[0], b[1])
    else EncodeBlock(b[0], b[1], b[2]) + Encode(b[3..])
  }

  predicate AllAlphabet(s: string) {
    forall i :: 0 <= i < |s| ==> IsAlphabet(s[i])
  }

  /** Decodes one 4-character group; `None` for a character outside the
      alphabet or misplaced padding. */
  function DecodeGroup(q: string, last: bool): Option<seq<byte>>
    requires |q| == 4
  {
    if last && q[2] == '=' && q[3] == '=' && AllAlphabet(q[..2]) then
      var c0, c1 := DecodeChar(q[0]), DecodeChar(q[1]);
      Some([c0 * 4 + c1 / 16])
    else if last && q[3] == '=' && AllAlphabet(q[..3]) then
      var c0, c1, c2 := DecodeChar(q[0]), DecodeChar(q[1]), DecodeChar(q[2]);
      Some([c0 * 4 + c1 / 16, (c1 % 16) * 16 + c2 / 4])
    else if AllAlphabet(q) then
      var c0, c1, c2, c3 := DecodeChar(q[0]), DecodeChar(q[1]), DecodeChar(q[2]), DecodeChar(q[3]);
      Some([c0 * 4 + c1 / 16, (c1 % 16) * 16 + c2 / 4, (c2 % 4) * 64 + c3])
    else None
  }

  function Decode(s: string): Option<seq<byte>>
    decreases |s|
  {
    if |s| == 0 then Some([])
    else if |s| < 4 then None
    else
      var g :- DecodeGroup(s[..4], |s| == 4);
      var rest :- Decode(s[4..]);
      Some(g + rest)
  }

  lemma BlockRoundTrip(b0: byte, b1: byte, b2: byte, last: bool)
    ensures DecodeGroup(EncodeBlock(b0, b1, b2), last) == Some([b0, b1, b2])
  {
    var q := EncodeBlock(b0, b1, b2);
    CharRoundTrip(b0 / 4);
    CharRoundTrip((b0 % 4) * 16 + b1 / 16);
    CharRoundTrip((b1 % 16) * 4 + b2 / 64);
    CharRoundTrip(b2 % 64);
    assert q[3] != '=';
    assert AllAlphabet(q);
  }

  lemma Tail2RoundTrip(b0: byte, b1: byte)
    ensures DecodeGroup(EncodeTail2(b0, b1), true) == Some([b0, b1])
  {
    var q := EncodeTail2(b0, b1);
    CharRoundTrip(b0 / 4);
    CharRoundTrip((b0 % 4) * 16 + b1 / 16);
    CharRoundTrip((b1 % 16) * 4);
    assert q[2] != '=';
    assert AllAlphabet(q[..3]);
  }

  lemma Tail1RoundTrip(b0: byte)
    ensures DecodeGroup(EncodeTail1(b0), true) == Some([b0])
  {
    var q := EncodeTail1(b0);
    CharRoundTrip(b0 / 4);
    CharRoundTrip((b0 % 4) * 16);
    assert AllAlphabet(q[..2]);
  }

  lemma DecodeGroupThenRest(s: string, g: seq<byte>, rest: seq<byte>)
    requires |s| >= 4
    requires DecodeGroup(s[..4], |s| == 4) == Some(g)
    requires Decode(s[4..]) == Some(rest)
    ensures Decode(s) == Some(g + rest)
  {
  }

  lemma DecodeTail1(b0: byte)
    ensures Decode(EncodeTail1(b0)) == Some([b0])
  {
    var s := EncodeTail1(b0);
    assert s[..4] == s;
    assert s[4..] == [];
    Tail1RoundTrip(b0);
    DecodeGroupThenRest(s, [b0], []);
    assert [b0] + [] == [b0];
  }

  lemma DecodeTail2(b0: byte, b1: byte)
    ensures Decode(EncodeTail2(b0, b1)) == Some([b0, b1])
  {
    var s := EncodeTail2(b0, b1);
    assert s[..4] == s;
    assert s[4..] == [];
    Tail2RoundTrip(b0, b1);
    DecodeGroupThenRest(s, [b0, b1], []);
    assert [b0, b1] + [] == [b0, b1];
  }

  lemma EncodeFront(b: seq<byte>)
    requires |b| >= 3
    ensures Encode(b) == EncodeBlock(b[0], b[1], b[2]) + Encode(b[3..])
    ensures |EncodeBlock(b[0], b[1], b[2])| == 4
  {
  }

  lemma SplitGroup(q: string, t: string)
    requires |q| == 4
    ensures (q + t)[..4] == q && (q + t)[4..] == t && |q + t| >= 4
  {
  }

  /** One full block in front of a tail that already decodes. */
  lemma DecodeBlockThenRest(b0: byte, b1: byte, b2: byte, t: string, rest: seq<byte>)
    requires Decode(t) == Some(rest)
    ensures Decode(EncodeBlock(b0, b1, b2) + t) == Some([b0, b1, b2] + rest)
  {
    var q := EncodeBlock(b0, b1, b2);
    assert |q| == 4;
    SplitGroup(q, t);
    BlockRoundTrip(b0, b1, b2, |q + t| == 4);
    DecodeGroupThenRest(q + t, [b0, b1, b2], rest);
  }

  /** Decoding the encoding gives back the input bytes. */
  lemma {:induction false} DecodeEncode(b: seq<byte>)
    ensures Decode(Encode(b)) == Some(b)
    decreases |b|
  {
    if |b| == 1 {
      DecodeTail1(b[0]);
      assert b == [b[0]];
    } else if |b| == 2 {
      DecodeTail2(b[0], b[1]);
      assert b == [b[0], b[1]];
    } else if |b| >= 3 {
      DecodeEncode(b[3..]);
      EncodeFront(b);
      DecodeBlockThenRest(b[0], b[1], b[2], Encode(b[3..]), b[3..]);
      assert b == [b[0], b[1], b[2]] + b[3..];
    }
  }
}
