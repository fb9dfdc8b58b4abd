/** File names on the wire are the UTF-8 encodings of Unicode text, and nothing else (src/protocol/v03.rs). */
module Utf8 {
  import opened Prelude
  import opened PayloadsV03

  /** A Unicode scalar value: any code point that is not a surrogate. */
  type Scalar = c: nat | c < 0xD800 || 0xE000 <= c < 0x11_0000

  /** The UTF-8 form of one scalar value (section 3 of RFC 3629): a lead byte and then groups of six bits. */
  function EncodeScalar(c: Scalar): (b: Bytes)
    ensures 0 < |b| <= 4
  {
    if c < 0x80 then [c as byte]
    else if c < 0x800 then [(0xC0 + c / 64) as byte, Six(c)]
    else if c < 0x1_0000 then [(0xE0 + c / 4096) as byte, Six(c / 64), Six(c)]
    else [(0xF0 + c / 262144) as byte, Six(c / 4096), Six(c / 64), Six(c)]
  }

  function Six(c: nat): byte {
    (0x80 + c % 64) as byte
  }

  function EncodeAll(text: seq<Scalar>): Bytes {
    if |text| == 0 then [] else EncodeScalar(text[0]) + EncodeAll(text[1..])
  }

  function Low(b: byte): nat
    requires Continuation(b)
  {
    b as nat - 0x80
  }

  /** The scalar value at the front of well-formed bytes. */
  function ScalarAt(b: Bytes): (c: Scalar)
    requires Utf8Width(b) > 0
  {
    var lead := b[0] as nat;
    if lead < 0x80 then lead
    else if lead < 0xE0 then (lead - 0xC0) * 64 + Low(b[1])
    else if lead < 0xF0 then (lead - 0xE0) * 4096 + Low(b[1]) * 64 + Low(b[2])
    else (lead - 0xF0) * 262144 + Low(b[1]) * 4096 + Low(b[2]) * 64 + Low(b[3])
  }

  lemma {:induction false} SplitBits(c: nat, high: nat, low: nat)
    requires c == high * 64 + low && low < 64
    ensures c / 64 == high && c % 64 == low
  {
  }

  lemma {:induction false} DecodedReencodes(b: Bytes)
    requires Utf8Width(b) > 0
    ensures EncodeScalar(ScalarAt(b)) == b[..Utf8Width(b)]
  {
    var c, w := ScalarAt(b), Utf8Width(b);
    var lead := b[0] as nat;
    if w == 2 {
      SplitBits(c, lead - 0xC0, Low(b[1]));
    } else if w == 3 {
      SplitBits(c, (lead - 0xE0) * 64 + Low(b[1]), Low(b[2]));
      SplitBits(c / 64, lead - 0xE0, Low(b[1]));
    } else if w == 4 {
      FourReencode(b);
    }
  }

  lemma {:induction false} FourReencode(b: Bytes)
    requires Utf8Width(b) == 4
    ensures EncodeScalar(ScalarAt(b)) == b[..4]
  {
    var c, lead := ScalarAt(b), b[0] as nat;
    var high := (lead - 0xF0) * 64 + Low(b[1]);
    SplitBits(c, high * 64 + Low(b[2]), Low(b[3]));
    SplitBits(c / 64, high, Low(b[2]));
    SplitBits(c / 4096, lead - 0xF0, Low(b[1]));
  }

  lemma {:induction false} EncodedHasWidth(c: Scalar, rest: Bytes)
    ensures Utf8Width(EncodeScalar(c) + rest) == |EncodeScalar(c)|
  {
    var b := EncodeScalar(c) + rest;
    if c < 0x800 {
      assert c < 0x80 ==> b[0] == c as byte;
    } else if c < 0x1_0000 {
      assert b[0] == (0xE0 + c / 4096) as byte && b[1] == Six(c / 64) && b[2] == Six(c);
    } else {
      FourHaveWidth(c, rest);
    }
  }

  lemma {:induction false} FourHaveWidth(c: Scalar, rest: Bytes)
    requires c >= 0x1_0000
    ensures Utf8Width(EncodeScalar(c) + rest) == 4
  {
    var b := EncodeScalar(c) + rest;
    assert b[0] == (0xF0 + c / 262144) as byte && b[1] == Six(c / 4096);
    assert b[2] == Six(c / 64) && b[3] == Six(c);
  }

  /** The text that well-formed bytes spell. */
  function DecodeAll(b: Bytes): seq<Scalar>
    requires ValidUtf8(b)
    decreases |b|
  {
    if |b| == 0 then [] else [ScalarAt(b)] + DecodeAll(b[Utf8Width(b)..])
  }

  lemma {:induction false} DecodeAllReencodes(b: Bytes)
    requires ValidUtf8(b)
    ensures EncodeAll(DecodeAll(b)) == b
    decreases |b|
  {
    hide Utf8Width, ScalarAt, EncodeScalar;
    if |b| > 0 {
      DecodedReencodes(b);
      DecodeAllReencodes(b[Utf8Width(b)..]);
      var text := DecodeAll(b);
      assert text[1..] == DecodeAll(b[Utf8Width(b)..]);
      assert b == b[..Utf8Width(b)] + b[Utf8Width(b)..];
    }
  }

  lemma {:induction false} EncodedIsValid(text: seq<Scalar>)
    ensures ValidUtf8(EncodeAll(text))
    decreases |text|
  {
    hide Utf8Width, EncodeScalar;
    if |text| > 0 {
      var first, rest := EncodeScalar(text[0]), EncodeAll(text[1..]);
      EncodedHasWidth(text[0], rest);
      EncodedIsValid(text[1..]);
      assert (first + rest)[|first|..] == rest;
    }
  }

  /** A name is accepted exactly when it is the encoding of some text. */
  lemma {:induction false} ValidIffEncoded(b: Bytes)
    ensures ValidUtf8(b) <==> exists text :: b == EncodeAll(text)
  {
    hide ValidUtf8, EncodeAll;
    if ValidUtf8(b) {
      DecodeAllReencodes(b);
    }
    if text :| b == EncodeAll(text) {
      EncodedIsValid(text);
    }
  }

  /** So an OFFER for any non-empty text that fits its length field is decoded as that offer. */
  lemma {:induction false} AnyTextCanBeOffered(o: FileOffer, text: seq<Scalar>)
    requires o.filename == EncodeAll(text) && EncodableOffer(o)
    ensures DecodeOffer(OfferBytes(o)) == Ok(o)
  {
    hide DecodeOffer, OfferBytes, EncodableOffer, EncodeAll;
    EncodedIsValid(text);
    OfferRoundTrip(o);
  }
}
