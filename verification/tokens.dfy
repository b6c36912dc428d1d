/** Token estimates (`countTokens`): the tokenizer's count when it works,
    otherwise a quarter of the text's UTF-8 byte length, rounded up. */
module Tokens {
  import opened Outcomes

  /** Bytes UTF-8 uses for one Unicode scalar value. */
  function Utf8Width(c: char): nat {
    if c as int < 0x80 then 1
    else if c as int < 0x800 then 2
    else if c as int < 0x1_0000 then 3
    else 4
  }

  /** `Buffer.byteLength(text, "utf8")`. */
  function Utf8Length(text: string): nat {
    if text == [] then 0 else Utf8Width(text[0]) + Utf8Length(text[1..])
  }

  /** Every character takes between one and four bytes. */
  lemma {:induction false} Utf8LengthBounds(text: string)
    ensures |text| <= Utf8Length(text) <= 4 * |text|
  {
    if text != [] {
      Utf8LengthBounds(text[1..]);
    }
  }

  /** The byte length of a concatenation is the sum of the byte lengths. */
  lemma {:induction false} Utf8LengthAppend(a: string, b: string)
    ensures Utf8Length(a + b) == Utf8Length(a) + Utf8Length(b)
  {
    if a == [] {
      assert a + b == b;
    } else {
      assert (a + b)[0] == a[0];
      assert (a + b)[1..] == a[1..] + b;
      Utf8LengthAppend(a[1..], b);
    }
  }

  /** ASCII text has one byte per character. */
  lemma {:induction false} AsciiUtf8Length(text: string)
    requires forall i :: 0 <= i < |text| ==> text[i] as int < 0x80
    ensures Utf8Length(text) == |text|
  {
    if text != [] {
      assert forall i :: 0 <= i < |text| - 1 ==> text[1..][i] == text[i + 1];
      AsciiUtf8Length(text[1..]);
    }
  }

  /** The fallback estimate `Math.ceil(bytes / 4)`: the least count whose four
      bytes per token cover the text. */
  function FallbackTokens(text: string): (n: nat)
    ensures 4 * n >= Utf8Length(text)
    ensures 4 * n < Utf8Length(text) + 4
    ensures text == [] ==> n == 0
  {
    (Utf8Length(text) + 3) / 4
  }

  /** The fallback never exceeds one token per character, nor falls below a
      quarter token per character. */
  lemma FallbackBetweenQuarterAndOnePerChar(text: string)
    ensures |text| <= 4 * FallbackTokens(text)
    ensures FallbackTokens(text) <= |text|
  {
    Utf8LengthBounds(text);
  }

  /** Estimating two texts separately never undercounts their concatenation. */
  lemma FallbackSubadditive(a: string, b: string)
    ensures FallbackTokens(a + b) <= FallbackTokens(a) + FallbackTokens(b)
  {
    Utf8LengthAppend(a, b);
  }

  /** The tokenizer as an opaque capability: the token count it produces for
      a text, or `None` when constructing or running it throws. */
  type Encoder = string -> Option<nat>

  /** `countTokens`: never fails; a tokenizer failure falls back to the
      byte-length estimate. */
  function CountTokens(encoder: Encoder, text: string): (n: nat)
    ensures encoder(text).Some? ==> n == encoder(text).value
    ensures encoder(text).None? ==> 4 * n >= Utf8Length(text) && 4 * n < Utf8Length(text) + 4
  {
    match encoder(text)
    case Some(count) => count
    case None => FallbackTokens(text)
  }

  /** Empty text costs no tokens whenever the tokenizer, if it works, counts
      no tokens for it. */
  lemma EmptyTextCostsNothing(encoder: Encoder)
    requires encoder([]).None? || encoder([]) == Some(0)
    ensures CountTokens(encoder, []) == 0
  {
  }
}
