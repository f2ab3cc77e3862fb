/** Go strings are UTF-8 byte sequences: `len(s)` counts bytes, and an index
    into a string is a byte offset. The model's strings are sequences of
    Unicode scalar values; `ByteLen` is the length Go sees. */
module Utf8 {
  /** The number of bytes UTF-8 uses for one code point. */
  function Width(c: char): (w: nat)
    ensures 1 <= w <= 4
    ensures w == 1 <==> (c as int) < 0x80
  {
    if (c as int) < 0x80 then 1
    else if (c as int) < 0x800 then 2
    else if (c as int) < 0x10000 then 3
    else 4
  }

  /** Go's `len` of the UTF-8 encoding of `s`. */
  function ByteLen(s: string): nat
    decreases |s|
  {
    if s == [] then 0 else ByteLen(s[..|s| - 1]) + Width(s[|s| - 1])
  }

  /** The encoding of a concatenation is the concatenation of the encodings. */
  lemma {:induction false} ByteLenAppend(a: string, b: string)
    ensures ByteLen(a + b) == ByteLen(a) + ByteLen(b)
    decreases |b|
  {
    if b == [] {
      assert a + b == a;
    } else {
      var ab := a + b;
      assert ab[..|ab| - 1] == a + b[..|b| - 1];
      assert ab[|ab| - 1] == b[|b| - 1];
      ByteLenAppend(a, b[..|b| - 1]);
    }
  }

  /** Every code point takes one to four bytes. */
  lemma {:induction false} ByteLenBounds(s: string)
    ensures |s| <= ByteLen(s) <= 4 * |s|
    ensures ByteLen(s) == 0 <==> s == []
    decreases |s|
  {
    if s != [] {
      ByteLenBounds(s[..|s| - 1]);
    }
  }

  /** Go's byte length equals the character count exactly for ASCII text. */
  lemma {:induction false} ByteLenIsLengthIffAscii(s: string)
    ensures ByteLen(s) == |s| <==> forall i :: 0 <= i < |s| ==> (s[i] as int) < 0x80
    decreases |s|
  {
    if s != [] {
      var init := s[..|s| - 1];
      ByteLenIsLengthIffAscii(init);
      ByteLenBounds(init);
      assert forall i :: 0 <= i < |init| ==> s[i] == init[i];
    }
  }

  /** An ASCII separator adds one byte between the two sides. */
  lemma ByteLenAround(a: string, c: char, b: string)
    requires (c as int) < 0x80
    ensures ByteLen(a + [c] + b) == ByteLen(a) + 1 + ByteLen(b)
  {
    ByteLenAppend(a + [c], b);
    ByteLenAppend(a, [c]);
    assert [c][1..] == [];
  }

  /** `s` encodes to one or two bytes: a single code point below U+0800, or
      two ASCII characters. */
  predicate OneOrTwoBytes(s: string) {
    (|s| == 1 && Width(s[0]) <= 2) || (|s| == 2 && Width(s[0]) == 1 && Width(s[1]) == 1)
  }

  /** `OneOrTwoBytes` is the byte-length test `1 <= len(s) <= 2`. */
  lemma OneOrTwoBytesMeaning(s: string)
    ensures OneOrTwoBytes(s) <==> 1 <= ByteLen(s) <= 2
  {
    ByteLenBounds(s);
    if |s| >= 1 {
      ByteLenBounds(s[..|s| - 1]);
    }
    if |s| == 2 {
      assert s[..1][..0] == [];
      assert ByteLen(s[..1]) == Width(s[0]);
    }
  }

}
