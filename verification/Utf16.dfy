/**
 Text as JavaScript strings hold it: UTF-16 code units, surrogates included, paired or not
 (section 2 of RFC 2781), together with the size of its UTF-8 encoding (section 3 of RFC 3629).
 */
module Utf16 {

  type CodeUnit = n: int | 0 <= n < 0x10000
  type Text = seq<CodeUnit>

  const NEWLINE: CodeUnit := 10

  predicate OccursAt(t: Text, pattern: Text, i: nat) {
    i + |pattern| <= |t| && t[i..i + |pattern|] == pattern
  }

  /** The first index from `from` on where `pattern` occurs, or -1. */
  function IndexOf(t: Text, pattern: Text, from: nat := 0): (i: int)
    requires from <= |t|
    ensures i == -1 || from <= i <= |t|
    ensures i >= 0 ==> OccursAt(t, pattern, i)
    ensures forall j: nat :: from <= j < (if i < 0 then |t| else i) ==> !OccursAt(t, pattern, j)
    decreases |t| - from
  {
    if OccursAt(t, pattern, from) then from else if from == |t| then -1 else IndexOf(t, pattern, from + 1)
  }

  predicate High(c: CodeUnit) {
    0xD800 <= c <= 0xDBFF
  }

  predicate Low(c: CodeUnit) {
    0xDC00 <= c <= 0xDFFF
  }

  /** Every surrogate is half of a pair. */
  ghost predicate WellFormed(t: Text) {
    && (forall i :: 0 <= i < |t| && High(t[i]) ==> i + 1 < |t| && Low(t[i + 1]))
    && (forall i :: 0 <= i < |t| && Low(t[i]) ==> 0 < i && High(t[i - 1]))
  }

  /** A unit on its own; a lone surrogate is encoded as the three bytes of U+FFFD. */
  function UnitBytes(c: CodeUnit): nat {
    if c < 0x80 then 1 else if c < 0x800 then 2 else 3
  }

  /** `Buffer.byteLength(t, "utf8")`: a surrogate pair is one four-byte scalar value. */
  function ByteLength(t: Text): nat {
    if t == [] then 0
    else if |t| >= 2 && High(t[0]) && Low(t[1]) then 4 + ByteLength(t[2..])
    else UnitBytes(t[0]) + ByteLength(t[1..])
  }

  // The encoding itself

  /** The scalar values of a text; a lone surrogate stands for U+FFFD. */
  function Scalars(t: Text): seq<nat> {
    if t == [] then []
    else if |t| >= 2 && High(t[0]) && Low(t[1]) then [0x10000 + (t[0] as int - 0xD800) * 0x400 + (t[1] as int - 0xDC00)] + Scalars(t[2..])
    else [if High(t[0]) || Low(t[0]) then 0xFFFD else t[0]] + Scalars(t[1..])
  }

  /** The bytes of a scalar value, by the table of section 3 of RFC 3629. */
  function Utf8(scalar: nat): seq<int> {
    if scalar < 0x80 then [scalar]
    else if scalar < 0x800 then [0xC0 + scalar / 64, 0x80 + scalar % 64]
    else if scalar < 0x10000 then [0xE0 + scalar / 4096, 0x80 + scalar / 64 % 64, 0x80 + scalar % 64]
    else [0xF0 + scalar / 262144, 0x80 + scalar / 4096 % 64, 0x80 + scalar / 64 % 64, 0x80 + scalar % 64]
  }

  function Encoded(scalars: seq<nat>): seq<int> {
    if scalars == [] then [] else Utf8(scalars[0]) + Encoded(scalars[1..])
  }

  function ReadUtf8(bytes: seq<int>): int {
    if |bytes| == 1 then bytes[0]
    else if |bytes| == 2 then (bytes[0] - 0xC0) * 64 + bytes[1] - 0x80
    else if |bytes| == 3 then ((bytes[0] - 0xE0) * 64 + bytes[1] - 0x80) * 64 + bytes[2] - 0x80
    else if |bytes| == 4 then (((bytes[0] - 0xF0) * 64 + bytes[1] - 0x80) * 64 + bytes[2] - 0x80) * 64 + bytes[3] - 0x80
    else -1
  }

  /** The encoding of a scalar value reads back, and its bytes are bytes. */
  lemma Utf8ReadsBack(scalar: nat)
    requires scalar < 0x110000
    ensures ReadUtf8(Utf8(scalar)) == scalar && forall i :: 0 <= i < |Utf8(scalar)| ==> 0 <= Utf8(scalar)[i] < 256
  {
    var high := scalar / 64;
    assert scalar == 64 * high + scalar % 64 && high == 64 * (high / 64) + high % 64;
    assert scalar / 4096 == high / 64 && scalar / 262144 == high / 64 / 64;
  }

  /** The byte length is the number of bytes of the encoded text. */
  lemma {:induction false} ByteLengthIsUtf8(t: Text)
    ensures ByteLength(t) == |Encoded(Scalars(t))|
  {
    if t != [] {
      ByteLengthIsUtf8(if |t| >= 2 && High(t[0]) && Low(t[1]) then t[2..] else t[1..]);
    }
  }

  /** A string literal of ASCII characters. */
  function Ascii(s: string): (t: Text)
    requires forall i :: 0 <= i < |s| ==> s[i] < '\U{80}'
    ensures |t| == |s| && IsAscii(t)
  {
    seq(|s|, i requires 0 <= i < |s| => s[i] as int)
  }

  predicate IsAscii(t: Text) {
    forall i :: 0 <= i < |t| ==> t[i] < 0x80
  }

  /** The bytes two texts lose when a pair is split between them: three plus three instead of four. */
  function SplitPairBytes(a: Text, b: Text): nat {
    if a != [] && b != [] && High(a[|a| - 1]) && Low(b[0]) then 2 else 0
  }

  lemma {:induction false} ConcatBytes(a: Text, b: Text)
    ensures ByteLength(a + b) == ByteLength(a) + ByteLength(b) - SplitPairBytes(a, b)
    decreases |a|
  {
    if a == [] {
      assert a + b == b;
    } else if |a| >= 2 && High(a[0]) && Low(a[1]) {
      assert (a + b)[2..] == a[2..] + b;
      ConcatBytes(a[2..], b);
    } else {
      assert (a + b)[1..] == a[1..] + b;
      ConcatBytes(a[1..], b);
    }
  }

  lemma {:induction false} AsciiBytes(t: Text)
    requires IsAscii(t)
    ensures ByteLength(t) == |t|
  {
    if t != [] {
      AsciiBytes(t[1..]);
    }
  }

  /** No pair is split beside an ASCII text. */
  lemma AsciiConcatBytes(a: Text, t: Text, b: Text)
    requires IsAscii(a) && IsAscii(b)
    ensures ByteLength(a + t + b) == |a| + ByteLength(t) + |b|
  {
    ConcatBytes(a + t, b);
    ConcatBytes(a, t);
    AsciiBytes(a);
    AsciiBytes(b);
  }

  lemma NonEmptyBytes(t: Text)
    ensures ByteLength(t) == 0 <==> t == []
  {
  }

  /** Longer prefixes take strictly more bytes, even where the extra unit completes a pair. */
  lemma PrefixBytesIncrease(t: Text, i: nat, j: nat)
    requires i < j <= |t|
    ensures ByteLength(t[..i]) < ByteLength(t[..j])
  {
    assert t[..j] == t[..i] + t[i..j];
    ConcatBytes(t[..i], t[i..j]);
  }

  /** Longer suffixes take strictly more bytes. */
  lemma SuffixBytesIncrease(t: Text, i: nat, j: nat)
    requires i < j <= |t|
    ensures ByteLength(t[j..]) < ByteLength(t[i..])
  {
    assert t[i..] == t[i..j] + t[j..];
    ConcatBytes(t[i..j], t[j..]);
    if SplitPairBytes(t[i..j], t[j..]) == 2 {
      PrefixBytesIncrease(t[i..j], j - i - 1, j - i);
      var m := t[i..j];
      assert m == m[..|m| - 1] + [m[|m| - 1]];
      ConcatBytes(m[..|m| - 1], [m[|m| - 1]]);
      assert ByteLength([m[|m| - 1]]) == 3;
    }
  }
}
