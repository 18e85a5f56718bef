/** Cutting text to a number of UTF-8 bytes by binary search, without splitting a surrogate pair. */
module Utf8Slice {
  import opened Utf16

  /** Units of the longest prefix of at most `top` units that fits `maxBytes`; none when even the empty one does not. */
  function LongestFit(t: Text, maxBytes: int, top: nat): (k: nat)
    requires top <= |t|
    ensures k <= top
    ensures k == 0 || ByteLength(t[..k]) <= maxBytes
    ensures forall j :: k < j <= top ==> ByteLength(t[..j]) > maxBytes
  {
    if top == 0 || ByteLength(t[..top]) <= maxBytes then top else LongestFit(t, maxBytes, top - 1)
  }

  /** Units to drop, starting at `from`, so that the rest fits `maxBytes`. */
  function ShortestDrop(t: Text, maxBytes: nat, from: nat): (k: nat)
    requires from <= |t|
    ensures from <= k <= |t|
    ensures ByteLength(t[k..]) <= maxBytes
    ensures forall j :: from <= j < k ==> ByteLength(t[j..]) > maxBytes
    decreases |t| - from
  {
    if ByteLength(t[from..]) <= maxBytes then from else ShortestDrop(t, maxBytes, from + 1)
  }

  function PrefixWithin(t: Text, maxBytes: int): Text {
    var best := LongestFit(t, maxBytes, |t|);
    if best > 0 && High(t[best - 1]) then t[..best - 1] else t[..best]
  }

  function SuffixWithin(t: Text, maxBytes: int): Text {
    if maxBytes <= 0 then []
    else
      var best := ShortestDrop(t, maxBytes, 0);
      if best < |t| && Low(t[best]) then t[best + 1..] else t[best..]
  }

  method SliceUtf8ToByteLimit(content: Text, maxBytes: int) returns (r: Text)
    ensures r == PrefixWithin(content, maxBytes)
  {
    hide ByteLength, LongestFit;
    var low, high, best := 0, |content|, 0;
    while low <= high
      invariant 0 <= low <= high + 1 <= |content| + 1
      invariant best == if low == 0 then 0 else low - 1
      invariant best == 0 || ByteLength(content[..best]) <= maxBytes
      invariant forall k :: high < k <= |content| ==> ByteLength(content[..k]) > maxBytes
    {
      var middle := (low + high) / 2;
      var candidate := content[..middle];
      if ByteLength(candidate) <= maxBytes {
        best := middle;
        low := middle + 1;
      } else {
        forall k | middle < k <= |content|
          ensures ByteLength(content[..k]) > maxBytes
        {
          PrefixBytesIncrease(content, middle, k);
        }
        high := middle - 1;
      }
    }
    assert best == LongestFit(content, maxBytes, |content|);
    if best > 0 && High(content[best - 1]) {
      best := best - 1;
    }
    r := content[..best];
  }

  method SliceUtf8FromEnd(content: Text, maxBytes: int) returns (r: Text)
    ensures r == SuffixWithin(content, maxBytes)
  {
    hide ByteLength, ShortestDrop;
    if maxBytes <= 0 {
      return [];
    }
    var low, high, best := 0, |content|, |content|;
    assert content[best..] == [];
    EmptyBytes();
    while low <= high
      invariant 0 <= low <= high + 1 <= |content| + 1
      invariant best == if high == |content| then |content| else high + 1
      invariant ByteLength(content[best..]) <= maxBytes
      invariant forall k :: 0 <= k < low ==> ByteLength(content[k..]) > maxBytes
    {
      var middle := (low + high) / 2;
      if ByteLength(content[middle..]) <= maxBytes {
        best := middle;
        high := middle - 1;
      } else {
        assert middle < |content| by {
          assert content[|content|..] == [];
        }
        forall k | 0 <= k < middle
          ensures ByteLength(content[k..]) > maxBytes
        {
          SuffixBytesIncrease(content, k, middle);
        }
        low := middle + 1;
      }
    }
    SmallestDropIsShortest(content, maxBytes, best);
    if best < |content| && Low(content[best]) {
      best := best + 1;
    }
    r := content[best..];
  }

  lemma EmptyBytes()
    ensures ByteLength([]) == 0
  {
  }

  lemma SmallestDropIsShortest(t: Text, maxBytes: nat, k: nat)
    requires k <= |t| && ByteLength(t[k..]) <= maxBytes
    requires forall j :: 0 <= j < k ==> ByteLength(t[j..]) > maxBytes
    ensures ShortestDrop(t, maxBytes, 0) == k
  {
    assert ShortestDrop(t, maxBytes, 0) >= k;
  }

  /** On any text the cut is a prefix within the limit, at most one unit short of the longest, and splits no pair. */
  lemma PrefixCut(t: Text, maxBytes: nat)
    ensures var r := PrefixWithin(t, maxBytes);
      && r <= t
      && ByteLength(r) <= maxBytes
      && (r == t || |r| + 1 == |t| || ByteLength(t[..|r| + 2]) > maxBytes)
      && !(0 < |r| < |t| && High(t[|r| - 1]) && Low(t[|r|]))
  {
    var k := LongestFit(t, maxBytes, |t|);
    var r := PrefixWithin(t, maxBytes);
    assert r == t[..|r|];
    if |r| < k {
      PrefixBytesIncrease(t, |r|, k);
    }
  }

  /** The same for the suffix. */
  lemma SuffixCut(t: Text, maxBytes: nat)
    ensures var r := SuffixWithin(t, maxBytes);
      && |r| <= |t| && r == t[|t| - |r|..]
      && ByteLength(r) <= maxBytes
      && (r == t || |r| + 1 == |t| || ByteLength(t[|t| - |r| - 2..]) > maxBytes)
      && !(0 < |r| < |t| && High(t[|t| - |r| - 1]) && Low(t[|t| - |r|]))
  {
    if maxBytes > 0 {
      var k := ShortestDrop(t, maxBytes, 0);
      var r := SuffixWithin(t, maxBytes);
      if |t| - |r| > k {
        SuffixBytesIncrease(t, k, |t| - |r|);
      }
    }
  }

  /** On well-formed text the cut is the longest well-formed prefix within the limit. */
  lemma LongestWellFormedPrefix(t: Text, maxBytes: nat, k: nat)
    requires WellFormed(t)
    requires k <= |t|
    ensures WellFormed(PrefixWithin(t, maxBytes))
    ensures WellFormed(t[..k]) && ByteLength(t[..k]) <= maxBytes ==> k <= |PrefixWithin(t, maxBytes)|
  {
    PrefixCut(t, maxBytes);
    var r := PrefixWithin(t, maxBytes);
    if |r| > 0 {
      assert !High(t[|r| - 1]);
    }
    if WellFormed(t[..k]) && ByteLength(t[..k]) <= maxBytes && k > 0 {
      assert !High(t[..k][k - 1]);
    }
  }

  lemma NonEmptyHasBytes(t: Text)
    requires t != []
    ensures ByteLength(t) > 0
  {
  }

  /** On well-formed text the cut is the longest well-formed suffix within the limit. */
  lemma LongestWellFormedSuffix(t: Text, maxBytes: nat, k: nat)
    requires WellFormed(t)
    requires k <= |t|
    ensures WellFormed(SuffixWithin(t, maxBytes))
    ensures WellFormed(t[k..]) && ByteLength(t[k..]) <= maxBytes ==> |t| - k <= |SuffixWithin(t, maxBytes)|
  {
    hide ByteLength, ShortestDrop;
    SuffixCut(t, maxBytes);
    var r := SuffixWithin(t, maxBytes);
    var b := |t| - |r|;
    if k < |t| && WellFormed(t[k..]) && ByteLength(t[k..]) <= maxBytes {
      assert !Low(t[k..][0]);
      NonEmptyHasBytes(t[k..]);
    }
  }
}
