/** Native MCP function names, `<server key>0mcp0<tool segment>`: unambiguous, bounded, and resolved back to the tool. */
module McpNames {
  import opened Options
  import opened Utf16

  const SEPARATOR: Text := [48, 109, 99, 112, 48]  // "0mcp0"
  const MAX_NATIVE_TOOL_NAME_LENGTH := 64
  const TOOL_HASH_LENGTH := 8
  const MCP_SERVER_KEY_MAX_LENGTH := 50
  const COLLISION_SUFFIX_LENGTH := 6
  const UNDERSCORE: CodeUnit := 95

  predicate IsLetter(c: CodeUnit) {
    65 <= c <= 90 || 97 <= c <= 122
  }

  predicate IsHexDigit(c: CodeUnit) {
    48 <= c <= 57 || 97 <= c <= 102
  }

  /** What every provider accepts in a function name: letters, digits, `_` and `-`. */
  predicate IsNameChar(c: CodeUnit) {
    IsLetter(c) || 48 <= c <= 57 || c == UNDERSCORE || c == 45
  }

  predicate IsSafe(t: Text) {
    t != [] && forall i :: 0 <= i < |t| ==> IsNameChar(t[i])
  }

  predicate OccursAt(t: Text, i: nat) {
    Utf16.OccursAt(t, SEPARATOR, i)
  }

  /** `t.indexOf("0mcp0")`. */
  function IndexOfSeparator(t: Text): (i: int)
    ensures -1 <= i <= |t|
    ensures i >= 0 ==> OccursAt(t, i)
    ensures forall j: nat :: j < (if i < 0 then |t| else i) ==> !OccursAt(t, j)
  {
    IndexOf(t, SEPARATOR)
  }

  // Server keys

  function Sanitize(name: Text): (r: Text)
    ensures |r| == |name| && forall i :: 0 <= i < |r| ==> IsNameChar(r[i])
  {
    seq(|name|, i requires 0 <= i < |name| => if IsNameChar(name[i]) then name[i] else UNDERSCORE)
  }

  /** `t.split("0mcp0").join("_")`. */
  function ReplaceSeparators(t: Text): Text
    decreases |t|
  {
    if t == [] then []
    else if OccursAt(t, 0) then [UNDERSCORE] + ReplaceSeparators(t[|SEPARATOR|..])
    else [t[0]] + ReplaceSeparators(t[1..])
  }

  function KeepSeparatorBoundary(key: Text): Text
    requires key != []
  {
    if IndexOfSeparator(key + SEPARATOR) == |key| then key else key[..|key| - 1] + [UNDERSCORE]
  }

  function Lettered(t: Text): (r: Text)
    ensures r != [] && IsLetter(r[0])
  {
    if t != [] && IsLetter(t[0]) then t else [109, UNDERSCORE] + t
  }

  function Take(t: Text, n: nat): Text {
    if |t| <= n then t else t[..n]
  }

  function DeriveMcpServerKey(name: Text): Text {
    KeepSeparatorBoundary(Take(Lettered(ReplaceSeparators(Sanitize(name))), MCP_SERVER_KEY_MAX_LENGTH))
  }

  /** A digest in lower-case hexadecimal. */
  predicate IsDigest(d: Text) {
    |d| == 64 && forall i :: 0 <= i < |d| ==> IsHexDigit(d[i])
  }

  function Candidate(base: Text, digest: Text, offset: nat): Text
    requires offset + COLLISION_SUFFIX_LENGTH <= |digest|
  {
    KeepSeparatorBoundary(Take(base, MCP_SERVER_KEY_MAX_LENGTH - COLLISION_SUFFIX_LENGTH - 1)
                          + [UNDERSCORE] + digest[offset..offset + COLLISION_SUFFIX_LENGTH])
  }

  /** The base key when it is free, else the first free candidate, if there is one. */
  ghost predicate IsUniqueKey(name: Text, digest: Text, taken: set<Text>, r: Option<Text>) {
    var base := DeriveMcpServerKey(name);
    if base !in taken then r == Some(base)
    else match r
      case Some(key) =>
        && key !in taken
        && exists offset: nat ::
          && offset + COLLISION_SUFFIX_LENGTH <= |digest| && key == Candidate(base, digest, offset)
          && forall o: nat :: o < offset ==> Candidate(base, digest, o) in taken
      case None =>
        forall offset: nat :: offset + COLLISION_SUFFIX_LENGTH <= |digest| ==> Candidate(base, digest, offset) in taken
  }

  method DeriveUniqueMcpServerKey(name: Text, digest: Text, taken: set<Text>) returns (r: Option<Text>)
    requires IsDigest(digest)
    ensures IsUniqueKey(name, digest, taken, r)
    ensures r.Some? ==> IsServerKey(r.value)
  {
    hide IsServerKey, DeriveMcpServerKey, Candidate;
    var base := DeriveMcpServerKey(name);
    DerivedKeyIsServerKey(name);
    if base !in taken {
      return Some(base);
    }
    var offset := 0;
    while offset + COLLISION_SUFFIX_LENGTH <= |digest|
      invariant offset <= |digest|
      invariant forall o: nat :: o < offset && o + COLLISION_SUFFIX_LENGTH <= |digest| ==> Candidate(base, digest, o) in taken
    {
      var candidate := Candidate(base, digest, offset);
      if candidate !in taken {
        CandidateIsServerKey(base, digest, offset);
        return Some(candidate);
      }
      offset := offset + 1;
    }
    return None;
  }

  /** What a key must be for names built from it: short, safe, and split from any segment at the first separator. */
  ghost predicate IsServerKey(key: Text) {
    && 1 <= |key| <= MCP_SERVER_KEY_MAX_LENGTH && IsLetter(key[0]) && IsSafe(key)
    && Free(key) && IndexOfSeparator(key + SEPARATOR) == |key|
  }

  ghost predicate Free(t: Text) {
    forall i: nat :: !OccursAt(t, i)
  }

  lemma FreeAroundUnderscore(a: Text, b: Text)
    requires Free(a) && Free(b)
    ensures Free(a + [UNDERSCORE] + b)
  {
    var t := a + [UNDERSCORE] + b;
    forall i: nat
      ensures !OccursAt(t, i)
    {
      if i + |SEPARATOR| <= |t| {
        var part := t[i..i + |SEPARATOR|];
        if i + |SEPARATOR| <= |a| {
          assert part == a[i..i + |SEPARATOR|];
          assert !OccursAt(a, i);
        } else if i > |a| {
          assert part == b[i - |a| - 1..i - |a| - 1 + |SEPARATOR|];
          assert !OccursAt(b, i - |a| - 1);
        } else {
          assert part[|a| - i] == t[|a|] == UNDERSCORE && UNDERSCORE !in SEPARATOR;
        }
      }
    }
  }

  lemma FreePrefix(t: Text, n: nat)
    requires Free(t) && n <= |t|
    ensures Free(t[..n])
  {
    forall i: nat | i + |SEPARATOR| <= n
      ensures !OccursAt(t[..n], i)
    {
      assert t[..n][i..i + |SEPARATOR|] == t[i..i + |SEPARATOR|];
      assert !OccursAt(t, i);
    }
  }

  /** A start of the result without `_` is copied from the text. */
  lemma {:induction false} CopiedStart(t: Text, k: nat)
    requires k <= |ReplaceSeparators(t)|
    requires forall i :: 0 <= i < k ==> ReplaceSeparators(t)[i] != UNDERSCORE
    ensures k <= |t| && ReplaceSeparators(t)[..k] == t[..k]
  {
    if k > 0 {
      var rest := ReplaceSeparators(t[1..]);
      assert ReplaceSeparators(t)[0] != UNDERSCORE;
      assert forall i :: 0 <= i < k - 1 ==> rest[i] == ReplaceSeparators(t)[i + 1];
      CopiedStart(t[1..], k - 1);
      assert ReplaceSeparators(t)[..k] == [t[0]] + rest[..k - 1];
      assert t[..k] == [t[0]] + t[1..][..k - 1];
    }
  }

  lemma {:induction false} ReplacedIsFree(t: Text)
    ensures Free(ReplaceSeparators(t))
    decreases |t|
  {
    if t == [] {
    } else if OccursAt(t, 0) {
      ReplacedIsFree(t[|SEPARATOR|..]);
      FreeAroundUnderscore([], ReplaceSeparators(t[|SEPARATOR|..]));
      assert [] + [UNDERSCORE] + ReplaceSeparators(t[|SEPARATOR|..]) == ReplaceSeparators(t);
    } else {
      var r := ReplaceSeparators(t);
      ReplacedIsFree(t[1..]);
      forall i: nat
        ensures !OccursAt(r, i)
      {
        if i > 0 && i + |SEPARATOR| <= |r| {
          assert r[i..i + |SEPARATOR|] == ReplaceSeparators(t[1..])[i - 1..i - 1 + |SEPARATOR|];
          assert !OccursAt(ReplaceSeparators(t[1..]), i - 1);
        } else if i == 0 && OccursAt(r, 0) {
          CopiedStart(t, |SEPARATOR|);
        }
      }
    }
  }

  lemma {:induction false} ReplacedIsSafe(t: Text)
    requires forall i :: 0 <= i < |t| ==> IsNameChar(t[i])
    ensures forall i :: 0 <= i < |ReplaceSeparators(t)| ==> IsNameChar(ReplaceSeparators(t)[i])
    decreases |t|
  {
    if t != [] {
      ReplacedIsSafe(if OccursAt(t, 0) then t[|SEPARATOR|..] else t[1..]);
    }
  }

  /** Replacing the last character where it overlaps the separator leaves a key whose separator comes right after it. */
  lemma BoundaryKept(key: Text)
    requires key != [] && IsLetter(key[0]) && IsSafe(key) && Free(key)
    requires |key| <= MCP_SERVER_KEY_MAX_LENGTH
    ensures IsServerKey(KeepSeparatorBoundary(key))
  {
    var r := KeepSeparatorBoundary(key);
    assert (key + SEPARATOR)[|key|..|key| + |SEPARATOR|] == SEPARATOR;
    assert OccursAt(key + SEPARATOR, |key|);
    if IndexOfSeparator(key + SEPARATOR) != |key| {
      var stem := key[..|key| - 1];
      FreePrefix(key, |key| - 1);
      FreeAroundUnderscore(stem, []);
      assert stem + [UNDERSCORE] + [] == r;
      assert (key + SEPARATOR)[0..|SEPARATOR|][0] == key[0];
      assert IndexOfSeparator(key + SEPARATOR) != 0;
      UnderscoreBoundary(stem);
    }
  }

  lemma UnderscoreBoundary(stem: Text)
    requires Free(stem)
    ensures IndexOfSeparator(stem + [UNDERSCORE] + SEPARATOR) == |stem| + 1
  {
    var t := stem + [UNDERSCORE] + SEPARATOR;
    assert t[|stem| + 1..|stem| + 1 + |SEPARATOR|] == SEPARATOR;
    forall i: nat | i <= |stem|
      ensures !OccursAt(t, i)
    {
      if i + |SEPARATOR| <= |stem| {
        assert t[i..i + |SEPARATOR|] == stem[i..i + |SEPARATOR|];
        assert !OccursAt(stem, i);
      } else if i + |SEPARATOR| <= |t| {
        assert t[i..i + |SEPARATOR|][|stem| - i] == UNDERSCORE;
      }
    }
    assert OccursAt(t, |stem| + 1);
  }

  lemma DerivedKeyIsServerKey(name: Text)
    ensures IsServerKey(DeriveMcpServerKey(name))
  {
    var replaced := ReplaceSeparators(Sanitize(name));
    ReplacedIsFree(Sanitize(name));
    ReplacedIsSafe(Sanitize(name));
    var lettered := Lettered(replaced);
    FreeAroundUnderscore([109], replaced);
    assert [109] + [UNDERSCORE] + replaced == [109, UNDERSCORE] + replaced;
    if |lettered| > MCP_SERVER_KEY_MAX_LENGTH {
      FreePrefix(lettered, MCP_SERVER_KEY_MAX_LENGTH);
    }
    BoundaryKept(Take(lettered, MCP_SERVER_KEY_MAX_LENGTH));
  }

  lemma HexIsFree(t: Text)
    requires forall i :: 0 <= i < |t| ==> IsHexDigit(t[i])
    ensures Free(t)
  {
    forall i: nat | i + |SEPARATOR| <= |t|
      ensures !OccursAt(t, i)
    {
      assert IsHexDigit(t[i + 1]) && t[i..i + |SEPARATOR|][1] == t[i + 1];
      assert SEPARATOR[1] == 109;
    }
  }

  lemma CandidateIsServerKey(base: Text, digest: Text, offset: nat)
    requires IsServerKey(base) && IsDigest(digest) && offset + COLLISION_SUFFIX_LENGTH <= |digest|
    ensures IsServerKey(Candidate(base, digest, offset))
  {
    var n := MCP_SERVER_KEY_MAX_LENGTH - COLLISION_SUFFIX_LENGTH - 1;
    var stem, suffix := Take(base, n), digest[offset..offset + COLLISION_SUFFIX_LENGTH];
    if |base| > n {
      FreePrefix(base, n);
    }
    HexIsFree(suffix);
    FreeAroundUnderscore(stem, suffix);
    BoundaryKept(stem + [UNDERSCORE] + suffix);
  }

  // What a key says of its name

  /** A letter, digit, `_` or `-` stays in its place, any other character becomes `_`. */
  lemma SafeCharactersStay(name: Text, i: nat)
    requires i < |name|
    ensures |Sanitize(name)| == |name|
    ensures var c, safe := name[i], (c: int) => 48 <= c <= 57 || 65 <= c <= 90 || 97 <= c <= 122 || c == 95 || c == 45;
      Sanitize(name)[i] == if safe(c) then c else 95
  {
  }

  lemma {:induction false} FreeTextStays(t: Text)
    requires Free(t)
    ensures ReplaceSeparators(t) == t
  {
    if t != [] {
      assert !OccursAt(t, 0);
      FreeSuffix(t, 1);
      FreeTextStays(t[1..]);
    }
  }

  lemma FreeSuffix(t: Text, n: nat)
    requires Free(t) && n <= |t|
    ensures Free(t[n..])
  {
    forall i: nat | i + |SEPARATOR| <= |t| - n
      ensures !OccursAt(t[n..], i)
    {
      assert t[n..][i..i + |SEPARATOR|] == t[n + i..n + i + |SEPARATOR|];
      assert !OccursAt(t, n + i);
    }
  }

  /** A separator in the name becomes `_`, the first one first. */
  lemma {:induction false} FirstSeparatorReplaced(a: Text, b: Text)
    requires forall i: nat :: i < |a| ==> !OccursAt(a + SEPARATOR + b, i)
    ensures ReplaceSeparators(a + SEPARATOR + b) == a + [UNDERSCORE] + ReplaceSeparators(b)
  {
    var t := a + SEPARATOR + b;
    if a == [] {
      assert t[0..|SEPARATOR|] == SEPARATOR && t[|SEPARATOR|..] == b;
      assert OccursAt(t, 0);
    } else {
      var rest := a[1..] + SEPARATOR + b;
      assert t[1..] == rest && !OccursAt(t, 0);
      forall i: nat | i < |a| - 1
        ensures !OccursAt(rest, i)
      {
        assert !OccursAt(t, i + 1);
        assert i + |SEPARATOR| <= |rest| ==> rest[i..i + |SEPARATOR|] == t[i + 1..i + 1 + |SEPARATOR|];
      }
      FirstSeparatorReplaced(a[1..], b);
    }
  }

  /** Whether a text ends in "0mcp", the one start of the separator that its first character may follow. */
  predicate EndsLikeSeparator(t: Text) {
    |t| >= 4 && t[|t| - 4..] == [48, 109, 99, 112]
  }

  /** The last character is replaced exactly in a key that ends in "0mcp". */
  lemma BoundaryExactly(key: Text)
    requires key != [] && Free(key)
    ensures KeepSeparatorBoundary(key) == if EndsLikeSeparator(key) then key[..|key| - 1] + [UNDERSCORE] else key
  {
    var t := key + SEPARATOR;
    assert t[|key|..|key| + |SEPARATOR|] == SEPARATOR;
    assert OccursAt(t, |key|);
    if EndsLikeSeparator(key) {
      var i := |key| - 4;
      assert t[i..i + |SEPARATOR|] == key[i..] + [48];
      assert OccursAt(t, i);
    } else {
      forall i: nat | i < |key|
        ensures !OccursAt(t, i)
      {
        NoEarlierSeparator(key, i);
      }
    }
  }

  lemma NoEarlierSeparator(key: Text, i: nat)
    requires Free(key) && i < |key| && !EndsLikeSeparator(key)
    ensures !OccursAt(key + SEPARATOR, i)
  {
    var t, n := key + SEPARATOR, |key| - i;
    assert !OccursAt(key, i);
    if n >= |SEPARATOR| {
      assert t[i..i + |SEPARATOR|] == key[i..i + |SEPARATOR|];
    } else {
      assert t[i..i + |SEPARATOR|] == key[i..] + SEPARATOR[..|SEPARATOR| - n];
      OverlapIs(key[i..], n);
      assert n == 4 ==> key[i..] == key[|key| - 4..];
    }
  }

  /** The separator overlaps itself in its first character only. */
  lemma OverlapIs(start: Text, n: nat)
    requires 0 < n < |SEPARATOR| && |start| == n
    ensures start + SEPARATOR[..|SEPARATOR| - n] == SEPARATOR ==> n == 4 && start == [48, 109, 99, 112]
  {
    var t := start + SEPARATOR[..|SEPARATOR| - n];
    assert t[n] == 48 && (n != 4 ==> SEPARATOR[n] != 48);
    assert t == SEPARATOR && n == 4 ==> start == SEPARATOR[..4];
  }

  /**
   A key is its server's name: sanitised, separators replaced, `m_` in front when it does not start with a letter, cut to
   50 characters, and its last character `_` when it would end in "0mcp".
   */
  lemma DerivedFromName(name: Text)
    ensures var s := ReplaceSeparators(Sanitize(name));
      var lettered := if s != [] && (65 <= s[0] <= 90 || 97 <= s[0] <= 122) then s else [109, 95] + s;
      var cut := if |lettered| <= 50 then lettered else lettered[..50];
      DeriveMcpServerKey(name) == if EndsLikeSeparator(cut) then cut[..|cut| - 1] + [95] else cut
  {
    var s := ReplaceSeparators(Sanitize(name));
    ReplacedIsFree(Sanitize(name));
    FreeAroundUnderscore([109], s);
    assert [109] + [UNDERSCORE] + s == [109, UNDERSCORE] + s;
    var lettered := Lettered(s);
    if |lettered| > 50 {
      FreePrefix(lettered, 50);
    }
    BoundaryExactly(Take(lettered, 50));
  }

  /**
   A name of at most 50 safe characters that starts with a letter, holds no separator and does not end in "0mcp" is its
   own key.
   */
  lemma PlainNameIsKey(name: Text)
    requires name != [] && (65 <= name[0] <= 90 || 97 <= name[0] <= 122) && |name| <= 50
    requires forall i :: 0 <= i < |name| ==>
      48 <= name[i] <= 57 || 65 <= name[i] <= 90 || 97 <= name[i] <= 122 || name[i] == 95 || name[i] == 45
    requires Free(name) && !EndsLikeSeparator(name)
    ensures DeriveMcpServerKey(name) == name
  {
    assert Sanitize(name) == name;
    FreeTextStays(name);
    DerivedFromName(name);
  }

  /** A candidate is the start of the base key, `_`, and six digits of the digest from its offset on. */
  lemma CandidateIs(base: Text, digest: Text, offset: nat)
    requires IsServerKey(base) && IsDigest(digest) && offset + 6 <= |digest|
    ensures Candidate(base, digest, offset) == (if |base| <= 43 then base else base[..43]) + [95] + digest[offset..offset + 6]
  {
    var stem, suffix := Take(base, 43), digest[offset..offset + 6];
    CandidateIsServerKey(base, digest, offset);
    if |base| > 43 {
      FreePrefix(base, 43);
    }
    HexIsFree(suffix);
    FreeAroundUnderscore(stem, suffix);
    var key := stem + [UNDERSCORE] + suffix;
    assert key[|key| - 1] == suffix[5] && IsHexDigit(suffix[5]);
    assert key[|key| - 4..][3] == key[|key| - 1];
    BoundaryExactly(key);
  }

  // Names

  function HashedToolSegment(sha256: Text -> Text, tool: Text): Text {
    [UNDERSCORE] + Take(sha256(tool), TOOL_HASH_LENGTH)
  }

  predicate IsHashedSegment(segment: Text) {
    |segment| == 1 + TOOL_HASH_LENGTH && segment[0] == UNDERSCORE && forall i :: 1 <= i < |segment| ==> IsHexDigit(segment[i])
  }

  /** Whether a tool is named as it is. */
  predicate IsLiteral(key: Text, tool: Text) {
    |key + SEPARATOR + tool| <= MAX_NATIVE_TOOL_NAME_LENGTH && IsSafe(tool)
  }

  function ToolSegment(sha256: Text -> Text, key: Text, tool: Text): Text {
    if IsLiteral(key, tool) then tool else HashedToolSegment(sha256, tool)
  }

  function NativeMcpToolName(sha256: Text -> Text, key: Text, tool: Text): Text {
    key + SEPARATOR + ToolSegment(sha256, key, tool)
  }

  /**
   A tool of safe characters is named as it is when the whole name has at most 64 of them, any other by `_` and eight
   digits of its hash.
   */
  lemma ToolIsNamed(sha256: Text -> Text, key: Text, tool: Text)
    requires IsDigest(sha256(tool))
    ensures var safe := (c: int) => 48 <= c <= 57 || 65 <= c <= 90 || 97 <= c <= 122 || c == 95 || c == 45;
      NativeMcpToolName(sha256, key, tool) == key + [48, 109, 99, 112, 48] +
        if |key| + 5 + |tool| <= 64 && tool != [] && forall i :: 0 <= i < |tool| ==> safe(tool[i]) then tool
        else [95] + sha256(tool)[..8]
  {
  }

  /** Split a native name at its first separator, as the decoder does. */
  function Decode(name: Text): Option<(Text, Text)> {
    var marker := IndexOfSeparator(name);
    if marker < 0 then None else Some((name[..marker], name[marker + |SEPARATOR|..]))
  }

  function FindHashed(sha256: Text -> Text, segment: Text, tools: seq<Text>): (r: Option<Text>)
    ensures r.Some? ==> r.value in tools && HashedToolSegment(sha256, r.value) == segment
  {
    if tools == [] then None
    else if HashedToolSegment(sha256, tools[0]) == segment then Some(tools[0])
    else FindHashed(sha256, segment, tools[1..])
  }

  function ResolveMcpToolSegment(sha256: Text -> Text, segment: Text, tools: seq<Text>): Text {
    if !IsHashedSegment(segment) || segment in tools then segment
    else
      var found := FindHashed(sha256, segment, tools);
      if found.Some? then found.value else segment
  }

  ghost predicate IsHash(sha256: Text -> Text) {
    forall t {:trigger sha256(t)} :: IsDigest(sha256(t))
  }

  lemma HashedSegmentFits(sha256: Text -> Text, key: Text, tool: Text)
    requires IsHash(sha256) && |key| <= MCP_SERVER_KEY_MAX_LENGTH
    ensures var segment := HashedToolSegment(sha256, tool);
      IsHashedSegment(segment) && IsLiteral(key, segment)
  {
    assert IsDigest(sha256(tool));
  }

  /** A name is at most 64 safe characters, starts with a letter, and splits into exactly its key and its segment. */
  lemma NameIsBoundedAndDecodes(sha256: Text -> Text, key: Text, tool: Text)
    requires IsHash(sha256) && IsServerKey(key)
    ensures var name := NativeMcpToolName(sha256, key, tool);
      && |name| <= MAX_NATIVE_TOOL_NAME_LENGTH && IsSafe(name) && IsLetter(name[0])
      && Decode(name) == Some((key, ToolSegment(sha256, key, tool)))
  {
    HashedSegmentFits(sha256, key, tool);
    var segment := ToolSegment(sha256, key, tool);
    SeparatorAfterKey(key, segment);
    var name := key + SEPARATOR + segment;
    assert name[..|key|] == key && name[|key| + |SEPARATOR|..] == segment;
  }

  lemma SeparatorAfterKey(key: Text, segment: Text)
    requires IsServerKey(key)
    ensures IndexOfSeparator(key + SEPARATOR + segment) == |key|
  {
    var name := key + SEPARATOR + segment;
    assert name[|key|..|key| + |SEPARATOR|] == SEPARATOR;
    assert OccursAt(name, |key|);
    forall i: nat | i < |key|
      ensures !OccursAt(name, i)
    {
      assert name[i..i + |SEPARATOR|] == (key + SEPARATOR)[i..i + |SEPARATOR|];
      assert !OccursAt(key + SEPARATOR, i);
    }
  }

  /** The segment of a tool resolves to it exactly when nothing else claims that segment first. */
  lemma SegmentResolves(sha256: Text -> Text, key: Text, tools: seq<Text>, k: nat)
    requires IsHash(sha256) && IsServerKey(key)
    requires k < |tools| && tools[k] !in tools[..k]
    ensures var tool, hashed := tools[k], HashedToolSegment(sha256, tools[k]);
      ResolveMcpToolSegment(sha256, ToolSegment(sha256, key, tool), tools) == tool
      <==> IsLiteral(key, tool)
           || (hashed !in tools && forall j :: 0 <= j < k ==> HashedToolSegment(sha256, tools[j]) != hashed)
  {
    HashedSegmentFits(sha256, key, tools[k]);
    FirstHashedIsFound(sha256, tools, k);
  }

  /** A segment that no listed tool claims is returned as it is, and so is a tool's own name, whatever it looks like. */
  lemma UnclaimedSegmentStays(sha256: Text -> Text, segment: Text, tools: seq<Text>)
    requires segment in tools || forall t :: t in tools ==> [95] + Take(sha256(t), 8) != segment
    ensures ResolveMcpToolSegment(sha256, segment, tools) == segment
  {
  }

  /** A tool that must be hashed is not reached when another is named as its hashed segment: the latter wins. */
  lemma NameOfHashWins(sha256: Text -> Text, key: Text, tool: Text)
    requires IsHash(sha256) && IsServerKey(key) && !IsLiteral(key, tool)
    ensures var hashed := HashedToolSegment(sha256, tool);
      ResolveMcpToolSegment(sha256, ToolSegment(sha256, key, tool), [tool, hashed]) == hashed != tool
  {
    HashedSegmentFits(sha256, key, tool);
  }

  lemma {:induction false} FirstHashedIsFound(sha256: Text -> Text, tools: seq<Text>, k: nat)
    requires k < |tools| && tools[k] !in tools[..k]
    ensures var hashed := HashedToolSegment(sha256, tools[k]);
      FindHashed(sha256, hashed, tools) == Some(tools[k])
      <==> forall j :: 0 <= j < k ==> HashedToolSegment(sha256, tools[j]) != hashed
    ensures FindHashed(sha256, HashedToolSegment(sha256, tools[k]), tools).Some?
  {
    if k > 0 {
      assert tools[..k][0] == tools[0];
      assert tools[1..][..k - 1] == tools[..k][1..];
      FirstHashedIsFound(sha256, tools[1..], k - 1);
      assert forall j :: 0 < j < k ==> tools[j] == tools[1..][j - 1];
    }
  }

  /** A call by native name reaches its server and tool, for tools without a shared hash prefix or a tool named like one. */
  lemma CallReachesTool(sha256: Text -> Text, key: Text, tools: seq<Text>, k: nat)
    requires IsHash(sha256) && IsServerKey(key) && k < |tools|
    requires forall i, j :: 0 <= i < j < |tools| ==>
      tools[i] != tools[j] && HashedToolSegment(sha256, tools[i]) != HashedToolSegment(sha256, tools[j])
    requires forall i, j :: 0 <= i < |tools| && 0 <= j < |tools| && i != j ==> tools[i] != HashedToolSegment(sha256, tools[j])
    ensures var decoded := Decode(NativeMcpToolName(sha256, key, tools[k]));
      && decoded.Some? && decoded.value.0 == key
      && ResolveMcpToolSegment(sha256, decoded.value.1, tools) == tools[k]
  {
    NameIsBoundedAndDecodes(sha256, key, tools[k]);
    HashedSegmentFits(sha256, key, tools[k]);
    SegmentResolves(sha256, key, tools, k);
  }
}
