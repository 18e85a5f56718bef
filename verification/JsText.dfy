/** String operations of JavaScript that several components share. */
module JsText {

  /** The characters `\s` matches and `trim` removes. */
  predicate IsSpace(c: char) {
    || c == ' ' || '\t' <= c <= '\r' || c == '\U{A0}' || c == '\U{1680}' || '\U{2000}' <= c <= '\U{200A}'
    || c == '\U{2028}' || c == '\U{2029}' || c == '\U{202F}' || c == '\U{205F}' || c == '\U{3000}' || c == '\U{FEFF}'
  }

  function TrimStart(s: string): string {
    if s != "" && IsSpace(s[0]) then TrimStart(s[1..]) else s
  }

  predicate StartsWith(s: string, prefix: string) {
    |prefix| <= |s| && s[..|prefix|] == prefix
  }

  /** The first index where `pattern` occurs, or -1. */
  function IndexOf(s: string, pattern: string): (i: int)
    ensures -1 <= i <= |s|
    ensures i >= 0 ==> StartsWith(s[i..], pattern)
    ensures forall j :: 0 <= j < (if i < 0 then |s| else i) ==> !StartsWith(s[j..], pattern)
  {
    if StartsWith(s, pattern) then 0
    else if s == "" then -1
    else
      var i := IndexOf(s[1..], pattern);
      assert forall j :: 0 < j <= |s| ==> s[j..] == s[1..][j - 1..];
      if i < 0 then -1 else i + 1
  }

  function Split(s: string, separator: char): (parts: seq<string>)
    ensures |parts| > 0
  {
    if s == "" then [""]
    else
      var rest := Split(s[1..], separator);
      if s[0] == separator then [""] + rest else [[s[0]] + rest[0]] + rest[1..]
  }

  function Join(parts: seq<string>, separator: string): string {
    if parts == [] then ""
    else if |parts| == 1 then parts[0]
    else parts[0] + separator + Join(parts[1..], separator)
  }

  /** Trimming takes the white space at the start and nothing else. */
  lemma {:induction false} TrimStartTakesBlanks(s: string) returns (blanks: string)
    ensures s == blanks + TrimStart(s) && forall i :: 0 <= i < |blanks| ==> IsSpace(blanks[i])
    ensures TrimStart(s) != "" ==> !IsSpace(TrimStart(s)[0])
  {
    blanks := "";
    if s != "" && IsSpace(s[0]) {
      var rest := TrimStartTakesBlanks(s[1..]);
      blanks := [s[0]] + rest;
      assert [s[0]] + rest + TrimStart(s) == [s[0]] + (rest + TrimStart(s));
    } else {
      assert "" + s == s;
    }
  }

  lemma {:induction false} TrimStartOf(blanks: string, rest: string)
    requires (forall i :: 0 <= i < |blanks| ==> IsSpace(blanks[i])) && (rest != "" ==> !IsSpace(rest[0]))
    ensures TrimStart(blanks + rest) == rest
  {
    if blanks == "" {
      assert blanks + rest == rest;
    } else {
      assert (blanks + rest)[1..] == blanks[1..] + rest;
      TrimStartOf(blanks[1..], rest);
    }
  }

  lemma JoinCons(first: string, rest: seq<string>, separator: string)
    ensures Join([first] + rest, separator) == if rest == [] then first else first + separator + Join(rest, separator)
  {
    assert ([first] + rest)[1..] == rest;
  }

  lemma {:induction false} PartsHoldNoSeparator(s: string, separator: char)
    ensures forall i :: 0 <= i < |Split(s, separator)| ==> separator !in Split(s, separator)[i]
  {
    if s != "" {
      PartsHoldNoSeparator(s[1..], separator);
    }
  }

  /** The parts of a split text, joined by the separator, are the text. */
  lemma {:induction false} JoinInvertsSplit(s: string, separator: char)
    ensures Join(Split(s, separator), [separator]) == s
  {
    hide Join;
    if s == "" {
      JoinCons("", [], [separator]);
      assert [""] + [] == [""];
    } else {
      JoinInvertsSplit(s[1..], separator);
      var rest := Split(s[1..], separator);
      JoinSplitStep(s[0], rest, separator);
      assert s == [s[0]] + s[1..];
    }
  }

  lemma JoinSplitStep(c: char, rest: seq<string>, separator: char)
    requires rest != []
    ensures Join([""] + rest, [separator]) == [separator] + Join(rest, [separator])
    ensures Join([[c] + rest[0]] + rest[1..], [separator]) == [c] + Join(rest, [separator])
  {
    hide Join;
    JoinCons("", rest, [separator]);
    JoinCons(rest[0], rest[1..], [separator]);
    JoinCons([c] + rest[0], rest[1..], [separator]);
    assert rest == [rest[0]] + rest[1..];
    assert "" + [separator] == [separator];
    var joined := Join(rest[1..], [separator]);
    assert [c] + rest[0] + [separator] + joined == [c] + (rest[0] + [separator] + joined);
  }

  /** White space by its code points: tab to carriage return, space, and the rest of the Unicode spaces and line ends. */
  lemma SpacesAre(c: char)
    ensures IsSpace(c) <==> var n := c as int;
      9 <= n <= 13 || 0x2000 <= n <= 0x200A || n in {0x20, 0xA0, 0x1680, 0x2028, 0x2029, 0x202F, 0x205F, 0x3000, 0xFEFF}
  {
  }
}
