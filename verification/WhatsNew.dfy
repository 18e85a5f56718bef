/** The inline Markdown of a What's New item: bold, code and https links, and nothing that would render literally. */
module WhatsNew {
  import opened JsText
  import opened Options

  datatype Inline = Text(text: string) | Strong(text: string) | Code(text: string) | Link(text: string, href: string)

  datatype Result = Ok(runs: seq<Inline>) | UnsupportedSyntax | ImageLink | NotHttps

  predicate IsLabelChar(c: char) {
    c != '*' && c != '`' && c != '[' && c != ']'
  }

  predicate IsCodeChar(c: char) {
    c != '`'
  }

  predicate IsHrefChar(c: char) {
    c != ')' && !IsSpace(c)
  }

  /** The length of the longest start of `s` in a character class. */
  function Span(s: string, inClass: char -> bool): (n: nat)
    ensures n <= |s| && (forall i :: 0 <= i < n ==> inClass(s[i])) && (n < |s| ==> !inClass(s[n]))
  {
    if s == "" || !inClass(s[0]) then 0 else 1 + Span(s[1..], inClass)
  }

  /** Each character class ends before the marker that must follow, so the longest run is the only one that can match. */
  function StrongAt(s: string): (r: Option<(Inline, nat)>)
    ensures r.Some? ==> r.value.1 <= |s|
  {
    if !StartsWith(s, "**") then None
    else
      var n := Span(s[2..], IsLabelChar);
      if n > 0 && StartsWith(s[2 + n..], "**") then Some((Strong(s[2..2 + n]), n + 4)) else None
  }

  function CodeAt(s: string): (r: Option<(Inline, nat)>)
    ensures r.Some? ==> r.value.1 <= |s|
  {
    if !StartsWith(s, "`") then None
    else
      var n := Span(s[1..], IsCodeChar);
      if n > 0 && StartsWith(s[1 + n..], "`") then Some((Code(s[1..1 + n]), n + 2)) else None
  }

  function LinkAt(s: string): (r: Option<(Inline, nat)>)
    ensures r.Some? ==> r.value.1 <= |s|
  {
    if !StartsWith(s, "[") then None
    else
      var n := Span(s[1..], IsLabelChar);
      if n == 0 || !StartsWith(s[1 + n..], "](") then None
      else
        var m := Span(s[3 + n..], IsHrefChar);
        if m > 0 && StartsWith(s[3 + n + m..], ")") then Some((Link(s[1..1 + n], s[3 + n..3 + n + m]), n + m + 4)) else None
  }

  /** The inline token at the start of `s`, and its length. */
  function TokenAt(s: string): (r: Option<(Inline, nat)>)
    ensures r.Some? ==> 0 < r.value.1 <= |s|
  {
    if StrongAt(s).Some? then StrongAt(s) else if CodeAt(s).Some? then CodeAt(s) else LinkAt(s)
  }

  predicate IsLetter(c: char) {
    'A' <= c <= 'Z' || 'a' <= c <= 'z'
  }

  predicate IsAlphanumeric(c: char) {
    IsLetter(c) || '0' <= c <= '9'
  }

  predicate IsEntityAt(s: string) {
    && StartsWith(s, "&")
    && var from := if StartsWith(s, "&#") then 2 else 1;
       var n := Span(s[from..], IsAlphanumeric);
       n > 0 && StartsWith(s[from + n..], ";")
  }

  /** Markup outside the supported subset, at the start of `s`. */
  predicate IsUnsupportedAt(s: string) {
    || StartsWith(s, "*") || StartsWith(s, "`") || StartsWith(s, "](") || StartsWith(s, "~~")
    || (|s| > 1 && s[0] == '<' && (IsLetter(s[1]) || s[1] == '/' || s[1] == '!'))
    || IsEntityAt(s)
  }

  predicate IsUnsupported(s: string) {
    s != "" && (IsUnsupportedAt(s) || IsUnsupported(s[1..]))
  }

  /** The parser from position `p` on, with the text since `cursor` pending. */
  function ParseFrom(text: string, cursor: nat, p: nat): Result
    requires cursor <= p <= |text|
    decreases |text| - p
  {
    if p == |text| then
      if IsUnsupported(text[cursor..]) then UnsupportedSyntax
      else Ok(PushText(text[cursor..]))
    else
      var token := TokenAt(text[p..]);
      if token == None then ParseFrom(text, cursor, p + 1)
      else if IsUnsupported(text[cursor..p]) then UnsupportedSyntax
      else if token.value.0.Link? && p > 0 && text[p - 1] == '!' then ImageLink
      else if token.value.0.Link? && !StartsWith(token.value.0.href, "https://") then NotHttps
      else
        var rest := ParseFrom(text, p + token.value.1, p + token.value.1);
        if rest.Ok? then Ok(PushText(text[cursor..p]) + [token.value.0] + rest.runs) else rest
  }

  function PushText(value: string): seq<Inline> {
    if value == "" then [] else [Text(value)]
  }

  /** The next token at or after `from`, as the global regular expression finds it. */
  method NextMatch(text: string, from: nat) returns (start: nat, token: Option<(Inline, nat)>)
    requires from <= |text|
    ensures from <= start <= |text|
    ensures token.Some? ==> start < |text| && token == TokenAt(text[start..])
    ensures token == None ==> start == |text|
    ensures forall k :: from <= k < start ==> TokenAt(text[k..]) == None
    ensures forall cursor: nat :: cursor <= from ==> ParseFrom(text, cursor, from) == ParseFrom(text, cursor, start)
  {
    hide TokenAt, IsUnsupported, PushText, StartsWith;
    start, token := from, None;
    while start < |text|
      invariant from <= start <= |text|
      invariant forall k :: from <= k < start ==> TokenAt(text[k..]) == None
      invariant forall cursor: nat :: cursor <= from ==> ParseFrom(text, cursor, from) == ParseFrom(text, cursor, start)
    {
      token := TokenAt(text[start..]);
      if token.Some? {
        return;
      }
      start := start + 1;
    }
    token := None;
  }

  lemma TokenDecides(text: string, cursor: nat, start: nat)
    requires cursor <= start < |text| && TokenAt(text[start..]).Some?
    ensures var token := TokenAt(text[start..]).value;
      ParseFrom(text, cursor, start) ==
        if IsUnsupported(text[cursor..start]) then UnsupportedSyntax
        else if token.0.Link? && start > 0 && text[start - 1] == '!' then ImageLink
        else if token.0.Link? && !StartsWith(token.0.href, "https://") then NotHttps
        else
          var rest := ParseFrom(text, start + token.1, start + token.1);
          if rest.Ok? then Ok(PushText(text[cursor..start]) + [token.0] + rest.runs) else rest
  {
    hide TokenAt, IsUnsupported, PushText, StartsWith;
  }

  lemma ParseAtEnd(text: string, cursor: nat)
    requires cursor <= |text|
    ensures ParseFrom(text, cursor, |text|) ==
      if IsUnsupported(text[cursor..]) then UnsupportedSyntax else Ok(PushText(text[cursor..]))
  {
  }

  method ParseInline(text: string) returns (r: Result)
    ensures r == ParseFrom(text, 0, 0)
  {
    hide ParseFrom, TokenAt, IsUnsupported, PushText, StartsWith;
    var runs: seq<Inline>, cursor: nat := [], 0;
    var start, token := NextMatch(text, 0);
    while token.Some?
      invariant cursor <= start <= |text|
      invariant token.Some? ==> start < |text| && token == TokenAt(text[start..])
      invariant token == None ==> start == |text|
      invariant var rest := ParseFrom(text, cursor, start);
        ParseFrom(text, 0, 0) == if rest.Ok? then Ok(runs + rest.runs) else rest
      decreases |text| - start
    {
      TokenDecides(text, cursor, start);
      ghost var before := runs;
      var pending, run := text[cursor..start], token.value.0;
      if IsUnsupported(pending) {
        return UnsupportedSyntax;
      }
      runs := runs + PushText(pending);
      if run.Link? {
        if start > 0 && text[start - 1] == '!' {
          return ImageLink;
        }
        if !StartsWith(run.href, "https://") {
          return NotHttps;
        }
      }
      runs := runs + [run];
      cursor := start + token.value.1;
      ghost var after := ParseFrom(text, cursor, cursor);
      assert after.Ok? ==> runs + after.runs == before + (PushText(pending) + [run] + after.runs);
      start, token := NextMatch(text, cursor);
    }
    ParseAtEnd(text, cursor);
    if IsUnsupported(text[cursor..]) {
      return UnsupportedSyntax;
    }
    return Ok(runs + PushText(text[cursor..]));
  }

  // Printing

  function PrintRun(run: Inline): string {
    match run
    case Text(text) => text
    case Strong(text) => "**" + text + "**"
    case Code(text) => "`" + text + "`"
    case Link(text, href) => "[" + text + "](" + href + ")"
  }

  function Print(runs: seq<Inline>): string {
    if runs == [] then "" else PrintRun(runs[0]) + Print(runs[1..])
  }

  ghost predicate AllIn(s: string, inClass: char -> bool) {
    s != "" && forall i :: 0 <= i < |s| ==> inClass(s[i])
  }

  ghost predicate IsLegal(run: Inline) {
    match run
    case Text(text) => text != "" && !IsUnsupported(text)
    case Strong(text) => AllIn(text, IsLabelChar)
    case Code(text) => AllIn(text, IsCodeChar)
    case Link(text, href) => AllIn(text, IsLabelChar) && AllIn(href, IsHrefChar) && StartsWith(href, "https://")
  }

  /** Whether `next` may follow `run`: texts do not meet, and no text turns a link into an image. */
  ghost predicate MayFollow(run: Inline, next: Inline) {
    run.Text? && run.text != "" ==> !next.Text? && (next.Link? ==> run.text[|run.text| - 1] != '!')
  }

  ghost predicate IsCanonical(runs: seq<Inline>) {
    && (forall i :: 0 <= i < |runs| ==> IsLegal(runs[i]))
    && (forall i :: 0 <= i < |runs| - 1 ==> MayFollow(runs[i], runs[i + 1]))
  }

  lemma StrongPrints(s: string)
    requires StrongAt(s).Some?
    ensures var (run, n) := StrongAt(s).value; s[..n] == PrintRun(run) && run.Strong? && IsLegal(run)
  {
    var n := Span(s[2..], IsLabelChar);
    assert s[2 + n..][..2] == s[2 + n..n + 4];
    assert s[..n + 4] == s[..2] + s[2..2 + n] + s[2 + n..n + 4];
  }

  lemma CodePrints(s: string)
    requires CodeAt(s).Some?
    ensures var (run, n) := CodeAt(s).value; s[..n] == PrintRun(run) && run.Code? && IsLegal(run)
  {
    var n := Span(s[1..], IsCodeChar);
    assert s[1 + n..][..1] == s[1 + n..n + 2];
    assert s[..n + 2] == s[..1] + s[1..1 + n] + s[1 + n..n + 2];
  }

  lemma LinkPieces(s: string, n: nat, m: nat)
    requires n + m + 4 <= |s|
    ensures s[..n + m + 4] == s[..1] + s[1..1 + n] + s[1 + n..][..2] + s[3 + n..3 + n + m] + s[3 + n + m..][..1]
  {
  }

  lemma LinkParts(s: string) returns (n: nat, m: nat)
    requires LinkAt(s).Some?
    ensures 0 < n && 0 < m && n + m + 4 <= |s|
    ensures LinkAt(s) == Some((Link(s[1..1 + n], s[3 + n..3 + n + m]), n + m + 4))
    ensures AllIn(s[1..1 + n], IsLabelChar) && AllIn(s[3 + n..3 + n + m], IsHrefChar)
    ensures s[..1] == "[" && s[1 + n..][..2] == "](" && s[3 + n + m..][..1] == ")"
  {
    hide IsHrefChar, IsLabelChar;
    n := Span(s[1..], IsLabelChar);
    m := Span(s[3 + n..], IsHrefChar);
  }

  lemma LinkPrints(s: string)
    requires LinkAt(s).Some?
    ensures var (run, n) := LinkAt(s).value;
      s[..n] == PrintRun(run) && run.Link? && (StartsWith(run.href, "https://") ==> IsLegal(run))
  {
    hide LinkAt, AllIn, StartsWith;
    var n, m := LinkParts(s);
    LinkPieces(s, n, m);
  }

  /** A token is exactly what its run prints. */
  lemma TokenPrints(s: string)
    requires TokenAt(s).Some?
    ensures var (run, n) := TokenAt(s).value;
      s[..n] == PrintRun(run) && !run.Text? && ((run.Link? ==> StartsWith(run.href, "https://")) ==> IsLegal(run))
  {
    hide StrongAt, CodeAt, LinkAt, IsLegal, PrintRun;
    if StrongAt(s).Some? {
      StrongPrints(s);
    } else if CodeAt(s).Some? {
      CodePrints(s);
    } else {
      LinkPrints(s);
    }
  }

  /** The run of a class is as long as it is made to be: up to the first character outside the class. */
  lemma {:induction false} SpanOf(body: string, rest: string, inClass: char -> bool)
    requires forall i :: 0 <= i < |body| ==> inClass(body[i])
    requires rest != "" ==> !inClass(rest[0])
    ensures Span(body + rest, inClass) == |body|
  {
    if body == "" {
      assert body + rest == rest;
    } else {
      assert (body + rest)[1..] == body[1..] + rest;
      SpanOf(body[1..], rest, inClass);
    }
  }

  lemma StrongIsToken(text: string, rest: string)
    requires AllIn(text, IsLabelChar)
    ensures TokenAt(PrintRun(Strong(text)) + rest) == Some((Strong(text), |text| + 4))
  {
    var s := PrintRun(Strong(text)) + rest;
    assert s[2..] == text + ("**" + rest) && s[..2] == "**";
    SpanOf(text, "**" + rest, IsLabelChar);
    assert s[2 + |text|..][..2] == "**" && s[2..2 + |text|] == text;
  }

  lemma CodeIsToken(text: string, rest: string)
    requires AllIn(text, IsCodeChar)
    ensures TokenAt(PrintRun(Code(text)) + rest) == Some((Code(text), |text| + 2))
  {
    var s := PrintRun(Code(text)) + rest;
    assert s[0] == '`' && s[..2][0] != "**"[0];
    assert s[1..] == text + ("`" + rest) && s[..1] == "`";
    SpanOf(text, "`" + rest, IsCodeChar);
    assert s[1 + |text|..][..1] == "`" && s[1..1 + |text|] == text;
  }

  lemma FirstCharDecides(s: string)
    requires s != ""
    ensures s[0] != '*' ==> StrongAt(s) == None
    ensures s[0] != '`' ==> CodeAt(s) == None
    ensures s[0] != '[' ==> LinkAt(s) == None
  {
    assert s[..1][0] == s[0];
    assert |s| >= 2 ==> s[..2][0] == s[0];
  }

  lemma LinkSpans(s: string, n: nat, m: nat)
    requires 0 < n && 0 < m && n + m + 4 <= |s| && s[..1] == "[" && s[1 + n..][..2] == "](" && s[3 + n + m..][..1] == ")"
    requires Span(s[1..], IsLabelChar) == n && Span(s[3 + n..], IsHrefChar) == m
    ensures LinkAt(s) == Some((Link(s[1..1 + n], s[3 + n..3 + n + m]), n + m + 4))
  {
    hide Span;
  }

  /** Where a part stands in a text. */
  lemma Part(before: string, part: string, behind: string)
    ensures var s := before + part + behind;
      s[|before|..] == part + behind && s[|before|..|before| + |part|] == part && s[|before| + |part|..] == behind
  {
  }

  lemma LinkLayout(s: string, text: string, href: string, rest: string)
    requires s == "[" + text + "](" + href + ")" + rest
    ensures s[..1] == "[" && s[1..] == text + ("](" + href + ")" + rest) && s[1..1 + |text|] == text
    ensures s[1 + |text|..][..2] == "](" && s[3 + |text|..] == href + (")" + rest)
    ensures s[3 + |text|..3 + |text| + |href|] == href && s[3 + |text| + |href|..][..1] == ")"
  {
    var last := ")" + rest;
    var after := href + last;
    var middle := "](" + after;
    Reassociated(text, href, rest);
    Part("[", text, middle);
    Part("[" + text, "](", after);
    Part("[" + text + "](", href, last);
    assert middle[..2] == "](" && last[..1] == ")";
  }

  lemma Reassociated(text: string, href: string, rest: string)
    ensures var s, after := "[" + text + "](" + href + ")" + rest, href + (")" + rest);
      && s == "[" + text + ("](" + after) && s == "[" + text + "](" + after && s == "[" + text + "](" + href + (")" + rest)
    ensures "](" + href + ")" + rest == "](" + (href + (")" + rest))
  {
  }

  lemma LinkIsToken(text: string, href: string, rest: string)
    requires AllIn(text, IsLabelChar) && AllIn(href, IsHrefChar)
    ensures TokenAt(PrintRun(Link(text, href)) + rest) == Some((Link(text, href), |text| + |href| + 4))
  {
    hide StrongAt, CodeAt, LinkAt, Span;
    var s := PrintRun(Link(text, href)) + rest;
    LinkLayout(s, text, href, rest);
    FirstCharDecides(s);
    SpanOf(text, "](" + href + ")" + rest, IsLabelChar);
    SpanOf(href, ")" + rest, IsHrefChar);
    LinkSpans(s, |text|, |href|);
  }

  /** A printed run, whatever follows it, is read back as its token. */
  lemma PrintedIsToken(run: Inline, rest: string)
    requires IsLegal(run) && !run.Text?
    ensures TokenAt(PrintRun(run) + rest) == Some((run, |PrintRun(run)|))
  {
    hide TokenAt;
    match run
    case Strong(text) => StrongIsToken(text, rest);
    case Code(text) => CodeIsToken(text, rest);
    case Link(text, href) => LinkIsToken(text, href, rest);
  }

  // Printing a parse reproduces the text

  lemma {:induction false} PrintConcat(a: seq<Inline>, b: seq<Inline>)
    ensures Print(a + b) == Print(a) + Print(b)
  {
    if a == [] {
      assert a + b == b;
    } else {
      assert (a + b)[1..] == a[1..] + b;
      PrintConcat(a[1..], b);
    }
  }

  lemma PrintCons(run: Inline, rest: seq<Inline>)
    ensures Print([run] + rest) == PrintRun(run) + Print(rest)
  {
    assert ([run] + rest)[1..] == rest;
  }

  lemma PrintPushed(pending: string)
    ensures Print(PushText(pending)) == pending
  {
    EmptyPrint();
    if pending != "" {
      PrintCons(Text(pending), []);
      assert [Text(pending)] + [] == [Text(pending)] && pending + "" == pending;
    }
  }

  lemma PrintPiece(pending: string, run: Inline, rest: seq<Inline>)
    ensures Print(PushText(pending) + [run] + rest) == pending + PrintRun(run) + Print(rest)
  {
    hide Print, PrintRun, PushText;
    PrintPushed(pending);
    assert PushText(pending) + [run] + rest == PushText(pending) + ([run] + rest);
    PrintConcat(PushText(pending), [run] + rest);
    PrintCons(run, rest);
  }

  /** What the parser accepts from a position prints as the pending text and the rest. */
  lemma {:induction false} ParsedPrints(text: string, cursor: nat, p: nat)
    requires cursor <= p <= |text| && ParseFrom(text, cursor, p).Ok?
    ensures Print(ParseFrom(text, cursor, p).runs) == text[cursor..]
    decreases |text| - p
  {
    hide TokenAt, PushText, IsUnsupported, Print, PrintRun;
    if p == |text| {
      PrintPushed(text[cursor..]);
    } else if TokenAt(text[p..]) == None {
      ParsedPrints(text, cursor, p + 1);
    } else {
      var (run, n) := TokenAt(text[p..]).value;
      TokenPrints(text[p..]);
      ParsedPrints(text, p + n, p + n);
      PrintPiece(text[cursor..p], run, ParseFrom(text, p + n, p + n).runs);
      assert text[cursor..] == text[cursor..p] + text[p..][..n] + text[p + n..];
    }
  }

  lemma {:induction false} ParsedIsCanonical(text: string, cursor: nat, p: nat)
    requires cursor <= p <= |text| && ParseFrom(text, cursor, p).Ok?
    ensures IsCanonical(ParseFrom(text, cursor, p).runs)
    decreases |text| - p
  {
    hide TokenAt, IsUnsupported, IsCanonical, IsLegal, PushText;
    if p == |text| {
      CanonicalText(text[cursor..]);
    } else if TokenAt(text[p..]) == None {
      ParsedIsCanonical(text, cursor, p + 1);
    } else {
      var (run, n) := TokenAt(text[p..]).value;
      TokenPrints(text[p..]);
      ParsedIsCanonical(text, p + n, p + n);
      CanonicalPiece(text[cursor..p], run, ParseFrom(text, p + n, p + n).runs);
    }
  }

  lemma CanonicalText(pending: string)
    requires !IsUnsupported(pending)
    ensures IsCanonical(PushText(pending))
  {
  }

  lemma CanonicalCons(run: Inline, rest: seq<Inline>)
    requires IsLegal(run) && IsCanonical(rest) && (rest != [] ==> MayFollow(run, rest[0]))
    ensures IsCanonical([run] + rest)
  {
    hide IsLegal, MayFollow;
    var all := [run] + rest;
    assert forall i :: 0 < i < |all| ==> all[i] == rest[i - 1];
  }

  lemma CanonicalPiece(pending: string, run: Inline, rest: seq<Inline>)
    requires IsLegal(run) && !run.Text? && IsCanonical(rest) && !IsUnsupported(pending)
    requires run.Link? && pending != "" ==> pending[|pending| - 1] != '!'
    ensures IsCanonical(PushText(pending) + [run] + rest)
  {
    hide IsUnsupported, IsCanonical;
    CanonicalCons(run, rest);
    if pending == "" {
      assert PushText(pending) + [run] + rest == [run] + rest;
    } else {
      CanonicalCons(Text(pending), [run] + rest);
      assert PushText(pending) + [run] + rest == [Text(pending)] + ([run] + rest);
    }
  }

  /** Printing what the parser accepts gives back the text, and what it accepts is canonical. */
  lemma PrintInvertsParse(text: string)
    requires ParseFrom(text, 0, 0).Ok?
    ensures Print(ParseFrom(text, 0, 0).runs) == text && IsCanonical(ParseFrom(text, 0, 0).runs)
  {
    ParsedPrints(text, 0, 0);
    ParsedIsCanonical(text, 0, 0);
  }

  // Parsing a printed list gives back the list

  /** The first character of whatever may follow a text: a token's, or nothing. */
  ghost predicate StartsToken(rest: string) {
    rest == "" || rest[0] == '*' || rest[0] == '`' || rest[0] == '['
  }

  /** No token starts inside a legal text. */
  lemma NoTokenInText(text: string, rest: string)
    requires text != "" && !IsUnsupported(text) && StartsToken(rest)
    ensures TokenAt(text + rest) == None
  {
    hide StrongAt, CodeAt, LinkAt, IsUnsupported;
    var s := text + rest;
    UnsupportedInside(text, 0);
    assert text[..1] == [text[0]] && text[0..] == text;
    FirstCharDecides(s);
    if s[0] == '[' {
      NoLinkInText(text, rest);
    }
  }

  lemma NoLinkInText(text: string, rest: string)
    requires text != "" && text[0] == '[' && !IsUnsupported(text) && StartsToken(rest)
    ensures LinkAt(text + rest) == None
  {
    hide IsUnsupported;
    var s := text + rest;
    var n := Span(s[1..], IsLabelChar);
    assert |text| < |s| ==> s[|text|] == rest[0];
    assert n < |text|;
    if n > 0 && StartsWith(s[1 + n..], "](") {
      assert s[1 + n..][..2][0] == s[1 + n] == ']' && s[1 + n..][..2][1] == s[2 + n] == '(';
      if 2 + n < |text| {
        assert text[1 + n..][..2] == s[1 + n..][..2];
        UnsupportedInside(text, 1 + n);
      }
      assert false;
    }
  }

  lemma {:induction false} UnsupportedInside(text: string, k: nat)
    requires k < |text| && !IsUnsupported(text)
    ensures !IsUnsupportedAt(text[k..]) && !IsUnsupported(text[k..])
  {
    if k > 0 {
      UnsupportedInside(text[1..], k - 1);
      assert text[1..][k - 1..] == text[k..];
    }
  }

  lemma NoTokenDecides(text: string, cursor: nat, p: nat)
    requires cursor <= p < |text| && TokenAt(text[p..]) == None
    ensures ParseFrom(text, cursor, p) == ParseFrom(text, cursor, p + 1)
  {
  }

  /** Scanning through a legal text up to the next token changes nothing but the position. */
  lemma {:induction false} ScanText(text: string, cursor: nat, p: nat, end: nat)
    requires cursor <= p <= end <= |text|
    requires !IsUnsupported(text[cursor..end]) && StartsToken(text[end..])
    ensures ParseFrom(text, cursor, p) == ParseFrom(text, cursor, end)
    decreases end - p
  {
    hide ParseFrom, TokenAt, IsUnsupported, StartsToken;
    if p < end {
      UnsupportedInside(text[cursor..end], p - cursor);
      assert text[cursor..end][p - cursor..] == text[p..end];
      NoTokenInText(text[p..end], text[end..]);
      assert text[p..end] + text[end..] == text[p..];
      NoTokenDecides(text, cursor, p);
      ScanText(text, cursor, p + 1, end);
    }
  }

  ghost predicate LinkMayFollow(before: string, runs: seq<Inline>) {
    runs != [] && runs[0].Link? && before != "" ==> before[|before| - 1] != '!'
  }

  lemma TailIsCanonical(runs: seq<Inline>)
    requires IsCanonical(runs) && runs != []
    ensures IsCanonical(runs[1..]) && IsLegal(runs[0]) && (|runs| > 1 ==> MayFollow(runs[0], runs[1]))
  {
    hide IsLegal, MayFollow;
  }

  lemma PrintOfTail(runs: seq<Inline>)
    requires IsCanonical(runs)
    ensures runs != [] ==> Print(runs) == PrintRun(runs[0]) + Print(runs[1..])
    ensures runs == [] || !runs[0].Text? ==> StartsToken(Print(runs))
    ensures runs != [] && !runs[0].Text? ==> PrintRun(runs[0]) != "" && PrintRun(runs[0])[|PrintRun(runs[0])| - 1] != '!'
  {
  }

  lemma EmptyIsSupported()
    ensures !IsUnsupported("")
  {
  }

  /** Parsing a printed canonical list that starts with a token, with a legal text pending before it. */
  lemma {:induction false} PrintedParsesBehind(before: string, pending: string, runs: seq<Inline>)
    requires IsCanonical(runs) && (runs != [] ==> !runs[0].Text?)
    requires !IsUnsupported(pending) && LinkMayFollow(before + pending, runs)
    ensures ParseFrom(before + pending + Print(runs), |before|, |before + pending|) == Ok(PushText(pending) + runs)
    decreases |runs|, 0
  {
    hide TokenAt, IsUnsupported, Print, PrintRun, PushText, IsCanonical, StartsToken, ParseFrom;
    var text, p := before + pending + Print(runs), |before + pending|;
    PrintOfTail(runs);
    assert text[|before|..p] == pending;
    if runs == [] {
      EmptyPrint();
      assert text[|before|..] == pending && PushText(pending) + [] == PushText(pending);
      ParseAtEnd(text, |before|);
    } else {
      var run, rest := runs[0], runs[1..];
      TailIsCanonical(runs);
      assert text[p..] == PrintRun(run) + Print(rest);
      PrintedIsToken(run, Print(rest));
      var before' := before + pending + PrintRun(run);
      assert text == before' + Print(rest) && |before'| == p + |PrintRun(run)|;
      assert p > 0 ==> text[p - 1] == (before + pending)[p - 1];
      PrintedParses(before', rest);
      ParseAtToken(text, |before|, p, run, |PrintRun(run)|, rest);
      assert PushText(pending) + [run] + rest == PushText(pending) + runs;
    }
  }

  lemma ParseAtToken(text: string, cursor: nat, p: nat, run: Inline, n: nat, rest: seq<Inline>)
    requires cursor <= p < |text| && TokenAt(text[p..]) == Some((run, n))
    requires !IsUnsupported(text[cursor..p]) && IsLegal(run) && (run.Link? && p > 0 ==> text[p - 1] != '!')
    requires ParseFrom(text, p + n, p + n) == Ok(rest)
    ensures ParseFrom(text, cursor, p) == Ok(PushText(text[cursor..p]) + [run] + rest)
  {
    hide TokenAt, IsUnsupported, PushText;
  }

  lemma EmptyPrint()
    ensures Print([]) == ""
  {
  }

  lemma LinkAfterText(before: string, runs: seq<Inline>)
    requires runs != [] && runs[0].Text? && IsLegal(runs[0]) && (|runs| > 1 ==> MayFollow(runs[0], runs[1]))
    ensures LinkMayFollow(before + runs[0].text, runs[1..]) && (|runs| > 1 ==> !runs[1].Text?)
    ensures !IsUnsupported(runs[0].text) && runs[0].text != "" && PrintRun(runs[0]) == runs[0].text
  {
    hide IsUnsupported;
    var t := runs[0].text;
    assert (before + t)[|before + t| - 1] == t[|t| - 1];
  }

  /** Parsing a printed canonical list behind a prefix that does not turn its first link into an image. */
  lemma {:induction false} PrintedParses(before: string, runs: seq<Inline>)
    requires IsCanonical(runs) && LinkMayFollow(before, runs)
    ensures ParseFrom(before + Print(runs), |before|, |before|) == Ok(runs)
    decreases |runs|, 1
  {
    hide TokenAt, IsUnsupported, Print, PushText, IsCanonical, StartsToken, ParseFrom, MayFollow, IsLegal, PrintRun;
    if runs != [] && runs[0].Text? {
      var t, rest := runs[0].text, runs[1..];
      TailIsCanonical(runs);
      LinkAfterText(before, runs);
      PrintOfTail(runs);
      PrintOfTail(rest);
      var text, end := before + Print(runs), |before + t|;
      assert text == before + t + Print(rest) && text[|before|..end] == t && text[end..] == Print(rest);
      ScanText(text, |before|, |before|, end);
      PrintedParsesBehind(before, t, rest);
      PushedText(t);
      assert [Text(t)] + rest == runs;
    } else {
      EmptyIsSupported();
      assert before + "" == before;
      PrintedParsesBehind(before, "", runs);
      PushedText("");
      assert [] + runs == runs;
    }
  }

  lemma PushedText(t: string)
    ensures PushText(t) == if t == "" then [] else [Text(t)]
  {
  }

  /** Parsing what a canonical list prints gives back the list: with `PrintInvertsParse`, a bijection. */
  lemma ParseInvertsPrint(runs: seq<Inline>)
    requires IsCanonical(runs)
    ensures ParseFrom(Print(runs), 0, 0) == Ok(runs)
  {
    PrintedParses("", runs);
    assert "" + Print(runs) == Print(runs);
  }

  // What is rejected, and with which error

  /** Markup outside the supported subset: a marker that is left over, strikethrough, a tag, or an entity. */
  lemma UnsupportedAtIs(s: string)
    ensures IsUnsupportedAt(s) <==>
      || (s != "" && (s[0] == '*' || s[0] == '`'))
      || (|s| >= 2 && ((s[0] == ']' && s[1] == '(') || (s[0] == '~' && s[1] == '~')))
      || (|s| >= 2 && s[0] == '<' && ('A' <= s[1] <= 'Z' || 'a' <= s[1] <= 'z' || s[1] == '/' || s[1] == '!'))
      || IsEntity(s)
  {
    assert |s| >= 1 ==> s[..1] == [s[0]];
    assert |s| >= 2 ==> s[..2] == [s[0], s[1]];
    EntityIs(s);
  }

  function EntityNameAt(s: string): nat {
    if |s| >= 2 && s[1] == '#' then 2 else 1
  }

  ghost predicate IsEntity(s: string) {
    IsEntityBehind(s, EntityNameAt(s))
  }

  ghost predicate IsEntityBehind(s: string, from: nat) {
    exists n: nat :: IsEntityOf(s, from, n)
  }

  /** `&`, `#` perhaps, `n` letters or digits, and `;`. */
  ghost predicate IsEntityOf(s: string, from: nat, n: nat) {
    && n > 0 && from + n < |s| && s[0] == '&' && s[from + n] == ';'
    && forall k :: from <= k < from + n ==> 'A' <= s[k] <= 'Z' || 'a' <= s[k] <= 'z' || '0' <= s[k] <= '9'
  }

  lemma AmpersandIs(s: string)
    ensures StartsWith(s, "&") <==> s != "" && s[0] == '&'
    ensures s != "" && s[0] == '&' ==> (if StartsWith(s, "&#") then 2 else 1) == EntityNameAt(s) <= |s|
  {
    assert s != "" ==> s[..1] == [s[0]];
    assert |s| >= 2 ==> s[..2] == [s[0], s[1]];
  }

  lemma EntityEnds(s: string, n: nat)
    requires n <= |s|
    ensures StartsWith(s[n..], ";") <==> n < |s| && s[n] == ';'
  {
    assert n < |s| ==> s[n..][..1] == [s[n]];
  }

  lemma SpanStops(s: string, n: nat)
    requires n < |s| && (forall k :: 0 <= k < n ==> IsAlphanumeric(s[k])) && !IsAlphanumeric(s[n])
    ensures Span(s, IsAlphanumeric) == n
  {
    assert s[..n] + s[n..] == s;
    SpanOf(s[..n], s[n..], IsAlphanumeric);
  }

  lemma EntityIs(s: string)
    ensures IsEntityAt(s) <==> IsEntity(s)
  {
    hide Span, StartsWith;
    AmpersandIs(s);
    if s != "" && s[0] == '&' {
      var from := EntityNameAt(s);
      var n := Span(s[from..], IsAlphanumeric);
      EntityEnds(s, from + n);
      if m: nat :| IsEntityOf(s, from, m) {
        SpanStops(s[from..], m);
      }
      assert IsEntityAt(s) ==> IsEntityOf(s, from, n);
    }
  }

  /** A text is rejected for such markup anywhere in it. */
  lemma {:induction false} UnsupportedSomewhere(s: string)
    ensures IsUnsupported(s) <==> exists k :: 0 <= k < |s| && IsUnsupportedAt(s[k..])
  {
    hide IsUnsupportedAt;
    if s != "" {
      UnsupportedSomewhere(s[1..]);
      assert s[0..] == s;
      assert forall k :: 0 < k < |s| ==> s[1..][k - 1..] == s[k..];
      if k :| 0 <= k < |s[1..]| && IsUnsupportedAt(s[1..][k..]) {
        assert s[k + 1..] == s[1..][k..];
      }
    }
  }

  function Prepend(runs: seq<Inline>, rest: Result): Result {
    if rest.Ok? then Ok(runs + rest.runs) else rest
  }

  lemma {:induction false} ScanNone(text: string, cursor: nat, p: nat, end: nat)
    requires cursor <= p <= end <= |text| && forall k :: p <= k < end ==> TokenAt(text[k..]) == None
    ensures ParseFrom(text, cursor, p) == ParseFrom(text, cursor, end)
    decreases end - p
  {
    hide ParseFrom, TokenAt;
    if p < end {
      NoTokenDecides(text, cursor, p);
      ScanNone(text, cursor, p + 1, end);
    }
  }

  /** A canonical list of runs is parsed as such whatever stands behind it. */
  lemma {:induction false} PrefixParses(before: string, runs: seq<Inline>, rest: string)
    requires IsCanonical(runs) && LinkMayFollow(before, runs) && (runs == [] || !runs[|runs| - 1].Text?)
    ensures var text, q := before + Print(runs) + rest, |before + Print(runs)|;
      ParseFrom(text, |before|, |before|) == Prepend(runs, ParseFrom(text, q, q))
    decreases |runs|, 1
  {
    hide TokenAt, IsUnsupported, Print, PushText, IsCanonical, ParseFrom, MayFollow, IsLegal, PrintRun;
    if runs == [] {
      EmptyPrint();
      assert before + "" == before;
      PrependNothing(ParseFrom(before + rest, |before|, |before|));
    } else if runs[0].Text? {
      var t, tail := runs[0].text, runs[1..];
      TailIsCanonical(runs);
      LinkAfterText(before, runs);
      PrintOfTail(runs);
      assert before + t + Print(tail) == before + Print(runs);
      PrefixBehind(before, t, tail, rest);
      PushedText(t);
      assert [Text(t)] + tail == runs;
    } else {
      EmptyIsSupported();
      assert before + "" == before;
      PrefixBehind(before, "", runs, rest);
      PushedText("");
      assert [] + runs == runs;
    }
  }

  lemma PrependNothing(r: Result)
    ensures Prepend([], r) == r
  {
    assert r.Ok? ==> [] + r.runs == r.runs;
  }

  lemma {:induction false} PrefixBehind(before: string, pending: string, runs: seq<Inline>, rest: string)
    requires IsCanonical(runs) && runs != [] && !runs[0].Text? && !runs[|runs| - 1].Text?
    requires LinkMayFollow(before + pending, runs) && !IsUnsupported(pending)
    ensures var text, q := before + pending + Print(runs) + rest, |before + pending + Print(runs)|;
      ParseFrom(text, |before|, |before|) == Prepend(PushText(pending) + runs, ParseFrom(text, q, q))
    decreases |runs|, 0
  {
    hide TokenAt, IsUnsupported, Print, PrintRun, PushText, IsCanonical, StartsToken, ParseFrom;
    var text, p, run, tail := before + pending + Print(runs) + rest, |before + pending|, runs[0], runs[1..];
    PrintOfTail(runs);
    TailIsCanonical(runs);
    var behind := Print(tail) + rest;
    assert text == before + pending + (PrintRun(run) + behind);
    assert text[p..] == PrintRun(run) + behind && text[|before|..p] == pending;
    PrintedIsToken(run, behind);
    PrintedStartsToken(run, behind);
    ScanText(text, |before|, |before|, p);
    TokenDecides(text, |before|, p);
    var before' := before + pending + PrintRun(run);
    assert text == before' + Print(tail) + rest && |before'| == p + |PrintRun(run)|;
    assert p > 0 ==> text[p - 1] == (before + pending)[p - 1];
    LegalLink(run);
    PrefixParses(before', tail, rest);
    assert before' + Print(tail) == before + pending + Print(runs);
    PrependOne(PushText(pending), run, tail, ParseFrom(text, |before' + Print(tail)|, |before' + Print(tail)|));
  }

  lemma LegalLink(run: Inline)
    requires IsLegal(run)
    ensures run.Link? ==> StartsWith(run.href, "https://")
  {
  }

  lemma PrependOne(pushed: seq<Inline>, run: Inline, tail: seq<Inline>, r: Result)
    ensures var rest := Prepend(tail, r);
      Prepend(pushed + ([run] + tail), r) == if rest.Ok? then Ok(pushed + [run] + rest.runs) else rest
  {
    assert r.Ok? ==> pushed + ([run] + tail) + r.runs == pushed + [run] + (tail + r.runs);
  }

  lemma PrintedStartsToken(run: Inline, rest: string)
    requires IsLegal(run) && !run.Text?
    ensures StartsToken(PrintRun(run) + rest)
  {
  }

  /**
   Behind runs that are accepted, the next text and token decide: unsupported markup in the text is the first error, then
   a link behind `!`, then a link that is not https; if there is none, parsing goes on behind the token.
   */
  lemma FirstErrorDecides(runs: seq<Inline>, pending: string, run: Inline, rest: string)
    requires IsCanonical(runs) && (runs == [] || !runs[|runs| - 1].Text?)
    requires TokenAt(PrintRun(run) + rest) == Some((run, |PrintRun(run)|))
    requires forall k :: 0 <= k < |pending| ==> TokenAt((pending + PrintRun(run) + rest)[k..]) == None
    ensures var text, p, q := Print(runs) + pending + PrintRun(run) + rest, |Print(runs) + pending|, |Print(runs) + pending + PrintRun(run)|;
      ParseFrom(text, 0, 0) ==
        if IsUnsupported(pending) then UnsupportedSyntax
        else if run.Link? && p > 0 && text[p - 1] == '!' then ImageLink
        else if run.Link? && !StartsWith(run.href, "https://") then NotHttps
        else Prepend(runs + PushText(pending) + [run], ParseFrom(text, q, q))
  {
    hide TokenAt, IsUnsupported, Print, PrintRun, PushText, IsCanonical, ParseFrom, StartsWith, Prepend;
    var front, token := Print(runs), PrintRun(run);
    var text, start, p := front + pending + token + rest, |front|, |front + pending|;
    FourParts(front, pending, token, rest);
    assert "" + front == front;
    PrefixParses("", runs, pending + token + rest);
    ScanNone(text, start, start, p);
    TokenDecides(text, start, p);
    PrependError(runs);
    PrependTwice(runs, PushText(pending), run, ParseFrom(text, p + |token|, p + |token|));
  }

  lemma FourParts(front: string, pending: string, token: string, rest: string)
    ensures var text, p := front + pending + token + rest, |front + pending|;
      && text == front + (pending + token + rest) && text[p..] == token + rest && text[|front|..p] == pending
      && |text| == p + |token| + |rest|
      && forall k :: |front| <= k < p ==> text[k..] == (pending + token + rest)[k - |front|..]
  {
  }

  lemma PrependError(runs: seq<Inline>)
    ensures forall r: Result :: !r.Ok? ==> Prepend(runs, r) == r
  {
  }

  lemma PrependTwice(runs: seq<Inline>, pushed: seq<Inline>, run: Inline, r: Result)
    ensures Prepend(runs, if r.Ok? then Ok(pushed + [run] + r.runs) else r) == Prepend(runs + pushed + [run], r)
  {
    assert r.Ok? ==> runs + (pushed + [run] + r.runs) == runs + pushed + [run] + r.runs;
  }

  /** A text behind accepted runs in which no token starts is the last run, or is rejected for unsupported markup. */
  lemma LastTextDecides(runs: seq<Inline>, pending: string)
    requires IsCanonical(runs) && (runs == [] || !runs[|runs| - 1].Text?)
    requires forall k :: 0 <= k < |pending| ==> TokenAt(pending[k..]) == None
    ensures ParseFrom(Print(runs) + pending, 0, 0) ==
      if IsUnsupported(pending) then UnsupportedSyntax
      else Ok(runs + (if pending == "" then [] else [Text(pending)]))
  {
    hide TokenAt, IsUnsupported, Print, PrintRun, PushText, IsCanonical, ParseFrom;
    var start, text := |Print(runs)|, Print(runs) + pending;
    assert "" + Print(runs) + pending == text && "" + Print(runs) == Print(runs);
    PrefixParses("", runs, pending);
    forall k | start <= k < |text|
      ensures TokenAt(text[k..]) == None
    {
      assert text[k..] == pending[k - start..];
    }
    ScanNone(text, start, start, |text|);
    assert text[start..] == pending;
    ParseAtEnd(text, start);
    PushedText(pending);
  }

  /**
   The tokens: bold and link texts hold anything but `*`, backquote and brackets, code anything but backquotes, and link
   targets anything but white space and `)`; none is empty.
   */
  lemma TokensAre(text: string, href: string, rest: string)
    ensures text != "" && (forall i :: 0 <= i < |text| ==> text[i] != '*' && text[i] != '`' && text[i] != '[' && text[i] != ']') ==>
      && TokenAt("**" + text + "**" + rest) == Some((Strong(text), |text| + 4))
      && (href != "" && (forall i :: 0 <= i < |href| ==> href[i] != ')' && !IsSpace(href[i])) ==>
            TokenAt("[" + text + "](" + href + ")" + rest) == Some((Link(text, href), |text| + |href| + 4)))
    ensures text != "" && (forall i :: 0 <= i < |text| ==> text[i] != '`') ==>
      TokenAt("`" + text + "`" + rest) == Some((Code(text), |text| + 2))
  {
    hide TokenAt;
    if AllIn(text, IsLabelChar) {
      StrongIsToken(text, rest);
      if AllIn(href, IsHrefChar) {
        LinkIsToken(text, href, rest);
      }
    }
    if AllIn(text, IsCodeChar) {
      CodeIsToken(text, rest);
    }
  }
}
