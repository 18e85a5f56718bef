/** Byte budgets for tool results: cut the body, keep the header, the trailer and a notice. */
module ContentLimits {
  import opened Utf16
  import opened Utf8Slice
  import opened SizeLabels

  const MAX_TOOL_RESULT_TEXT_BYTES := 64 * KIB
  const MAX_FRAME_PART_BYTES := 4 * KIB

  // Lines

  function IndexOf(t: Text, c: CodeUnit): (i: int)
    ensures -1 <= i < |t|
    ensures i >= 0 ==> t[i] == c
    ensures forall j :: 0 <= j < (if i < 0 then |t| else i) ==> t[j] != c
  {
    assert forall j: nat :: j < |t| ==> (Utf16.OccursAt(t, [c], j) <==> t[j] == c) by {
      assert forall j: nat :: j < |t| ==> t[j..j + 1] == [t[j]];
    }
    Utf16.IndexOf(t, [c])
  }

  function LastIndexOf(t: Text, c: CodeUnit): (i: int)
    ensures -1 <= i < |t|
    ensures i >= 0 ==> t[i] == c
    ensures forall j :: i < j < |t| ==> t[j] != c
  {
    if t == [] then -1
    else if t[|t| - 1] == c then |t| - 1
    else LastIndexOf(t[..|t| - 1], c)
  }

  function KeepWholeLines(t: Text): Text {
    var lastBreak := LastIndexOf(t, NEWLINE);
    if 2 * lastBreak >= |t| then t[..lastBreak] else t
  }

  function KeepWholeTailLines(t: Text): Text {
    var firstBreak := IndexOf(t, NEWLINE);
    if firstBreak >= 0 && 2 * firstBreak < |t| then t[firstBreak + 1..] else t
  }

  function SplitLines(t: Text): (lines: seq<Text>)
    ensures |lines| > 0
    decreases |t|
  {
    var i := IndexOf(t, NEWLINE);
    if i < 0 then [t] else [t[..i]] + SplitLines(t[i + 1..])
  }

  function JoinLines(lines: seq<Text>): Text {
    if lines == [] then []
    else if |lines| == 1 then lines[0]
    else lines[0] + [NEWLINE] + JoinLines(lines[1..])
  }

  function CapLine(line: Text, maxLineBytes: int): Text {
    if ByteLength(line) <= maxLineBytes then line
    else
      var kept := PrefixWithin(line, maxLineBytes);
      PrefixBytes(line, |kept|);
      kept + [0x2026] + Ascii(" [line cut: ") + FormatBytes(ByteLength(line) - ByteLength(kept)) + Ascii(" omitted]")
  }

  function CapLines(lines: seq<Text>, maxLineBytes: int): (capped: seq<Text>)
    ensures |capped| == |lines|
  {
    if lines == [] then [] else [CapLine(lines[0], maxLineBytes)] + CapLines(lines[1..], maxLineBytes)
  }

  function CapLongLines(t: Text, maxLineBytes: int): Text {
    JoinLines(CapLines(SplitLines(t), maxLineBytes))
  }

  // Results

  datatype Truncation = Head | Lines | HeadTail

  /** An absent header, trailer or hint is the empty text: the code treats both alike. */
  datatype Parts = Parts(header: Text, body: Text, trailer: Text)

  /** `maxBytes` is MAX_TOOL_RESULT_TEXT_BYTES where a caller gives none; `maxLineBytes` 0 stands for no limit, as in the code. */
  datatype Options = Options(strategy: Truncation, maxBytes: int, hint: Text, maxLineBytes: int)

  function NonEmpty(parts: seq<Text>): seq<Text> {
    if parts == [] then []
    else if parts[0] == [] then NonEmpty(parts[1..])
    else [parts[0]] + NonEmpty(parts[1..])
  }

  /** The non-empty parts, one newline between neighbours. */
  function JoinParts(parts: seq<Text>): Text {
    JoinLines(NonEmpty(parts))
  }

  /** Two parts joined; `JoinPartsIsBeside` makes this the way to join any number. */
  function Beside(a: Text, b: Text): Text {
    if a == [] then b else if b == [] then a else a + [NEWLINE] + b
  }

  lemma {:induction false} JoinPartsIsBeside(first: Text, rest: seq<Text>)
    ensures JoinParts([]) == []
    ensures JoinParts([first] + rest) == Beside(first, JoinParts(rest))
    decreases |rest|
  {
    assert ([first] + rest)[1..] == rest;
    var others := NonEmpty(rest);
    assert [first] + others == [first] || ([first] + others)[1..] == others;
    if others != [] {
      JoinedPartsNonEmpty(rest);
      assert |[first] + others| > 1;
    }
  }

  lemma {:induction false} JoinedPartsNonEmpty(parts: seq<Text>)
    ensures JoinParts(parts) == [] <==> NonEmpty(parts) == []
    ensures forall i :: 0 <= i < |NonEmpty(parts)| ==> NonEmpty(parts)[i] != []
  {
    if parts != [] {
      JoinedPartsNonEmpty(parts[1..]);
    }
  }

  function FitFrame(header: Text, notice: Text, trailer: Text, maxBytes: nat): Text {
    var tail := Beside(notice, trailer);
    var headerRoom := maxBytes - ByteLength(tail) - 1;
    if headerRoom > 0 then Beside(PrefixWithin(header, headerRoom), tail)
    else SuffixWithin(tail, maxBytes)
  }

  function Max(a: int, b: int): int {
    if a >= b then a else b
  }

  function FramePart(part: Text): Text {
    if part == [] then [] else PrefixWithin(part, MAX_FRAME_PART_BYTES)
  }

  function CappedBody(parts: Parts, options: Options): Text {
    if options.maxLineBytes != 0 then CapLongLines(parts.body, options.maxLineBytes) else parts.body
  }

  /** What surrounds the body: the frame parts, and the notice as a function of the label of what was kept. */
  datatype Frame = Frame(header: Text, trailer: Text, noticeWith: Text -> Text) {
    function Around(middle: Text): Text {
      Beside(header, Beside(middle, trailer))
    }

    /** Bytes of the frame with the widest notice, and the newlines around what is kept. */
    function Bytes(bodyBytes: nat): nat {
      ByteLength(Around(noticeWith(WidestLabel(bodyBytes)))) + 2
    }
  }

  function NoticeWith(bodyBytes: nat, hint: Text): Text -> Text {
    (keptLabel: Text) =>
      Ascii("[OUTPUT TRUNCATED: showed ") + keptLabel + Ascii(" of ") + FormatBytes(bodyBytes)
      + (if hint == [] then [] else Ascii("; ") + hint) + Ascii("]")
  }

  function KeptHead(body: Text, bodyBudget: nat): Text {
    KeepWholeLines(PrefixWithin(body, bodyBudget * 2 / 5))
  }

  function KeptTail(body: Text, bodyBudget: nat): Text {
    KeepWholeTailLines(SuffixWithin(body, bodyBudget - ByteLength(KeptHead(body, bodyBudget))))
  }

  /** What a strategy keeps of the body in front of the notice and behind it. */
  function Kept(body: Text, bodyBudget: nat, strategy: Truncation): (Text, Text) {
    match strategy
    case HeadTail => (KeptHead(body, bodyBudget), KeptTail(body, bodyBudget))
    case Lines => (KeepWholeLines(PrefixWithin(body, bodyBudget)), [])
    case Head => (PrefixWithin(body, bodyBudget), [])
  }

  /** The header, a kept prefix, the notice of the bytes kept, a kept suffix and the trailer. */
  function CutResult(frame: Frame, head: Text, tail: Text): Text {
    var notice := frame.noticeWith(FormatBytes(ByteLength(head) + ByteLength(tail)));
    Beside(frame.header, Beside(head, Beside(notice, Beside(tail, frame.trailer))))
  }

  /** Fit a body, given also with its long lines capped, into a frame. */
  function Bound(frame: Frame, original: Text, body: Text, maxBytes: nat, strategy: Truncation): Text {
    var whole := frame.Around(original);
    if ByteLength(whole) <= maxBytes then whole else
    var withCappedLines := frame.Around(body);
    if ByteLength(withCappedLines) <= maxBytes then withCappedLines else
    var bodyBudget := maxBytes - frame.Bytes(ByteLength(original));
    if bodyBudget <= 0 then FitFrame(frame.header, frame.noticeWith(FormatBytes(0)), frame.trailer, maxBytes)
    else
      var (head, tail) := Kept(body, bodyBudget, strategy);
      CutResult(frame, head, tail)
  }

  function FrameOf(parts: Parts, options: Options): Frame {
    Frame(FramePart(parts.header), FramePart(parts.trailer), NoticeWith(ByteLength(parts.body), options.hint))
  }

  function BoundToolText(parts: Parts, options: Options): Text {
    Bound(FrameOf(parts, options), parts.body, CappedBody(parts, options), Max(0, options.maxBytes), options.strategy)
  }

  // Byte bound

  lemma PrefixBytes(t: Text, k: nat)
    requires k <= |t|
    ensures ByteLength(t[..k]) <= ByteLength(t)
  {
    assert t[..|t|] == t;
    if k < |t| {
      PrefixBytesIncrease(t, k, |t|);
    }
  }

  lemma SuffixBytes(t: Text, k: nat)
    requires k <= |t|
    ensures ByteLength(t[k..]) <= ByteLength(t)
  {
    assert t[0..] == t;
    if k > 0 {
      SuffixBytesIncrease(t, 0, k);
    }
  }

  /** Bytes a part adds to a joined text, its newline included. */
  ghost function Sized(part: Text): nat {
    if part == [] then 0 else ByteLength(part) + 1
  }

  lemma BesideBytes(a: Text, b: Text)
    ensures Sized(Beside(a, b)) == Sized(a) + Sized(b)
  {
    ConcatBytes(a + [NEWLINE], b);
    ConcatBytes(a, [NEWLINE]);
  }

  lemma AroundBytes(frame: Frame, middle: Text)
    ensures Sized(frame.Around(middle)) == Sized(frame.header) + Sized(middle) + Sized(frame.trailer)
  {
    BesideBytes(frame.header, Beside(middle, frame.trailer));
    BesideBytes(middle, frame.trailer);
  }

  /** A notice is never empty and takes `base` bytes besides its label. */
  ghost predicate HasNotice(frame: Frame, base: nat) {
    base > 0 && forall size {:trigger frame.noticeWith(size)} :: IsAscii(size) ==> ByteLength(frame.noticeWith(size)) == base + |size|
  }

  lemma LabelledBytes(lead: Text, size: Text, total: Text, middle: Text)
    requires IsAscii(lead) && IsAscii(size) && IsAscii(total)
    ensures ByteLength(lead + size + Ascii(" of ") + total + middle + Ascii("]"))
         == |lead| + |size| + 4 + |total| + ByteLength(middle) + 1
  {
    hide ByteLength, Ascii;
    AsciiConcat(lead, size);
    AsciiConcat(lead + size, Ascii(" of "));
    AsciiConcat(lead + size + Ascii(" of "), total);
    AsciiConcatBytes(lead + size + Ascii(" of ") + total, middle, Ascii("]"));
  }

  lemma AsciiConcat(a: Text, b: Text)
    requires IsAscii(a) && IsAscii(b)
    ensures IsAscii(a + b)
  {
  }

  lemma NoticeBytes(parts: Parts, options: Options) returns (base: nat)
    ensures HasNotice(FrameOf(parts, options), base)
  {
    hide ByteLength, FormatBytes, Ascii, IsAscii;
    var total := FormatBytes(ByteLength(parts.body));
    var lead, middle := Ascii("[OUTPUT TRUNCATED: showed "), if options.hint == [] then [] else Ascii("; ") + options.hint;
    base := |lead| + 4 + |total| + ByteLength(middle) + 1;
    var noticeWith := FrameOf(parts, options).noticeWith;
    forall size: Text | IsAscii(size)
      ensures ByteLength(noticeWith(size)) == base + |size|
    {
      LabelledBytes(lead, size, total, middle);
    }
  }

  lemma FitFrameWithin(header: Text, notice: Text, trailer: Text, maxBytes: nat)
    ensures ByteLength(FitFrame(header, notice, trailer, maxBytes)) <= maxBytes
  {
    var tail := Beside(notice, trailer);
    var headerRoom := maxBytes - ByteLength(tail) - 1;
    if headerRoom > 0 {
      PrefixCut(header, headerRoom);
      BesideBytes(PrefixWithin(header, headerRoom), tail);
    } else {
      SuffixCut(tail, maxBytes);
    }
  }

  /** Any body that does not fit beside the header and the trailer is larger than what the frame leaves for it. */
  lemma BodyExceedsBudget(frame: Frame, base: nat, bodyBytes: nat, body: Text, maxBytes: nat)
    requires HasNotice(frame, base)
    requires ByteLength(frame.Around(body)) > maxBytes
    ensures ByteLength(body) > maxBytes - frame.Bytes(bodyBytes)
  {
    hide FormatBytes, WidestLabel, Beside;
    AroundBytes(frame, body);
    AroundBytes(frame, frame.noticeWith(WidestLabel(bodyBytes)));
  }

  /** Each end is a run of whole lines of at least half its slice, or the slice itself. */
  lemma WholeLinesKept(t: Text)
    ensures var r := KeepWholeLines(t);
      && r <= t && ByteLength(r) <= ByteLength(t)
      && |r| >= |t| / 2
      && (r != t ==> t[|r|] == NEWLINE && NEWLINE !in t[|r| + 1..])
      && (r == t <==> forall i :: 0 <= i < |t| && 2 * i >= |t| ==> t[i] != NEWLINE)
  {
    PrefixBytes(t, |KeepWholeLines(t)|);
  }

  lemma WholeTailLinesKept(t: Text)
    ensures var r := KeepWholeTailLines(t);
      && |r| <= |t| && r == t[|t| - |r|..] && ByteLength(r) <= ByteLength(t)
      && |r| >= |t| / 2
      && (r != t ==> t[|t| - |r| - 1] == NEWLINE && NEWLINE !in t[..|t| - |r| - 1])
      && (r == t <==> forall i :: 0 <= i < |t| && 2 * i < |t| ==> t[i] != NEWLINE)
  {
    SuffixBytes(t, |t| - |KeepWholeTailLines(t)|);
  }

  lemma KeptWithin(body: Text, bodyBudget: nat, strategy: Truncation)
    ensures var (head, tail) := Kept(body, bodyBudget, strategy);
      && head <= body && |tail| <= |body| && tail == body[|body| - |tail|..]
      && ByteLength(head) + ByteLength(tail) <= bodyBudget
      && (strategy == HeadTail ==> 5 * ByteLength(head) <= 2 * bodyBudget)
  {
    NonEmptyBytes([]);
    hide ByteLength, PrefixWithin, SuffixWithin, KeepWholeLines, KeepWholeTailLines;
    var front := if strategy == HeadTail then bodyBudget * 2 / 5 else bodyBudget;
    var sliced := PrefixWithin(body, front);
    PrefixCut(body, front);
    WholeLinesKept(sliced);
    if strategy == HeadTail {
      var room := bodyBudget - ByteLength(KeptHead(body, bodyBudget));
      SuffixCut(body, room);
      WholeTailLinesKept(SuffixWithin(body, room));
    }
  }

  /** A prefix and a suffix that take fewer bytes than the text leave something between them. */
  lemma EndsDoNotMeet(body: Text, head: nat, tail: nat)
    requires head <= |body| && tail <= |body|
    requires ByteLength(body[..head]) + ByteLength(body[|body| - tail..]) < ByteLength(body)
    ensures head + tail < |body|
  {
    var start := |body| - tail;
    assert body == body[..start] + body[start..];
    ConcatBytes(body[..start], body[start..]);
    if head > start {
      PrefixBytesIncrease(body, start, head);
    }
  }

  /** What is kept of a body over its budget is a prefix and a suffix that never meet. */
  lemma KeptEndsApart(body: Text, bodyBudget: nat, strategy: Truncation) returns (omitted: Text)
    requires ByteLength(body) > bodyBudget
    ensures var (head, tail) := Kept(body, bodyBudget, strategy);
      && body == head + omitted + tail && omitted != []
      && ByteLength(head) + ByteLength(tail) <= bodyBudget
  {
    hide ByteLength, PrefixWithin, SuffixWithin, KeepWholeLines, KeepWholeTailLines;
    var (head, tail) := Kept(body, bodyBudget, strategy);
    KeptWithin(body, bodyBudget, strategy);
    assert head == body[..|head|];
    EndsDoNotMeet(body, |head|, |tail|);
    omitted := body[|head|..|body| - |tail|];
  }

  lemma CutResultBytes(frame: Frame, head: Text, tail: Text)
    ensures Sized(CutResult(frame, head, tail))
         == Sized(frame.header) + Sized(head) + Sized(frame.noticeWith(FormatBytes(ByteLength(head) + ByteLength(tail))))
            + Sized(tail) + Sized(frame.trailer)
  {
    hide ByteLength, FormatBytes, Beside;
    var notice := frame.noticeWith(FormatBytes(ByteLength(head) + ByteLength(tail)));
    BesideBytes(tail, frame.trailer);
    BesideBytes(notice, Beside(tail, frame.trailer));
    BesideBytes(head, Beside(notice, Beside(tail, frame.trailer)));
    BesideBytes(frame.header, Beside(head, Beside(notice, Beside(tail, frame.trailer))));
  }

  lemma NoticeFitsReserve(frame: Frame, base: nat, keptBytes: nat, bodyBytes: nat)
    requires HasNotice(frame, base)
    requires keptBytes <= bodyBytes
    ensures 0 < Sized(frame.noticeWith(FormatBytes(keptBytes))) <= Sized(frame.noticeWith(WidestLabel(bodyBytes)))
  {
    hide ByteLength, FormatBytes, WidestLabel;
    KeptLabelFits(keptBytes, bodyBytes);
    NonEmptyBytes(frame.noticeWith(FormatBytes(keptBytes)));
    NonEmptyBytes(frame.noticeWith(WidestLabel(bodyBytes)));
  }

  /** The cut result takes no more than the frame and the budget. */
  lemma CutResultWithin(frame: Frame, base: nat, bodyBytes: nat, head: Text, tail: Text, bodyBudget: nat)
    requires HasNotice(frame, base)
    requires ByteLength(head) + ByteLength(tail) <= bodyBudget <= bodyBytes
    ensures ByteLength(CutResult(frame, head, tail)) <= frame.Bytes(bodyBytes) + bodyBudget
  {
    hide ByteLength, FormatBytes, WidestLabel, Beside, CutResult, HasNotice;
    NoticeFitsReserve(frame, base, ByteLength(head) + ByteLength(tail), bodyBytes);
    CutResultBytes(frame, head, tail);
    AroundBytes(frame, frame.noticeWith(WidestLabel(bodyBytes)));
  }

  lemma BoundWithin(frame: Frame, base: nat, original: Text, body: Text, maxBytes: nat, strategy: Truncation)
    requires HasNotice(frame, base)
    ensures ByteLength(Bound(frame, original, body, maxBytes, strategy)) <= maxBytes
  {
    hide ByteLength, FormatBytes, Kept, FitFrame, CutResult;
    var bodyBudget := maxBytes - frame.Bytes(ByteLength(original));
    FitFrameWithin(frame.header, frame.noticeWith(FormatBytes(0)), frame.trailer, maxBytes);
    if bodyBudget > 0 && ByteLength(frame.Around(original)) > maxBytes {
      BodyExceedsBudget(frame, base, ByteLength(original), original, maxBytes);
      var (head, tail) := Kept(body, bodyBudget, strategy);
      KeptWithin(body, bodyBudget, strategy);
      CutResultWithin(frame, base, ByteLength(original), head, tail, bodyBudget);
    }
  }

  /** The result never exceeds its budget: whatever the parts, the strategy, the hint and the limits. */
  lemma StaysWithinBudget(parts: Parts, options: Options)
    ensures ByteLength(BoundToolText(parts, options)) <= Max(0, options.maxBytes)
  {
    hide ByteLength, NoticeWith, Bound;
    var base := NoticeBytes(parts, options);
    BoundWithin(FrameOf(parts, options), base, parts.body, CappedBody(parts, options), Max(0, options.maxBytes), options.strategy);
  }

  /** Neither form of the body fits, but the frame leaves room for some of it. */
  ghost predicate CutsBody(frame: Frame, original: Text, body: Text, maxBytes: nat, bodyBudget: nat) {
    && ByteLength(frame.Around(original)) > maxBytes
    && ByteLength(frame.Around(body)) > maxBytes
    && bodyBudget == maxBytes - frame.Bytes(ByteLength(original)) > 0
  }

  lemma CutResultOfKept(parts: Parts, options: Options, bodyBudget: nat) returns (head: Text, omitted: Text, tail: Text)
    requires CutsBody(FrameOf(parts, options), parts.body, CappedBody(parts, options), Max(0, options.maxBytes), bodyBudget)
    ensures CappedBody(parts, options) == head + omitted + tail && omitted != []
    ensures (head, tail) == Kept(CappedBody(parts, options), bodyBudget, options.strategy)
    ensures BoundToolText(parts, options) == CutResult(FrameOf(parts, options), head, tail)
  {
    hide ByteLength, NoticeWith, FormatBytes, Kept, CutResult;
    var frame, body := FrameOf(parts, options), CappedBody(parts, options);
    var base := NoticeBytes(parts, options);
    BodyExceedsBudget(frame, base, ByteLength(parts.body), body, Max(0, options.maxBytes));
    omitted := KeptEndsApart(body, bodyBudget, options.strategy);
    head, tail := Kept(body, bodyBudget, options.strategy).0, Kept(body, bodyBudget, options.strategy).1;
  }

  /**
   A result that cuts the body shows the header, a prefix of the (line-capped) body, a notice with exactly the bytes
   kept, a suffix of the body and the trailer; what it omits in between is never empty.
   */
  lemma CutResultShape(parts: Parts, options: Options, bodyBudget: nat) returns (head: Text, omitted: Text, tail: Text)
    requires CutsBody(FrameOf(parts, options), parts.body, CappedBody(parts, options), Max(0, options.maxBytes), bodyBudget)
    ensures CappedBody(parts, options) == head + omitted + tail && omitted != []
    ensures var body := CappedBody(parts, options);
      match options.strategy
      case Head => head == PrefixWithin(body, bodyBudget) && tail == []
      case Lines => head == KeepWholeLines(PrefixWithin(body, bodyBudget)) && tail == []
      case HeadTail =>
        && head == KeepWholeLines(PrefixWithin(body, bodyBudget * 2 / 5))
        && tail == KeepWholeTailLines(SuffixWithin(body, bodyBudget - ByteLength(head)))
    ensures var notice := NoticeWith(ByteLength(parts.body), options.hint)(FormatBytes(ByteLength(head) + ByteLength(tail)));
      BoundToolText(parts, options) == JoinParts([FramePart(parts.header), head, notice, tail, FramePart(parts.trailer)])
  {
    hide ByteLength, FormatBytes, BoundToolText, PrefixWithin, SuffixWithin, KeepWholeLines, KeepWholeTailLines, Beside, JoinParts,
      NoticeWith, Ascii;
    head, omitted, tail := CutResultOfKept(parts, options, bodyBudget);
    var notice := NoticeWith(ByteLength(parts.body), options.hint)(FormatBytes(ByteLength(head) + ByteLength(tail)));
    JoinedFive(FramePart(parts.header), head, notice, tail, FramePart(parts.trailer));
  }

  /** What a notice says: the label it is given, the size of the body, and the hint. */
  lemma NoticeText(bodyBytes: nat, hint: Text, size: Text)
    ensures NoticeWith(bodyBytes, hint)(size)
         == Ascii("[OUTPUT TRUNCATED: showed ") + size + Ascii(" of ") + FormatBytes(bodyBytes)
            + (if hint == [] then [] else Ascii("; ") + hint) + Ascii("]")
  {
  }

  lemma JoinedThree(a: Text, b: Text, c: Text)
    ensures JoinParts([a, b, c]) == Beside(a, Beside(b, c)) && JoinParts([b, c]) == Beside(b, c) && JoinParts([c]) == c
  {
    hide JoinParts, Beside;
    JoinPartsIsBeside(a, [b, c]);
    JoinPartsIsBeside(b, [c]);
    JoinPartsIsBeside(c, []);
    BesideNothing(c);
    assert [a] + [b, c] == [a, b, c] && [b] + [c] == [b, c] && [c] + [] == [c];
  }

  lemma BesideNothing(c: Text)
    ensures Beside(c, []) == c
  {
  }

  lemma JoinedFive(a: Text, b: Text, c: Text, d: Text, e: Text)
    ensures JoinParts([a, b, c, d, e]) == Beside(a, Beside(b, Beside(c, Beside(d, e))))
  {
    hide JoinParts, Beside;
    JoinedThree(c, d, e);
    JoinPartsIsBeside(a, [b, c, d, e]);
    JoinPartsIsBeside(b, [c, d, e]);
    assert [a] + [b, c, d, e] == [a, b, c, d, e] && [b] + [c, d, e] == [b, c, d, e];
  }

  /** A result within the budget loses nothing: neither of the body, nor of its lines, nor of the frame parts. */
  lemma WholeWhenItFits(parts: Parts, options: Options)
    requires ByteLength(JoinParts([FramePart(parts.header), parts.body, FramePart(parts.trailer)])) <= Max(0, options.maxBytes)
    ensures BoundToolText(parts, options) == JoinParts([FramePart(parts.header), parts.body, FramePart(parts.trailer)])
  {
    hide ByteLength, JoinParts, FramePart, CappedBody;
    JoinedThree(FramePart(parts.header), parts.body, FramePart(parts.trailer));
  }

  /** When only the body with its long lines capped fits, that is shown, and no more of it is cut. */
  lemma CappedWhenThatFits(parts: Parts, options: Options)
    requires ByteLength(JoinParts([FramePart(parts.header), parts.body, FramePart(parts.trailer)])) > Max(0, options.maxBytes)
    requires options.maxLineBytes != 0
    requires var capped := CapLongLines(parts.body, options.maxLineBytes);
      ByteLength(JoinParts([FramePart(parts.header), capped, FramePart(parts.trailer)])) <= Max(0, options.maxBytes)
    ensures var capped := CapLongLines(parts.body, options.maxLineBytes);
      BoundToolText(parts, options) == JoinParts([FramePart(parts.header), capped, FramePart(parts.trailer)])
  {
    hide ByteLength, JoinParts, FramePart, CapLongLines;
    JoinedThree(FramePart(parts.header), parts.body, FramePart(parts.trailer));
    JoinedThree(FramePart(parts.header), CapLongLines(parts.body, options.maxLineBytes), FramePart(parts.trailer));
  }

  /** A frame part is shown whole up to 4 KiB, else a prefix of it that fits. */
  lemma FramePartShown(part: Text)
    ensures FramePart(part) <= part && ByteLength(FramePart(part)) <= 4096
    ensures ByteLength(part) <= 4096 && (part == [] || !High(part[|part| - 1])) ==> FramePart(part) == part
  {
    assert part[..|part|] == part;
    if part != [] {
      PrefixCut(part, 4096);
    }
  }

  /**
   When no part of the body fits, a notice that nothing was kept stands before the trailer, behind as much of the header
   as fits beside both; when those two leave no room, their end is shown.
   */
  lemma FrameWhenNoBodyFits(parts: Parts, options: Options)
    requires var maxBytes, frame := Max(0, options.maxBytes), FrameOf(parts, options);
      && ByteLength(frame.Around(parts.body)) > maxBytes && ByteLength(frame.Around(CappedBody(parts, options))) > maxBytes
      && maxBytes <= frame.Bytes(ByteLength(parts.body))
    ensures var notice := NoticeWith(ByteLength(parts.body), options.hint)(FormatBytes(0));
      var maxBytes, header, tail := Max(0, options.maxBytes), FramePart(parts.header), JoinParts([notice, FramePart(parts.trailer)]);
      var room := maxBytes - ByteLength(tail) - 1;
      if room > 0 then
        exists shown :: shown <= header && ByteLength(shown) <= room
          && (shown == header || |shown| + 1 == |header| || ByteLength(header[..|shown| + 2]) > room)
          && BoundToolText(parts, options) == JoinParts([shown, tail])
      else
        BoundToolText(parts, options) == SuffixWithin(tail, maxBytes)
  {
    hide ByteLength, FormatBytes, FramePart, PrefixWithin, SuffixWithin, JoinParts, CappedBody, NoticeWith;
    var maxBytes, header, trailer := Max(0, options.maxBytes), FramePart(parts.header), FramePart(parts.trailer);
    var notice := NoticeWith(ByteLength(parts.body), options.hint)(FormatBytes(0));
    JoinedThree([], notice, trailer);
    var tail := JoinParts([notice, trailer]);
    var room := maxBytes - ByteLength(tail) - 1;
    if room > 0 {
      var shown := PrefixWithin(header, room);
      PrefixCut(header, room);
      JoinedThree([], shown, tail);
      assert BoundToolText(parts, options) == JoinParts([shown, tail]);
    }
  }

  /** What the frame takes: its parts, a notice with the widest label the kept part can get, and two newlines. */
  lemma FrameTakes(parts: Parts, options: Options)
    ensures var total := FormatBytes(ByteLength(parts.body));
      var widest := if |total| >= 9 then total else Ascii("1024.0 KB");
      var notice := NoticeWith(ByteLength(parts.body), options.hint)(widest);
      FrameOf(parts, options).Bytes(ByteLength(parts.body))
      == ByteLength(JoinParts([FramePart(parts.header), notice, FramePart(parts.trailer)])) + 2
  {
    hide ByteLength, FormatBytes, FramePart, JoinParts, NoticeWith;
    var notice := NoticeWith(ByteLength(parts.body), options.hint)(WidestLabel(ByteLength(parts.body)));
    JoinedThree(FramePart(parts.header), notice, FramePart(parts.trailer));
  }

  // Long lines

  lemma {:induction false} JoinedSplitLines(t: Text)
    ensures JoinLines(SplitLines(t)) == t
    decreases |t|
  {
    var i := IndexOf(t, NEWLINE);
    if i >= 0 {
      JoinedSplitLines(t[i + 1..]);
      assert t == t[..i] + [NEWLINE] + t[i + 1..];
    }
  }

  lemma {:induction false} ShortLinesStay(lines: seq<Text>, maxLineBytes: int)
    requires forall i :: 0 <= i < |lines| ==> ByteLength(lines[i]) <= maxLineBytes
    ensures CapLines(lines, maxLineBytes) == lines
  {
    if lines != [] {
      ShortLinesStay(lines[1..], maxLineBytes);
    }
  }

  /** Text without a long line is not touched. */
  lemma CapsOnlyLongLines(t: Text, maxLineBytes: int)
    requires forall i :: 0 <= i < |SplitLines(t)| ==> ByteLength(SplitLines(t)[i]) <= maxLineBytes
    ensures CapLongLines(t, maxLineBytes) == t
  {
    ShortLinesStay(SplitLines(t), maxLineBytes);
    JoinedSplitLines(t);
  }

  lemma {:induction false} SplitLinesAreLines(t: Text)
    ensures forall i :: 0 <= i < |SplitLines(t)| ==> NEWLINE !in SplitLines(t)[i]
    decreases |t|
  {
    if IndexOf(t, NEWLINE) >= 0 {
      SplitLinesAreLines(t[IndexOf(t, NEWLINE) + 1..]);
    }
  }

  lemma {:induction false} CapLinesAt(lines: seq<Text>, maxLineBytes: int, i: nat)
    requires i < |lines|
    ensures CapLines(lines, maxLineBytes)[i] == CapLine(lines[i], maxLineBytes)
  {
    if i > 0 {
      CapLinesAt(lines[1..], maxLineBytes, i - 1);
    }
  }

  /** Each line is capped on its own, in its place; a line that fits stays. */
  lemma CapsEachLine(t: Text, maxLineBytes: int) returns (lines: seq<Text>, capped: seq<Text>)
    ensures t == JoinLines(lines) && (forall i :: 0 <= i < |lines| ==> NEWLINE !in lines[i])
    ensures |capped| == |lines| && CapLongLines(t, maxLineBytes) == JoinLines(capped)
    ensures forall i :: 0 <= i < |lines| ==>
      capped[i] == if ByteLength(lines[i]) <= maxLineBytes then lines[i] else CapLine(lines[i], maxLineBytes)
  {
    lines, capped := SplitLines(t), CapLines(SplitLines(t), maxLineBytes);
    JoinedSplitLines(t);
    SplitLinesAreLines(t);
    forall i | 0 <= i < |lines|
      ensures capped[i] == if ByteLength(lines[i]) <= maxLineBytes then lines[i] else CapLine(lines[i], maxLineBytes)
    {
      CapLinesAt(lines, maxLineBytes, i);
    }
  }

  /** A capped line starts with a part of the line that fits, and says how many bytes it leaves out. */
  lemma CappedLineStart(line: Text, maxLineBytes: nat) returns (kept: Text)
    requires ByteLength(line) > maxLineBytes
    ensures kept <= line && ByteLength(kept) <= maxLineBytes
    ensures CapLine(line, maxLineBytes)
         == kept + [0x2026] + Ascii(" [line cut: ") + FormatBytes(ByteLength(line) - ByteLength(kept)) + Ascii(" omitted]")
  {
    PrefixCut(line, maxLineBytes);
    kept := PrefixWithin(line, maxLineBytes);
  }

  // Trailer

  predicate EndsWith(t: Text, end: Text) {
    |end| <= |t| && t[|t| - |end|..] == end
  }

  lemma BesideEndsWith(a: Text, b: Text)
    ensures EndsWith(Beside(a, b), b)
  {
  }

  lemma CappedBodyEmpty(parts: Parts, options: Options)
    ensures CappedBody(parts, options) == [] ==> parts.body == []
  {
    var lines := SplitLines(parts.body);
    if IndexOf(parts.body, NEWLINE) >= 0 {
      assert |CapLines(lines, options.maxLineBytes)| > 1;
    }
  }

  lemma EndsWithTransitive(a: Text, b: Text, c: Text)
    requires EndsWith(a, b) && EndsWith(b, c)
    ensures EndsWith(a, c)
  {
    assert a[|a| - |c|..] == b[|b| - |c|..];
  }

  lemma SuffixEndsWith(t: Text, from: nat, end: nat)
    requires from <= |t| && end <= |t|
    ensures EndsWith(t[from..], t[end..]) <==> from <= end
  {
    if from <= end {
      assert t[from..][end - from..] == t[end..];
    }
  }

  /** A suffix cut keeps a trailer that fits, unless it fits exactly and starts with half a pair. */
  lemma SuffixKeepsTrailer(t: Text, start: nat, maxBytes: nat)
    requires 0 < start < |t| && t[start - 1] == NEWLINE && ByteLength(t[start..]) <= maxBytes
    ensures EndsWith(SuffixWithin(t, maxBytes), t[start..]) <==> !(ByteLength(t[start..]) == maxBytes && Low(t[start]))
  {
    var k := ShortestDrop(t, maxBytes, 0);
    assert t[start - 1..] == [NEWLINE] + t[start..];
    ConcatBytes([NEWLINE], t[start..]);
    if k < start && ByteLength(t[start..]) == maxBytes {
      SuffixBytesIncrease(t, k, start);
    }
    var b := if Low(t[k]) then k + 1 else k;
    assert SuffixWithin(t, maxBytes) == t[b..];
    SuffixEndsWith(t, b, start);
  }

  /** In the fallback the trailer gives way last. */
  lemma FrameKeepsTrailer(header: Text, notice: Text, trailer: Text, maxBytes: nat)
    requires notice != [] && trailer != [] && ByteLength(trailer) <= maxBytes
    ensures EndsWith(FitFrame(header, notice, trailer, maxBytes), trailer)
            <==> !(Low(trailer[0]) && ByteLength(trailer) == maxBytes)
  {
    hide ByteLength, PrefixWithin, SuffixWithin;
    var tail := Beside(notice, trailer);
    var start := |notice| + 1;
    assert tail[start..] == trailer && tail[start - 1] == NEWLINE;
    if ByteLength(tail) + 1 < maxBytes {
      SuffixBytes(tail, start);
      var cut := PrefixWithin(header, maxBytes - ByteLength(tail) - 1);
      BesideEndsWith(cut, tail);
      BesideEndsWith(notice, trailer);
      hide Beside, EndsWith;
      EndsWithTransitive(Beside(cut, tail), tail, trailer);
    } else {
      hide Beside, EndsWith;
      SuffixKeepsTrailer(tail, start, maxBytes);
    }
  }

  lemma AroundEndsWithTrailer(frame: Frame, middle: Text)
    ensures EndsWith(frame.Around(middle), frame.trailer)
    ensures frame.trailer != [] && (frame.header != [] || middle != []) ==> ByteLength(frame.Around(middle)) > ByteLength(frame.trailer)
    ensures frame.header == [] && middle == [] ==> frame.Around(middle) == frame.trailer
  {
    EndsWithTransitive(frame.Around(middle), Beside(middle, frame.trailer), frame.trailer);
    AroundBytes(frame, middle);
  }

  lemma CutResultEndsWithTrailer(frame: Frame, head: Text, tail: Text)
    ensures EndsWith(CutResult(frame, head, tail), frame.trailer)
  {
    var notice := frame.noticeWith(FormatBytes(ByteLength(head) + ByteLength(tail)));
    var t1 := Beside(tail, frame.trailer);
    var t2 := Beside(notice, t1);
    var t3 := Beside(head, t2);
    EndsWithTransitive(t2, t1, frame.trailer);
    EndsWithTransitive(t3, t2, frame.trailer);
    EndsWithTransitive(Beside(frame.header, t3), t3, frame.trailer);
  }

  lemma BoundKeepsTrailer(frame: Frame, base: nat, original: Text, body: Text, maxBytes: nat, strategy: Truncation)
    requires HasNotice(frame, base)
    requires body == [] ==> original == []
    requires frame.trailer != [] && ByteLength(frame.trailer) <= maxBytes
    ensures EndsWith(Bound(frame, original, body, maxBytes, strategy), frame.trailer)
      <==> !(Low(frame.trailer[0]) && ByteLength(frame.trailer) == maxBytes && (frame.header != [] || original != []))
  {
    hide ByteLength, FormatBytes, WidestLabel, Kept, FitFrame, CutResult, EndsWith, Beside, HasNotice;
    NonEmptyBytes(frame.trailer);
    AroundEndsWithTrailer(frame, original);
    AroundEndsWithTrailer(frame, body);
    if ByteLength(frame.Around(original)) > maxBytes && ByteLength(frame.Around(body)) > maxBytes {
      var bodyBudget := maxBytes - frame.Bytes(ByteLength(original));
      NoticeFitsReserve(frame, base, 0, ByteLength(original));
      if bodyBudget <= 0 {
        FrameKeepsTrailer(frame.header, frame.noticeWith(FormatBytes(0)), frame.trailer, maxBytes);
      } else {
        AroundEndsWithTrailer(frame, frame.noticeWith(WidestLabel(ByteLength(original))));
        var (head, tail) := Kept(body, bodyBudget, strategy);
        CutResultEndsWithTrailer(frame, head, tail);
      }
    }
  }

  /**
   The trailer ends every result whose budget holds it, except in one case: it takes the whole budget, something
   else had to be dropped for it, and it starts with the second half of a surrogate pair.
   */
  lemma TrailerSurvives(parts: Parts, options: Options)
    requires ByteLength(FramePart(parts.trailer)) <= Max(0, options.maxBytes)
    ensures var trailer := FramePart(parts.trailer);
      EndsWith(BoundToolText(parts, options), trailer)
      <==> !(trailer != [] && Low(trailer[0]) && ByteLength(trailer) == options.maxBytes
             && (FramePart(parts.header) != [] || parts.body != []))
  {
    hide ByteLength, NoticeWith, Bound;
    NonEmptyBytes(FramePart(parts.trailer));
    var base := NoticeBytes(parts, options);
    CappedBodyEmpty(parts, options);
    if FramePart(parts.trailer) != [] {
      BoundKeepsTrailer(FrameOf(parts, options), base, parts.body, CappedBody(parts, options), Max(0, options.maxBytes), options.strategy);
    }
  }

  lemma OneUnitPart(part: Text)
    requires |part| == 1 && !High(part[0])
    ensures FramePart(part) == part
  {
    assert part[..1] == part && ByteLength(part) <= 3 by {
      assert part[1..] == [];
    }
  }

  /** That case: half a pair as the trailer gives way to a header, at a budget of its three bytes. */
  lemma HalfPairTrailerIsLost(header: CodeUnit)
    requires !High(header)
    ensures var parts, options := Parts([header], [], [0xDC00]), Options(Head, 3, [], 0);
      ByteLength(FramePart(parts.trailer)) <= options.maxBytes
      && !EndsWith(BoundToolText(parts, options), FramePart(parts.trailer))
  {
    hide BoundToolText, FramePart;
    OneUnitPart([header]);
    OneUnitPart([0xDC00]);
    assert [0xDC00 as CodeUnit][1..] == [];
    assert ByteLength([0xDC00]) == 3;
    TrailerSurvives(Parts([header], [], [0xDC00]), Options(Head, 3, [], 0));
  }

  // truncateContent

  const TRUNCATION_MARKER_PREFIX: Text := Ascii("\n\n---\n\n[OUTPUT TRUNCATED:")

  function Marker(contentBytes: nat, limit: nat): Text {
    TRUNCATION_MARKER_PREFIX + Ascii(" showed the first part of ") + FormatBytes(contentBytes)
    + Ascii("; the limit is ") + FormatBytes(limit) + Ascii(".]")
  }

  /** What the notice at the end of cut content says: the size of the content and the limit. */
  lemma MarkerText(contentBytes: nat, limit: nat)
    ensures Marker(contentBytes, limit)
         == Ascii("\n\n---\n\n[OUTPUT TRUNCATED:") + Ascii(" showed the first part of ") + FormatBytes(contentBytes)
            + Ascii("; the limit is ") + FormatBytes(limit) + Ascii(".]")
  {
  }

  lemma MarkerIsAscii(contentBytes: nat, limit: nat)
    ensures IsAscii(Marker(contentBytes, limit))
  {
    hide IsAscii, Ascii, FormatBytes;
    var shown, size, middle, most, last :=
      Ascii(" showed the first part of "), FormatBytes(contentBytes), Ascii("; the limit is "), FormatBytes(limit), Ascii(".]");
    AsciiConcat(TRUNCATION_MARKER_PREFIX, shown);
    AsciiConcat(TRUNCATION_MARKER_PREFIX + shown, size);
    AsciiConcat(TRUNCATION_MARKER_PREFIX + shown + size, middle);
    AsciiConcat(TRUNCATION_MARKER_PREFIX + shown + size + middle, most);
    AsciiConcat(TRUNCATION_MARKER_PREFIX + shown + size + middle + most, last);
  }

  function TruncateContent(content: Text, maxSize: int): Text {
    var limit := Max(0, maxSize);
    var contentBytes := ByteLength(content);
    if contentBytes <= limit then content
    else if limit == 0 then []
    else
      var marker := Marker(contentBytes, limit);
      var markerBytes := ByteLength(marker);
      if markerBytes >= limit then PrefixWithin(marker, limit)
      else PrefixWithin(content, limit - markerBytes) + marker
  }

  lemma TruncateContentWithin(content: Text, maxSize: int)
    ensures ByteLength(TruncateContent(content, maxSize)) <= Max(0, maxSize)
  {
    var limit := Max(0, maxSize);
    var marker := Marker(ByteLength(content), limit);
    PrefixCut(marker, limit);
    if ByteLength(marker) < limit {
      PrefixCut(content, limit - ByteLength(marker));
      ConcatBytes(PrefixWithin(content, limit - ByteLength(marker)), marker);
    }
  }

  /** Content within the limit stays; cut content is a prefix, as long as fits, and the notice with both sizes behind it. */
  lemma TruncatedShape(content: Text, maxSize: int) returns (kept: Text)
    ensures ByteLength(content) <= Max(0, maxSize) ==> TruncateContent(content, maxSize) == content
    ensures var limit, marker := Max(0, maxSize), Marker(ByteLength(content), Max(0, maxSize));
      ByteLength(content) > limit ==>
        if ByteLength(marker) < limit then
          && TruncateContent(content, maxSize) == kept + marker
          && kept <= content && ByteLength(kept) <= limit - ByteLength(marker)
          && (kept == content || |kept| + 1 == |content| || ByteLength(content[..|kept| + 2]) > limit - ByteLength(marker))
        else TruncateContent(content, maxSize) == kept && kept <= marker && ByteLength(kept) <= limit
  {
    hide ByteLength, PrefixWithin, Marker, Ascii, IsAscii;
    var limit := Max(0, maxSize);
    var marker := Marker(ByteLength(content), limit);
    NonEmptyBytes([]);
    kept := [];
    if ByteLength(marker) < limit {
      kept := PrefixWithin(content, limit - ByteLength(marker));
      PrefixCut(content, limit - ByteLength(marker));
    } else if limit > 0 {
      kept := PrefixWithin(marker, limit);
      PrefixCut(marker, limit);
    }
  }

  lemma TruncateContentIdempotent(content: Text, maxSize: int)
    ensures TruncateContent(TruncateContent(content, maxSize), maxSize) == TruncateContent(content, maxSize)
  {
    TruncateContentWithin(content, maxSize);
  }

  lemma AsciiIsWellFormed(t: Text)
    requires IsAscii(t)
    ensures WellFormed(t)
  {
  }

  lemma WellFormedConcat(a: Text, b: Text)
    requires WellFormed(a) && WellFormed(b)
    ensures WellFormed(a + b)
  {
    assert forall i :: 0 <= i < |a| ==> (a + b)[i] == a[i];
    assert forall i :: 0 <= i < |b| ==> (a + b)[|a| + i] == b[i];
  }

  /** Well-formed content is never left with half a surrogate pair. */
  lemma TruncateContentWellFormed(content: Text, maxSize: int)
    requires WellFormed(content)
    ensures WellFormed(TruncateContent(content, maxSize))
  {
    hide ByteLength, PrefixWithin, Marker, WellFormed;
    var limit := Max(0, maxSize);
    var marker := Marker(ByteLength(content), limit);
    MarkerIsAscii(ByteLength(content), limit);
    AsciiIsWellFormed(marker);
    AsciiIsWellFormed([]);
    LongestWellFormedPrefix(marker, limit, 0);
    if ByteLength(marker) < limit {
      var rest := limit - ByteLength(marker);
      LongestWellFormedPrefix(content, rest, 0);
      WellFormedConcat(PrefixWithin(content, rest), marker);
    }
  }
}
