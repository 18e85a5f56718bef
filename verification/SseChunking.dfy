/**
 Chunking and the `[DONE]` detector. Each chunk normalises the whole buffer once more, so a run of CRs before LF may lose
 any number of its CRs, depending on the chunks. Two texts bound what can happen: the text normalised once, and the text
 with every such run dropped.
 */
module SseChunking {
  import opened JsText
  import opened SseDone

  /** A run of CRs, maybe empty, and its LF. */
  predicate LineEnd(t: string) {
    t != "" && (t[0] == '\n' || (t[0] == '\r' && LineEnd(t[1..])))
  }

  /** Every CR of a run that ends in LF dropped. */
  function Collapse(t: string): string {
    if t == "" then ""
    else if t[0] == '\r' && LineEnd(t[1..]) then Collapse(t[1..])
    else [t[0]] + Collapse(t[1..])
  }

  /** Some of those CRs dropped. */
  predicate Sheds(t: string, u: string)
    decreases |t|
  {
    if t == "" then u == ""
    else
      || (u != "" && u[0] == t[0] && Sheds(t[1..], u[1..]))
      || (t[0] == '\r' && LineEnd(t[1..]) && Sheds(t[1..], u))
  }

  // Data of an event

  function DataOf(event: string): seq<string> {
    DataLines(Split(event, '\n'))
  }

  lemma DoneIsOnlyData(event: string)
    ensures IsDone(event) <==> DataOf(event) == ["[DONE]"]
  {
    hide DataLines, Split;
    var data := DataOf(event);
    if |data| > 1 {
      assert Join(data, "\n")[|data[0]|] == '\n';
      assert '\n' in Data(event) && '\n' !in "[DONE]";
    }
  }

  ghost predicate HasOnlyData(lines: seq<string>, data: string) {
    exists i :: IsOnlyData(lines, i, data)
  }

  /** Line `i` holds the only data of some lines. */
  ghost predicate IsOnlyData(lines: seq<string>, i: int, data: string) {
    && 0 <= i < |lines| && StartsWith(lines[i], "data:") && TrimStart(lines[i][5..]) == data
    && forall j :: 0 <= j < |lines| && j != i ==> !StartsWith(lines[j], "data:")
  }

  lemma {:induction false} NoData(lines: seq<string>)
    ensures DataLines(lines) == [] <==> forall j :: 0 <= j < |lines| ==> !StartsWith(lines[j], "data:")
  {
    if lines != [] {
      NoData(lines[1..]);
      assert forall j :: 0 < j < |lines| ==> lines[1..][j - 1] == lines[j];
    }
  }

  lemma {:induction false} OnlyData(lines: seq<string>, data: string)
    ensures DataLines(lines) == [data] <==> HasOnlyData(lines, data)
  {
    hide TrimStart;
    if lines != [] {
      var rest := lines[1..];
      OnlyData(rest, data);
      NoData(rest);
      assert forall j :: 0 < j < |lines| ==> rest[j - 1] == lines[j];
      if StartsWith(lines[0], "data:") {
        assert DataLines(lines) == [TrimStart(lines[0][5..])] + DataLines(rest);
        if DataLines(lines) == [data] {
          assert |DataLines(rest)| == 0 && DataLines(lines)[0] == data;
          assert IsOnlyData(lines, 0, data);
        }
        if i :| IsOnlyData(lines, i, data) {
          assert i == 0;
        }
      } else {
        if i :| IsOnlyData(rest, i, data) {
          assert IsOnlyData(lines, i + 1, data);
        }
        if i :| IsOnlyData(lines, i, data) {
          assert IsOnlyData(rest, i - 1, data);
        }
      }
    }
  }

  /**
   Exactly the `[DONE]` events: one of their lines is `data:`, white space and `[DONE]`, and no other line holds data.
   */
  lemma DoneExactly(event: string)
    ensures IsDone(event) <==> HasOnlyData(Split(event, '\n'), "[DONE]")
  {
    hide IsDone, DataLines, HasOnlyData;
    DoneIsOnlyData(event);
    OnlyData(Split(event, '\n'), "[DONE]");
  }

  /** White space of any kind and length, but no line end, may stand before `[DONE]`. */
  lemma BlanksBeforeDone(blanks: string)
    requires forall i :: 0 <= i < |blanks| ==> IsSpace(blanks[i]) && blanks[i] != '\n'
    ensures IsDone("data:" + blanks + "[DONE]")
  {
    hide Split, DataLines, TrimStart;
    var event := "data:" + blanks + "[DONE]";
    assert event[..5] == "data:" && event[5..] == blanks + "[DONE]";
    SplitOneLine(event);
    TrimStartOf(blanks, "[DONE]");
    DataOfLine(event);
    DoneIsOnlyData(event);
  }

  /** A stream whose only event is such a line has its `[DONE]`, in every chunking. */
  lemma DoneLineIsFound(blanks: string)
    requires forall i :: 0 <= i < |blanks| ==> IsSpace(blanks[i]) && blanks[i] != '\n'
    ensures HasDone(Normalise("data:" + blanks + "[DONE]" + EVENT_END))
  {
    hide IsDone, Normalise, Drain, HasDone, Boundary;
    var event := "data:" + blanks + "[DONE]";
    BlanksBeforeDone(blanks);
    OneLine(event);
    NormalisedAlready(event + EVENT_END);
    TakeEvent(event, "");
    assert event + EVENT_END + "" == event + EVENT_END;
    DrainFindsDone(event + EVENT_END);
  }

  lemma OneLine(event: string)
    requires '\n' !in event && event != "" && event[|event| - 1] != '\r'
    ensures NoCrLf(event + EVENT_END) && IsEvent(event)
  {
    assert forall k :: 0 <= k < |event| ==> (event + EVENT_END)[k] == event[k];
  }

  lemma {:induction false} SplitAtNewline(a: string, b: string)
    ensures Split(a + "\n" + b, '\n') == Split(a, '\n') + Split(b, '\n')
  {
    if a == "" {
      assert (a + "\n" + b)[1..] == b;
    } else {
      assert (a + "\n" + b)[1..] == a[1..] + "\n" + b;
      SplitAtNewline(a[1..], b);
    }
  }

  lemma {:induction false} DataLinesConcat(a: seq<string>, b: seq<string>)
    ensures DataLines(a + b) == DataLines(a) + DataLines(b)
  {
    if a == [] {
      assert a + b == b;
    } else {
      assert (a + b)[1..] == a[1..] + b;
      DataLinesConcat(a[1..], b);
    }
  }

  lemma DataAroundNewline(a: string, b: string)
    ensures DataOf(a + "\n" + b) == DataOf(a) + DataOf(b)
  {
    SplitAtNewline(a, b);
    DataLinesConcat(Split(a, '\n'), Split(b, '\n'));
  }

  lemma {:induction false} TrimStartKeepsEnd(s: string)
    ensures TrimStart(s) == "" || (s != "" && TrimStart(s)[|TrimStart(s)| - 1] == s[|s| - 1])
  {
    if s != "" && IsSpace(s[0]) {
      TrimStartKeepsEnd(s[1..]);
    }
  }

  /** A CR at the end of a line leaves the data alone, or makes its last line something else than `[DONE]`. */
  lemma {:induction false} DataBeforeCr(a: string)
    ensures var data := DataOf(a + "\r"); data == DataOf(a) || (data != [] && data[|data| - 1] != "[DONE]")
    decreases |a|
  {
    hide TrimStart;
    if i :| 0 <= i < |a| && a[i] == '\n' {
      hide DataOf;
      var before, behind := a[..i], a[i + 1..];
      assert a == before + "\n" + behind && a + "\r" == before + "\n" + (behind + "\r");
      DataAroundNewline(before, behind);
      DataAroundNewline(before, behind + "\r");
      DataBeforeCr(behind);
    } else {
      SplitOneLine(a);
      SplitOneLine(a + "\r");
      DataOfLine(a);
      DataOfLine(a + "\r");
      CrBehindData(a);
    }
  }

  lemma CrBehindData(line: string)
    ensures StartsWith(line + "\r", "data:") <==> StartsWith(line, "data:")
    ensures StartsWith(line, "data:") ==> TrimStart((line + "\r")[5..]) != "[DONE]"
  {
    if StartsWith(line + "\r", "data:") {
      assert (line + "\r")[4] == "data:"[4] != '\r';
      assert (line + "\r")[..5] == line[..5];
      TrimStartKeepsEnd((line + "\r")[5..]);
    }
  }

  lemma DataOfLine(line: string)
    requires Split(line, '\n') == [line]
    ensures DataOf(line) == if StartsWith(line, "data:") then [TrimStart(line[5..])] else []
  {
    assert [line][1..] == [];
  }

  // Taking events

  /** What stands before a blank line: no blank line inside, no line end at its end. */
  predicate IsEvent(e: string) {
    && (forall k :: 0 <= k < |e| - 1 ==> e[k] != '\n' || e[k + 1] != '\n')
    && (e != "" ==> e[|e| - 1] != '\n')
  }

  lemma TakeEvent(e: string, rest: string)
    requires IsEvent(e)
    ensures Drain(e + EVENT_END + rest) == if IsDone(e) then Sse(rest, true) else Drain(rest)
  {
    hide IsDone;
    var t := e + EVENT_END + rest;
    BoundaryIsFirst(t, |e|);
    assert t[..|e|] == e && t[|e| + 2..] == rest;
  }

  lemma FirstEvent(t: string)
    requires Boundary(t) >= 0
    ensures var b := Boundary(t); IsEvent(t[..b]) && t == t[..b] + EVENT_END + t[b + 2..]
  {
    var b := Boundary(t);
    forall k | 0 <= k < b
      ensures t[k] != '\n' || t[k + 1] != '\n'
    {
      assert !StartsWith(t[k..], EVENT_END);
      assert t[k..][..2] == [t[k], t[k + 1]];
    }
  }

  lemma NoBlankLine(t: string)
    requires Boundary(t) < 0
    ensures forall k :: 0 <= k < |t| - 1 ==> t[k] != '\n' || t[k + 1] != '\n'
  {
    forall k | 0 <= k < |t| - 1
      ensures t[k] != '\n' || t[k + 1] != '\n'
    {
      assert !StartsWith(t[k..], EVENT_END);
      assert t[k..][..2] == [t[k], t[k + 1]];
    }
  }

  /** The events a text starts with, before the first `[DONE]`. */
  function Taken(t: string): string
    decreases |t|
  {
    var b := Boundary(t);
    if b < 0 || IsDone(t[..b]) then "" else t[..b + 2] + Taken(t[b + 2..])
  }

  lemma NothingToTake(t: string)
    requires Boundary(t) < 0
    ensures Drain(t) == Sse(t, false) && Taken(t) == ""
  {
  }

  lemma TakenStep(t: string)
    requires !Drain(t).done && Boundary(t) >= 0
    ensures var line, rest := t[..Boundary(t) + 2], t[Boundary(t) + 2..];
      && t == line + rest && Taken(t) == line + Taken(rest) && Drain(t) == Drain(rest)
      && IsEvent(line[..|line| - 2]) && line == line[..|line| - 2] + EVENT_END && !IsDone(line[..|line| - 2])
  {
    hide IsDone;
    FirstEvent(t);
    var line := t[..Boundary(t) + 2];
    assert line[..|line| - 2] == t[..Boundary(t)];
  }

  lemma {:induction false} DrainSplits(t: string)
    requires !Drain(t).done
    ensures t == Taken(t) + Drain(t).buffer && Boundary(Drain(t).buffer) < 0
    ensures Taken(t) == "" || Taken(t)[|Taken(t)| - 1] == '\n'
    decreases |t|
  {
    hide Boundary, IsDone, Drain, Taken;
    if Boundary(t) < 0 {
      NothingToTake(t);
    } else {
      TakenStep(t);
      DrainSplits(t[Boundary(t) + 2..]);
    }
  }

  /** Whatever follows them, the events without `[DONE]` are taken first. */
  lemma {:induction false} DrainSkips(t: string, rest: string)
    requires !Drain(t).done
    ensures Drain(Taken(t) + rest) == Drain(rest)
    decreases |t|
  {
    hide Boundary, IsDone, Drain, Taken;
    if Boundary(t) < 0 {
      NothingToTake(t);
      assert "" + rest == rest;
    } else {
      TakenStep(t);
      var line, behind := t[..Boundary(t) + 2], t[Boundary(t) + 2..];
      DrainSkips(behind, rest);
      TakeEvent(line[..|line| - 2], Taken(behind) + rest);
      assert Taken(t) + rest == line + (Taken(behind) + rest);
    }
  }

  lemma FirstOf(t: string) returns (event: string, rest: string)
    requires Drain(t).done
    ensures IsEvent(event) && t == event + EVENT_END + rest
  {
    hide IsDone;
    FirstEvent(t);
    event, rest := t[..Boundary(t)], t[Boundary(t) + 2..];
  }

  lemma {:induction false} DoneExtends(t: string, rest: string)
    requires Drain(t).done
    ensures Drain(t + rest).done
    decreases |t|
  {
    hide Drain, IsDone, IsEvent;
    var event, behind := FirstOf(t);
    TakeEvent(event, behind);
    TakeEvent(event, behind + rest);
    assert t + rest == event + EVENT_END + (behind + rest);
    if !IsDone(event) {
      DoneExtends(behind, rest);
    }
  }

  lemma NewlineBeforeEvent(event: string, rest: string)
    requires IsEvent("\n" + event)
    ensures Drain("\n" + event + EVENT_END + rest).done <==> Drain(event + EVENT_END + rest).done
  {
    hide Drain, IsDone, DataOf;
    assert forall k :: 0 <= k < |event| ==> ("\n" + event)[k + 1] == event[k];
    TakeEvent(event, rest);
    TakeEvent("\n" + event, rest);
    assert "" + "\n" + event == "\n" + event;
    DataAroundNewline("", event);
    DataOfEmpty();
    DoneIsOnlyData(event);
    DoneIsOnlyData("\n" + event);
  }

  lemma DataOfEmpty()
    ensures DataOf("") == [] && !IsDone("")
  {
    DataOfLine("");
    DoneIsOnlyData("");
  }

  lemma {:induction false} LeadingNewline(t: string)
    ensures Drain("\n" + t).done <==> Drain(t).done
    decreases |t|
  {
    hide Boundary, Drain, IsDone, DataOf;
    var u := "\n" + t;
    if t != "" && t[0] == '\n' {
      LeadingNewline(t[1..]);
      assert t == "\n" + t[1..] && u == "" + EVENT_END + t[1..];
      TakeEvent("", t[1..]);
      DataOfEmpty();
    } else if Boundary(t) < 0 {
      NoBlankLine(t);
      BoundaryIsFirst(u, |u|);
      NothingToTake(t);
      NothingToTake(u);
    } else {
      FirstEvent(t);
      var event, rest := t[..Boundary(t)], t[Boundary(t) + 2..];
      assert event != "" && event[0] == t[0];
      NewlineBeforeEvent(event, rest);
      assert u == "\n" + event + EVENT_END + rest;
    }
  }

  // A dropped CR never loses a `[DONE]` event

  lemma CrMakesBlankLine(a: string, b: string, rest: string)
    requires IsEvent(a) && IsEvent(b)
    requires IsDone(a + "\n" + "\r" + "\n" + b) || Drain(rest).done
    ensures Drain(a + EVENT_END + (b + EVENT_END + rest)).done
  {
    hide Drain, IsDone, DataOf;
    DataAroundNewline(a, "\r");
    DataAroundNewline(a + "\n" + "\r", b);
    DataOfCr();
    DoneIsOnlyData(a + "\n" + "\r" + "\n" + b);
    DoneIsOnlyData(a);
    DoneIsOnlyData(b);
    TakeEvent(a, b + EVENT_END + rest);
    TakeEvent(b, rest);
  }

  lemma CrEndsLine(a: string, b: string)
    requires IsDone(a + "\r" + "\n" + b)
    ensures IsDone(a + "\n" + b)
  {
    hide IsDone, DataOf;
    DataAroundNewline(a + "\r", b);
    DataAroundNewline(a, b);
    DataBeforeCr(a);
    var data := DataOf(a + "\r");
    assert data != [] ==> (data + DataOf(b))[|data| - 1] == data[|data| - 1];
    DoneIsOnlyData(a + "\r" + "\n" + b);
    DoneIsOnlyData(a + "\n" + b);
  }

  lemma PartsOfEvent(a: string, b: string)
    requires IsEvent(a + "\r\n" + b)
    ensures IsEvent(b) && b != "" && b[0] != '\n'
    ensures if a != "" && a[|a| - 1] == '\n' then IsEvent(a[..|a| - 1]) else IsEvent(a + "\n" + b)
  {
    var event := a + "\r\n" + b;
    assert forall k :: 0 <= k < |b| ==> event[|a| + 2 + k] == b[k];
    assert forall k :: 0 <= k < |a| ==> event[k] == a[k];
    assert event[|a| + 1] == '\n' && event[|event| - 1] != '\n';
  }

  lemma CrInsideEvent(a: string, b: string, rest: string)
    requires IsEvent(a + "\r\n" + b) && Drain(a + "\r\n" + b + EVENT_END + rest).done
    ensures Drain(a + "\n" + b + EVENT_END + rest).done
  {
    hide Drain, IsDone, IsEvent;
    PartsOfEvent(a, b);
    TakeEvent(a + "\r\n" + b, rest);
    assert a + "\r\n" + b == a + "\r" + "\n" + b;
    if a != "" && a[|a| - 1] == '\n' {
      var first := a[..|a| - 1];
      assert a == first + "\n";
      CrMakesBlankLine(first, b, rest);
      assert a + "\n" + b + EVENT_END + rest == first + EVENT_END + (b + EVENT_END + rest);
    } else {
      TakeEvent(a + "\n" + b, rest);
      if IsDone(a + "\r" + "\n" + b) {
        CrEndsLine(a, b);
      }
    }
  }

  lemma DataOfCr()
    ensures DataOf("\r") == []
  {
    SplitOneLine("\r");
    DataOfLine("\r");
  }

  lemma CrAtEventEnd(a: string, rest: string)
    requires IsEvent(a + "\r") && Drain(a + "\r" + EVENT_END + rest).done
    ensures Drain(a + EVENT_END + rest).done
  {
    hide IsDone, DataOf, Drain;
    var event := a + "\r";
    assert forall k :: 0 <= k < |a| ==> event[k] == a[k];
    TakeEvent(event, rest);
    DoneIsOnlyData(event);
    if a != "" && a[|a| - 1] == '\n' {
      var first := a[..|a| - 1];
      assert a == first + "\n" && event == first + "\n" + "\r";
      DataAroundNewline(first, "\r");
      DataOfCr();
      TakeEvent(first, "\n" + rest);
      DoneIsOnlyData(first);
      LeadingNewline(rest);
      assert a + EVENT_END + rest == first + EVENT_END + ("\n" + rest);
    } else {
      assert IsEvent(a);
      TakeEvent(a, rest);
      DataBeforeCr(a);
      DoneIsOnlyData(a);
    }
  }

  function Without(t: string, i: nat): string
    requires i < |t|
  {
    t[..i] + t[i + 1..]
  }

  lemma {:induction false} CrLosesNothing(t: string, i: nat)
    requires i + 1 < |t| && t[i] == '\r' && t[i + 1] == '\n' && Drain(t).done
    ensures Drain(Without(t, i)).done
    decreases |t|
  {
    hide Drain, Boundary, IsDone, IsEvent;
    var event, rest := FirstOf(t);
    TakeEvent(event, rest);
    assert t[|event|] == '\n' && t[|event| + 1] == '\n';
    if i > |event| {
      var k := i - |event| - 2;
      assert rest[k] == t[i] && rest[k + 1] == t[i + 1];
      assert Without(t, i) == event + EVENT_END + Without(rest, k);
      TakeEvent(event, Without(rest, k));
      if !IsDone(event) {
        CrLosesNothing(rest, k);
      }
    } else if i + 1 == |event| {
      assert event == event[..i] + "\r";
      CrAtEventEnd(event[..i], rest);
      assert Without(t, i) == event[..i] + EVENT_END + rest;
    } else {
      assert event[i + 1] == t[i + 1];
      assert event == event[..i] + "\r\n" + event[i + 2..];
      CrInsideEvent(event[..i], event[i + 2..], rest);
      assert Without(t, i) == event[..i] + "\n" + event[i + 2..] + EVENT_END + rest;
    }
  }

  lemma {:induction false} RunLosesNothing(t: string, i: nat)
    requires i < |t| && t[i] == '\r' && LineEnd(t[i + 1..]) && Drain(t).done
    ensures Drain(Without(t, i)).done
    decreases |t| - i
  {
    hide Drain;
    if t[i + 1] == '\n' {
      CrLosesNothing(t, i);
    } else {
      assert t[i + 1..][1..] == t[i + 2..];
      RunLosesNothing(t, i + 1);
      assert Without(t, i) == Without(t, i + 1);
    }
  }

  lemma {:induction false} ShedsLosesNothing(before: string, t: string, u: string)
    requires Sheds(t, u) && Drain(before + t).done
    ensures Drain(before + u).done
    decreases |t|
  {
    hide Drain, LineEnd;
    if t != "" {
      if u != "" && u[0] == t[0] && Sheds(t[1..], u[1..]) {
        assert before + t == before + [t[0]] + t[1..] && before + u == before + [t[0]] + u[1..];
        ShedsLosesNothing(before + [t[0]], t[1..], u[1..]);
      } else {
        assert (before + t)[|before| + 1..] == t[1..];
        RunLosesNothing(before + t, |before|);
        assert Without(before + t, |before|) == before + t[1..];
        ShedsLosesNothing(before, t[1..], u);
      }
    }
  }

  lemma {:induction false} ShedsSame(t: string)
    ensures Sheds(t, t)
  {
    if t != "" {
      ShedsSame(t[1..]);
    }
  }

  lemma {:induction false} LineEndExtends(t: string, rest: string)
    requires LineEnd(t)
    ensures LineEnd(t + rest)
  {
    if t[0] != '\n' {
      assert (t + rest)[1..] == t[1..] + rest;
      LineEndExtends(t[1..], rest);
    }
  }

  lemma {:induction false} ShedsBefore(t: string, u: string, rest: string)
    requires Sheds(t, u)
    ensures Sheds(t + rest, u + rest)
    decreases |t|
  {
    if t == "" {
      assert t + rest == rest && u + rest == rest;
      ShedsSame(rest);
    } else {
      assert (t + rest)[1..] == t[1..] + rest;
      if u != "" && u[0] == t[0] && Sheds(t[1..], u[1..]) {
        assert (u + rest)[1..] == u[1..] + rest;
        ShedsBefore(t[1..], u[1..], rest);
      } else {
        LineEndExtends(t[1..], rest);
        ShedsBefore(t[1..], u, rest);
      }
    }
  }

  lemma {:induction false} CollapseSheds(t: string)
    ensures Sheds(t, Collapse(t))
  {
    if t != "" {
      CollapseSheds(t[1..]);
    }
  }

  // Normalising a buffer with one more chunk

  /** What normalising the whole text would make of a normalised part and the text behind it. */
  function Seam(y: string, s: string): string {
    if y != "" && y[|y| - 1] == '\r' && s != "" && s[0] == '\n' then y[..|y| - 1] + Normalise(s) else y + Normalise(s)
  }

  lemma SeamCons(c: char, y: string, s: string)
    requires y != "" || !(c == '\r' && s != "" && s[0] == '\n')
    ensures Seam([c] + y, s) == [c] + Seam(y, s)
  {
    hide Normalise;
    assert [c] + y + Normalise(s) == [c] + (y + Normalise(s));
    if y != "" {
      assert ([c] + y)[..|y|] == [c] + y[..|y| - 1];
      assert [c] + y[..|y| - 1] + Normalise(s) == [c] + (y[..|y| - 1] + Normalise(s));
    }
  }

  predicate CrLfFirst(t: string) {
    |t| >= 2 && t[0] == '\r' && t[1] == '\n'
  }

  lemma NormaliseCrLf(t: string)
    ensures Normalise("\r\n" + t) == "\n" + Normalise(t) && Normalise("\n" + t) == "\n" + Normalise(t)
  {
    assert ("\r\n" + t)[2..] == t && ("\n" + t)[1..] == t;
  }

  lemma {:induction false} NormaliseSeam(x: string, s: string)
    ensures Normalise(x + s) == Seam(Normalise(x), s)
  {
    hide Normalise, Seam;
    if x == "" {
      assert x + s == s;
      SeamOfEmpty(s);
    } else if CrLfFirst(x) {
      assert x == "\r\n" + x[2..] && x + s == "\r\n" + (x[2..] + s);
      NormaliseCrLf(x[2..]);
      NormaliseCrLf(x[2..] + s);
      NormaliseSeam(x[2..], s);
      SeamCons('\n', Normalise(x[2..]), s);
    } else if x == "\r" && s != "" && s[0] == '\n' {
      assert x + s == "\r\n" + s[1..] && s == "\n" + s[1..];
      NormaliseCrLf(s[1..]);
      SeamOfCr(s);
    } else {
      assert x == [x[0]] + x[1..] && x + s == [x[0]] + (x[1..] + s);
      NormaliseCons(x[0], x[1..]);
      NormaliseCons(x[0], x[1..] + s);
      NormaliseSeam(x[1..], s);
      NormaliseEmpty(x[1..]);
      SeamCons(x[0], Normalise(x[1..]), s);
    }
  }

  lemma SeamOfEmpty(s: string)
    ensures Normalise("") == "" && Seam("", s) == Normalise(s)
  {
  }

  lemma SeamOfCr(s: string)
    requires s != "" && s[0] == '\n'
    ensures Normalise("\r") == "\r" && Seam("\r", s) == Normalise(s)
  {
    assert "\r"[..0] + Normalise(s) == Normalise(s);
  }

  lemma NormaliseEmpty(t: string)
    ensures Normalise(t) == "" <==> t == ""
  {
  }

  lemma {:induction false} SeamSheds(y: string, s: string)
    ensures Sheds(Seam(y, s), Normalise(y + s))
  {
    hide Normalise, Seam;
    if y == "" {
      assert y + s == s;
      SeamOfEmpty(s);
      ShedsSame(Normalise(s));
    } else if CrLfFirst(y) {
      SeamSheds(y[2..], s);
      assert y == "\r\n" + y[2..] && y + s == "\r\n" + (y[2..] + s);
      NormaliseCrLf(y[2..] + s);
      assert y == ['\r'] + (['\n'] + y[2..]);
      SeamCons('\r', ['\n'] + y[2..], s);
      SeamCons('\n', y[2..], s);
      ShedsCrLf(Seam(y[2..], s), Normalise(y[2..] + s));
    } else if y == "\r" && s != "" && s[0] == '\n' {
      SeamOfCr(s);
      assert y + s == "\r\n" + s[1..] && s == "\n" + s[1..];
      NormaliseCrLf(s[1..]);
      ShedsSame(Normalise(s));
    } else {
      SeamSheds(y[1..], s);
      assert y == [y[0]] + y[1..] && y + s == [y[0]] + (y[1..] + s);
      NormaliseCons(y[0], y[1..] + s);
      SeamCons(y[0], y[1..], s);
      ShedsCons(y[0], Seam(y[1..], s), Normalise(y[1..] + s));
    }
  }

  lemma ShedsCons(c: char, t: string, u: string)
    requires Sheds(t, u)
    ensures Sheds([c] + t, [c] + u)
  {
    assert ([c] + t)[1..] == t && ([c] + u)[1..] == u;
  }

  lemma ShedsCrLf(t: string, u: string)
    requires Sheds(t, u)
    ensures Sheds(['\r'] + (['\n'] + t), "\n" + u)
  {
    ShedsCons('\n', t, u);
    assert (['\r'] + (['\n'] + t))[1..] == ['\n'] + t;
  }

  lemma {:induction false} SeamBehind(line: string, y: string, s: string)
    requires line == "" || line[|line| - 1] == '\n'
    ensures Seam(line + y, s) == line + Seam(y, s)
  {
    hide Seam;
    if line == "" {
      assert line + y == y && line + Seam(y, s) == Seam(y, s);
    } else {
      SeamBehind(line[1..], y, s);
      assert line + y == [line[0]] + (line[1..] + y) && line == [line[0]] + line[1..];
      SeamCons(line[0], line[1..] + y, s);
    }
  }

  /** What the whole text holds, normalised once, is found by a chunk or left in the buffer. */
  lemma NormalisedIsNotLost(x: string, s: string)
    requires Drain(Normalise(x + s)).done
    ensures var next := Drain(Normalise(x)); next.done || Drain(Normalise(next.buffer + s)).done
  {
    hide Drain, Normalise, Taken, Seam;
    var y := Normalise(x);
    NormaliseSeam(x, s);
    if !Drain(y).done {
      var left := Drain(y).buffer;
      DrainSplits(y);
      SeamBehind(Taken(y), left, s);
      DrainSkips(y, Seam(left, s));
      SeamSheds(left, s);
      assert "" + Seam(left, s) == Seam(left, s) && "" + Normalise(left + s) == Normalise(left + s);
      ShedsLosesNothing("", Seam(left, s), Normalise(left + s));
    }
  }

  lemma {:induction false} NormalisedIsFound(chunks: seq<string>, s: string)
    requires Drain(Normalise(Concat(chunks) + s)).done
    ensures Feed(chunks).done || Drain(Normalise(Feed(chunks).buffer + s)).done
    decreases |chunks|
  {
    hide Drain, Normalise;
    if chunks != [] {
      var n := |chunks| - 1;
      assert Concat(chunks) + s == Concat(chunks[..n]) + (chunks[n] + s);
      NormalisedIsFound(chunks[..n], chunks[n] + s);
      var before := Feed(chunks[..n]);
      if !before.done {
        assert before.buffer + (chunks[n] + s) == (before.buffer + chunks[n]) + s;
        NormalisedIsNotLost(before.buffer + chunks[n], s);
      }
    }
  }

  // Nothing is found that the collapsed text does not hold

  lemma {:induction false} CollapseAfterLine(line: string, rest: string)
    requires line == "" || line[|line| - 1] == '\n'
    ensures Collapse(line + rest) == Collapse(line) + Collapse(rest)
    ensures line != "" ==> (LineEnd(line + rest) <==> LineEnd(line))
  {
    if line == "" {
      assert line + rest == rest;
    } else {
      assert (line + rest)[1..] == line[1..] + rest;
      CollapseAfterLine(line[1..], rest);
    }
  }

  lemma {:induction false} CollapseNormalised(x: string, s: string)
    ensures Collapse(Normalise(x) + s) == Collapse(x + s)
    ensures LineEnd(Normalise(x) + s) <==> LineEnd(x + s)
  {
    hide Normalise, Collapse, LineEnd;
    if x == "" {
      NormaliseEmpty(x);
    } else if CrLfFirst(x) {
      CollapseNormalised(x[2..], s);
      assert x == "\r\n" + x[2..] && x + s == "\r\n" + (x[2..] + s);
      NormaliseCrLf(x[2..]);
      CollapseCrLf(x[2..] + s);
      CollapseCons('\n', Normalise(x[2..]) + s);
      assert Normalise(x) + s == ['\n'] + (Normalise(x[2..]) + s);
    } else {
      CollapseNormalised(x[1..], s);
      assert x == [x[0]] + x[1..] && x + s == [x[0]] + (x[1..] + s);
      NormaliseCons(x[0], x[1..]);
      CollapseCons(x[0], x[1..] + s);
      CollapseCons(x[0], Normalise(x[1..]) + s);
      assert Normalise(x) + s == [x[0]] + (Normalise(x[1..]) + s);
    }
  }

  lemma CollapseCons(c: char, t: string)
    ensures Collapse([c] + t) == if c == '\r' && LineEnd(t) then Collapse(t) else [c] + Collapse(t)
    ensures LineEnd([c] + t) <==> c == '\n' || (c == '\r' && LineEnd(t))
  {
    assert ([c] + t)[1..] == t;
  }

  lemma CollapseCrLf(t: string)
    ensures Collapse("\r\n" + t) == "\n" + Collapse(t) && LineEnd("\r\n" + t)
  {
    assert "\r\n" + t == ['\r'] + (['\n'] + t);
    CollapseCons('\r', ['\n'] + t);
    CollapseCons('\n', t);
  }

  lemma FoundIsCollapsed(x: string, s: string)
    requires var next := Drain(Normalise(x)); next.done || Drain(Collapse(next.buffer + s)).done
    ensures Drain(Collapse(x + s)).done
  {
    hide Drain, Normalise, Collapse, Taken, Sheds;
    var y := Normalise(x);
    CollapseNormalised(x, s);
    if Drain(y).done {
      DoneExtends(y, s);
      CollapseSheds(y + s);
      assert "" + (y + s) == y + s && "" + Collapse(y + s) == Collapse(y + s);
      ShedsLosesNothing("", y + s, Collapse(y + s));
    } else {
      var rest := Collapse(Drain(y).buffer + s);
      DrainSplits(y);
      DrainSkips(y, rest);
      CollapseAfterLine(Taken(y), Drain(y).buffer + s);
      assert y + s == Taken(y) + (Drain(y).buffer + s);
      CollapseSheds(Taken(y));
      ShedsBefore(Taken(y), Collapse(Taken(y)), rest);
      assert "" + (Taken(y) + rest) == Taken(y) + rest && "" + Collapse(y + s) == Collapse(y + s);
      ShedsLosesNothing("", Taken(y) + rest, Collapse(y + s));
    }
  }

  lemma {:induction false} OnlyCollapsedIsFound(chunks: seq<string>, s: string)
    requires Feed(chunks).done || Drain(Collapse(Feed(chunks).buffer + s)).done
    ensures Drain(Collapse(Concat(chunks) + s)).done
    decreases |chunks|
  {
    hide Drain, Normalise, Collapse;
    if chunks != [] {
      var n := |chunks| - 1;
      var before := Feed(chunks[..n]);
      assert Concat(chunks) + s == Concat(chunks[..n]) + (chunks[n] + s);
      if !before.done {
        assert before.buffer + (chunks[n] + s) == (before.buffer + chunks[n]) + s;
        FoundIsCollapsed(before.buffer + chunks[n], s);
      }
      OnlyCollapsedIsFound(chunks[..n], chunks[n] + s);
    }
  }

  // A chunking that collapses everything

  /** A text without the CRs at its end. */
  function Strip(t: string): string {
    if t != "" && t[|t| - 1] == '\r' then Strip(t[..|t| - 1]) else t
  }

  lemma {:induction false} StripCons(c: char, t: string)
    ensures Strip([c] + t) == if c == '\r' && Strip(t) == "" then "" else [c] + Strip(t)
    decreases |t|
  {
    if t == "" {
      assert [c] + t == [c] && [c][..0] == "";
    } else if t[|t| - 1] == '\r' {
      assert ([c] + t)[..|t|] == [c] + t[..|t| - 1];
      StripCons(c, t[..|t| - 1]);
    }
  }

  lemma {:induction false} CollapseSnoc(t: string, c: char)
    ensures Collapse(t + [c]) == (if c == '\n' then Strip(Collapse(t)) else Collapse(t)) + [c]
    ensures LineEnd(t + [c]) <==> LineEnd(t) || (c == '\n' && Strip(Collapse(t)) == "")
  {
    hide Strip;
    if t == "" {
      assert t + [c] == [c] && [c][1..] == "";
      assert Strip("") == "" by { StripOfEmpty(); }
    } else {
      CollapseSnoc(t[1..], c);
      assert t == [t[0]] + t[1..] && t + [c] == [t[0]] + (t[1..] + [c]);
      CollapseCons(t[0], t[1..]);
      CollapseCons(t[0], t[1..] + [c]);
      StripCons(t[0], Collapse(t[1..]));
    }
  }

  lemma StripOfEmpty()
    ensures Strip("") == ""
  {
  }

  lemma {:induction false} CollapsedHasNoCrLf(t: string)
    ensures NoCrLf(Collapse(t))
    ensures Collapse(t) != "" && Collapse(t)[0] == '\n' <==> LineEnd(t)
  {
    if t != "" {
      CollapsedHasNoCrLf(t[1..]);
      var rest := Collapse(t[1..]);
      assert forall i :: 0 <= i < |rest| ==> ([t[0]] + rest)[i + 1] == rest[i];
    }
  }

  lemma {:induction false} NormalisedAlready(t: string)
    requires NoCrLf(t)
    ensures Normalise(t) == t
  {
    if t != "" {
      NoCrLfTail(t);
      NormalisedAlready(t[1..]);
    }
  }

  /** With empty chunks the CRs before the LF at the end of the buffer go one by one. */
  lemma {:induction false} Squeeze(chunks: seq<string>, t: string) returns (r: seq<string>)
    requires NoCrLf(t) && Boundary(t) < 0 && Feed(chunks) == Drain(t + "\n")
    ensures Concat(r) == Concat(chunks) && Feed(r) == Drain(Strip(t) + "\n")
    decreases |t|
  {
    hide Boundary, Drain, Normalise;
    if t == "" || t[|t| - 1] != '\r' {
      return chunks;
    }
    var shorter := t[..|t| - 1];
    NoBlankLine(t);
    BoundaryIsFirst(t + "\n", |t + "\n"|);
    NothingToTake(t + "\n");
    BoundaryIsFirst(shorter, |shorter|);
    var next := chunks + [""];
    assert next[..|next| - 1] == chunks && Concat(chunks) + "" == Concat(chunks) && t + "\n" + "" == t + "\n";
    NormaliseLastCr(shorter);
    assert t + "\n" == shorter + "\r\n";
    r := Squeeze(next, shorter);
  }

  lemma NormaliseLastCr(t: string)
    requires NoCrLf(t)
    ensures Normalise(t + "\r\n") == t + "\n"
  {
    hide Normalise;
    NormaliseSeam(t + "\r", "\n");
    assert t + "\r" + "\n" == t + "\r\n";
    assert NoCrLf(t + "\r");
    NormalisedAlready(t + "\r");
    NormalisedAlready("\n");
    assert (t + "\r")[..|t|] == t;
  }

  lemma {:induction false} StripBehind(a: string, b: string)
    requires a == "" || a[|a| - 1] == '\n'
    ensures Strip(a + b) == a + Strip(b)
    decreases |b|
  {
    if b != "" && b[|b| - 1] == '\r' {
      assert (a + b)[..|a + b| - 1] == a + b[..|b| - 1];
      StripBehind(a, b[..|b| - 1]);
    } else if b == "" {
      assert a + b == a;
    }
  }

  lemma SqueezeNormalised(chunks: seq<string>, t: string) returns (r: seq<string>)
    requires NoCrLf(t) && Boundary(t) < 0 && Feed(chunks) == Drain(Normalise(t + "\n"))
    ensures Concat(r) == Concat(chunks) && Feed(r) == Drain(Strip(t) + "\n")
  {
    hide Boundary, Drain, Normalise;
    if t != "" && t[|t| - 1] == '\r' {
      var shorter := t[..|t| - 1];
      assert t + "\n" == shorter + "\r\n";
      NormaliseLastCr(shorter);
      NoBlankLine(t);
      BoundaryIsFirst(shorter, |shorter|);
      r := Squeeze(chunks, shorter);
    } else {
      assert NoCrLf(t + "\n");
      NormalisedAlready(t + "\n");
      r := Squeeze(chunks, t);
    }
  }

  lemma {:induction false} CollapsedIsReached(t: string) returns (chunks: seq<string>)
    ensures Concat(chunks) == t
    ensures Feed(chunks).done || Feed(chunks) == Drain(Collapse(t))
  {
    hide Drain, Boundary, Normalise, Collapse;
    if t == "" {
      chunks := [];
      CollapseOfEmpty();
      return;
    }
    var n := |t| - 1;
    var c := t[n];
    var before := CollapsedIsReached(t[..n]);
    chunks := before + [[c]];
    assert chunks[..|before|] == before && t == t[..n] + [c];
    if !Feed(before).done {
      chunks := OneMore(before, t[..n], c);
    }
  }

  lemma CollapseOfEmpty()
    ensures Drain(Collapse("")) == Sse("", false)
  {
  }

  lemma OneMore(before: seq<string>, t: string, c: char) returns (chunks: seq<string>)
    requires Concat(before) == t && !Feed(before).done && Feed(before) == Drain(Collapse(t))
    ensures Concat(chunks) == t + [c] && Feed(chunks) == Drain(Collapse(t + [c]))
  {
    hide Drain, Boundary, Normalise, Collapse, Taken, Strip;
    chunks := before + [[c]];
    assert chunks[..|before|] == before;
    var whole, left := Collapse(t), Feed(before).buffer;
    CollapsedHasNoCrLf(t);
    CollapseSnoc(t, c);
    DrainSplits(whole);
    assert NoCrLf(left) by {
      assert forall i :: 0 <= i < |left| ==> left[i] == whole[i + |Taken(whole)|];
    }
    if c == '\n' {
      chunks := OneMoreLine(chunks, whole, left);
    } else {
      DrainSkips(whole, left + [c]);
      assert whole + [c] == Taken(whole) + (left + [c]);
      assert NoCrLf(left + [c]);
      NormalisedAlready(left + [c]);
    }
  }

  lemma OneMoreLine(chunks: seq<string>, whole: string, left: string) returns (r: seq<string>)
    requires Drain(whole) == Sse(left, false) && NoCrLf(left) && Boundary(left) < 0
    requires Feed(chunks) == Drain(Normalise(left + "\n"))
    ensures Concat(r) == Concat(chunks) && Feed(r) == Drain(Strip(whole) + "\n")
  {
    hide Drain, Boundary, Normalise, Taken, Strip;
    DrainSplits(whole);
    StripBehind(Taken(whole), left);
    DrainSkips(whole, Strip(left) + "\n");
    assert Strip(whole) + "\n" == Taken(whole) + (Strip(left) + "\n");
    r := SqueezeNormalised(chunks, left);
  }

  // The theorems

  /** Every chunking of a text finds `[DONE]` exactly when the text has it, normalised once. */
  lemma EveryChunkingFindsDone(t: string)
    ensures (forall chunks: seq<string> :: Concat(chunks) == t ==> Feed(chunks).done) <==> HasDone(Normalise(t))
  {
    hide Drain, Normalise;
    DrainFindsDone(Normalise(t));
    forall chunks: seq<string> | Concat(chunks) == t && HasDone(Normalise(t))
      ensures Feed(chunks).done
    {
      NormalisedIsFoundAtLast(chunks);
    }
    FeedOfOne(t);
  }

  lemma NormalisedIsFoundAtLast(chunks: seq<string>)
    requires Drain(Normalise(Concat(chunks))).done
    ensures Feed(chunks).done
  {
    hide Drain, Normalise;
    if chunks == [] {
      NothingInEmpty();
    } else {
      NormalisedIsFound(chunks[..|chunks| - 1], chunks[|chunks| - 1]);
    }
  }

  lemma NothingInEmpty()
    ensures !Drain(Normalise("")).done
  {
  }

  lemma FeedOfOne(t: string)
    ensures Concat([t]) == t && Feed([t]) == Drain(Normalise(t))
  {
    hide Drain, Normalise;
    assert [t][..0] == [] && "" + t == t;
  }

  /** Some chunking of a text finds `[DONE]` exactly when the text has it with the CRs before LF dropped. */
  lemma SomeChunkingFindsDone(t: string)
    ensures (exists chunks: seq<string> :: Concat(chunks) == t && Feed(chunks).done) <==> HasDone(Collapse(t))
  {
    hide Drain, Normalise, Collapse;
    DrainFindsDone(Collapse(t));
    if chunks: seq<string> :| Concat(chunks) == t && Feed(chunks).done {
      OnlyCollapsedIsFound(chunks, "");
      assert t + "" == t;
    }
    if HasDone(Collapse(t)) {
      var chunks := CollapsedIsReached(t);
    }
  }

  /**
   The answer for a text is independent of its chunking, and says what the normalised text holds, exactly when dropping
   the further CRs before LF brings about no `[DONE]` event.
   */
  lemma IndependentExactly(t: string)
    ensures (forall chunks: seq<string> :: Concat(chunks) == t ==> (Feed(chunks).done <==> HasDone(Normalise(t))))
       <==> (HasDone(Collapse(t)) ==> HasDone(Normalise(t)))
  {
    hide Drain, Normalise, Collapse, HasDone;
    EveryChunkingFindsDone(t);
    SomeChunkingFindsDone(t);
    FeedOfOne(t);
  }

  lemma {:induction false} CollapseIsNormalise(t: string)
    requires NoCrCrLf(t)
    ensures Collapse(t) == Normalise(t)
  {
    if t != "" {
      NoCrCrLfTail(t, 1);
      assert !CrCrLfAt(t, 0);
      if CrLfFirst(t) {
        NoCrCrLfTail(t, 2);
        CollapseIsNormalise(t[2..]);
        CollapseCrLf(t[2..]);
        assert t == "\r\n" + t[2..];
      } else {
        CollapseIsNormalise(t[1..]);
        if t[0] == '\r' {
          NoRunOfOneCr(t);
        }
      }
    }
  }

  lemma NoRunOfOneCr(t: string)
    requires NoCrCrLf(t) && t != "" && t[0] == '\r' && !CrLfFirst(t)
    ensures !LineEnd(t[1..])
    decreases |t|
  {
    if |t| > 1 && t[1] == '\r' {
      NoCrCrLfTail(t, 1);
      assert !CrCrLfAt(t, 0);
      NoRunOfOneCr(t[1..]);
    }
  }

  /** Without CR CR LF, in particular when each CR is followed by LF, the answer never depends on the chunks. */
  lemma DoneIndependentOfChunking(chunks: seq<string>)
    requires NoCrCrLf(Concat(chunks))
    ensures Feed(chunks).done <==> HasDone(Normalise(Concat(chunks)))
  {
    CollapseIsNormalise(Concat(chunks));
    IndependentExactly(Concat(chunks));
  }

  /** With CR CR LF it may: behind any `[DONE]` event, one more chunk, even an empty one, normalises the rest of the buffer. */
  lemma CrCrLfDependsOnChunking(event: string)
    requires IsEvent(event) && NoCrLf(event + "\n") && IsDone(event)
    ensures var text := event + "\n" + "\r" + "\r\n"; !Feed([text]).done && Feed([text, ""]).done
  {
    hide Drain, Normalise, IsDone;
    var line := event + "\n";
    var text, once := line + "\r" + "\r\n", line + "\r\n";
    assert NoCrLf(line) && NoCrLf(line + "\r");
    NormaliseLastCr(line + "\r");
    NormaliseLastCr(line);
    assert line + "\r" + "\n" == once && line + "\n" == event + EVENT_END + "";
    assert forall k :: 0 <= k < |event| ==> once[k] == event[k];
    BoundaryIsFirst(once, |once|);
    NothingToTake(once);
    TakeEvent(event, "");
    FeedOfOne(text);
    assert [text, ""][..1] == [text] && once + "" == once;
  }

  /** There is such an event. */
  lemma PlainDoneEvent()
    ensures var event := "data:[DONE]"; IsEvent(event) && NoCrLf(event + "\n") && IsDone(event)
  {
    hide IsDone;
    DoneEvent();
  }
}
