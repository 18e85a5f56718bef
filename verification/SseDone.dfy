/** The incremental detector of a `[DONE]` event in a server-sent event stream (lines end in LF or CR LF). */
module SseDone {
  import opened JsText

  const EVENT_END := "\n\n"

  /** `replaceAll("\r\n", "\n")`. */
  function Normalise(t: string): string {
    if t == "" then ""
    else if |t| >= 2 && t[0] == '\r' && t[1] == '\n' then ['\n'] + Normalise(t[2..])
    else [t[0]] + Normalise(t[1..])
  }

  function DataLines(lines: seq<string>): seq<string> {
    if lines == [] then []
    else if StartsWith(lines[0], "data:") then [TrimStart(lines[0][5..])] + DataLines(lines[1..])
    else DataLines(lines[1..])
  }

  function Data(event: string): string {
    Join(DataLines(Split(event, '\n')), "\n")
  }

  predicate IsDone(event: string) {
    Data(event) == "[DONE]"
  }

  // What the detector promises, on the whole text

  function Boundary(t: string): (b: int)
    ensures -1 <= b <= |t| - 2 || b == -1
    ensures b >= 0 ==> t[b] == t[b + 1] == '\n'
  {
    var b := IndexOf(t, EVENT_END);
    assert b >= 0 ==> t[b..][..2] == EVENT_END && t[b] == t[b..][0] && t[b + 1] == t[b..][1];
    b
  }

  /** The finished events of a text: what a blank line ends. */
  function Events(t: string): seq<string>
    decreases |t|
  {
    var b := Boundary(t);
    if b < 0 then [] else [t[..b]] + Events(t[b + 2..])
  }

  ghost predicate HasDone(t: string) {
    exists k :: 0 <= k < |Events(t)| && IsDone(Events(t)[k])
  }

  // The detector

  datatype Sse = Sse(buffer: string, done: bool)

  /** Take finished events from the buffer until one is `[DONE]` or none is left. */
  function Drain(buffer: string): Sse
    decreases |buffer|
  {
    var b := Boundary(buffer);
    if b < 0 then Sse(buffer, false)
    else if IsDone(buffer[..b]) then Sse(buffer[b + 2..], true)
    else Drain(buffer[b + 2..])
  }

  function Observed(s: Sse, chunk: string): Sse {
    if s.done then s else Drain(Normalise(s.buffer + chunk))
  }

  class SseDoneDetector {
    const isEventStream: bool
    var buffer: string
    var done: bool

    function State(): Sse
      reads this
    {
      Sse(buffer, done)
    }

    constructor (isEventStream: bool)
      ensures this.isEventStream == isEventStream && State() == Sse("", false)
    {
      this.isEventStream := isEventStream;
      buffer, done := "", false;
    }

    method Observe(chunk: string)
      modifies this
      ensures State() == if isEventStream then Observed(old(State()), chunk) else old(State())
    {
      hide Boundary, IsDone, Normalise;
      if !isEventStream || done {
        return;
      }
      buffer := Normalise(buffer + chunk);
      ghost var whole := buffer;
      var boundary := Boundary(buffer);
      while boundary >= 0
        invariant boundary == Boundary(buffer) && !done
        invariant Drain(whole) == Drain(buffer)
        decreases |buffer|
      {
        var event := buffer[..boundary];
        buffer := buffer[boundary + 2..];
        if IsDone(event) {
          done := true;
          return;
        }
        boundary := Boundary(buffer);
      }
    }
  }

  // Chunking

  function Concat(chunks: seq<string>): string {
    if chunks == [] then "" else Concat(chunks[..|chunks| - 1]) + chunks[|chunks| - 1]
  }

  /** The detector after a run of chunks. */
  function Feed(chunks: seq<string>): Sse {
    if chunks == [] then Sse("", false) else Observed(Feed(chunks[..|chunks| - 1]), chunks[|chunks| - 1])
  }

  predicate CrCrLfAt(t: string, i: nat) {
    i + 2 < |t| && t[i] == '\r' && t[i + 1] == '\r' && t[i + 2] == '\n'
  }

  /** No CR stands before CR LF; in particular this holds when each CR is followed by LF. */
  ghost predicate NoCrCrLf(t: string) {
    forall i: nat :: !CrCrLfAt(t, i)
  }

  ghost predicate NoCrLf(t: string) {
    forall i :: 0 <= i < |t| - 1 ==> !(t[i] == '\r' && t[i + 1] == '\n')
  }

  lemma {:induction false} NormaliseRemovesCrLf(t: string)
    requires NoCrCrLf(t)
    ensures NoCrLf(Normalise(t))
    ensures t != "" && t[0] != '\n' && !(|t| >= 2 && t[0] == '\r' && t[1] == '\n') ==> |Normalise(t)| > 0 && Normalise(t)[0] == t[0]
  {
    if t == "" {
    } else if |t| >= 2 && t[0] == '\r' && t[1] == '\n' {
      NoCrCrLfTail(t, 2);
      NormaliseRemovesCrLf(t[2..]);
    } else {
      NoCrCrLfTail(t, 1);
      assert !CrCrLfAt(t, 0);
      NormaliseRemovesCrLf(t[1..]);
    }
  }

  lemma NormaliseCons(c: char, rest: string)
    requires !(c == '\r' && rest != "" && rest[0] == '\n')
    ensures Normalise([c] + rest) == [c] + Normalise(rest)
  {
    assert ([c] + rest)[1..] == rest;
  }

  lemma NoCrCrLfTail(t: string, k: nat)
    requires NoCrCrLf(t) && k <= |t|
    ensures NoCrCrLf(t[k..]) && NoCrCrLf(t[..k])
  {
    forall i: nat
      ensures !CrCrLfAt(t[k..], i) && !CrCrLfAt(t[..k], i)
    {
      assert !CrCrLfAt(t, i) && !CrCrLfAt(t, i + k);
    }
  }

  /** Normalising what was already normalised together with a new chunk is normalising the whole text. */
  lemma {:induction false} NormaliseInSteps(t: string, chunk: string)
    requires NoCrCrLf(t + chunk)
    ensures Normalise(t + chunk) == Normalise(Normalise(t) + chunk)
    decreases |t|, 1
  {
    if t == "" {
      assert t + chunk == chunk;
    } else if |t| >= 2 && t[0] == '\r' && t[1] == '\n' {
      assert (t + chunk)[2..] == t[2..] + chunk;
      NoCrCrLfTail(t + chunk, 2);
      NormaliseInSteps(t[2..], chunk);
      assert Normalise(t) + chunk == ['\n'] + (Normalise(t[2..]) + chunk);
      NormaliseCons('\n', Normalise(t[2..]) + chunk);
    } else if |t| >= 2 {
      assert [t[0]] + t[1..] == t;
      NormaliseInStepsBehind(t[0], t[1..], chunk);
    } else {
      assert t == [t[0]] && Normalise(t) == t;
    }
  }

  lemma {:induction false} NormaliseInStepsBehind(c: char, t: string, chunk: string)
    requires NoCrCrLf([c] + t + chunk)
    requires t != "" && !(c == '\r' && t[0] == '\n')
    ensures Normalise([c] + t + chunk) == Normalise(Normalise([c] + t) + chunk)
    decreases 1 + |t|, 0
  {
    hide Normalise;
    assert [c] + t + chunk == [c] + (t + chunk);
    assert ([c] + (t + chunk))[1..] == t + chunk && (t + chunk)[..|t|] == t;
    NoCrCrLfTail([c] + (t + chunk), 1);
    NoCrCrLfTail(t + chunk, |t|);
    assert !CrCrLfAt([c] + (t + chunk), 0);
    assert |t| == 1 ==> t == [t[0]];
    NormaliseInSteps(t, chunk);
    NormaliseRemovesCrLf(t);
    NormaliseCons(c, t + chunk);
    NormaliseCons(c, t);
    NormaliseCons(c, Normalise(t) + chunk);
    assert [c] + Normalise(t) + chunk == [c] + (Normalise(t) + chunk);
  }

  lemma {:induction false} CrLfShrinks(t: string)
    ensures |Normalise(t)| <= |t| && (!NoCrLf(t) ==> |Normalise(t)| < |t|)
    decreases |t|
  {
    if t == "" {
    } else if |t| >= 2 && t[0] == '\r' && t[1] == '\n' {
      CrLfShrinks(t[2..]);
    } else {
      CrLfShrinks(t[1..]);
      assert NoCrLf(t[1..]) ==> NoCrLf(t) by {
        assert forall i :: 0 < i < |t| ==> t[i] == t[1..][i - 1];
      }
    }
  }

  lemma {:induction false} CrCrLfLeavesCrLf(t: string, i: nat)
    requires CrCrLfAt(t, i)
    ensures !NoCrLf(Normalise(t))
    decreases |t|
  {
    if i == 0 {
      assert t[1..][1..] == t[2..];
      assert Normalise(t[1..])[0] == '\n';
      assert Normalise(t) == ['\r'] + Normalise(t[1..]);
      assert Normalise(t)[0] == '\r' && Normalise(t)[1] == '\n';
    } else {
      var k := if |t| >= 2 && t[0] == '\r' && t[1] == '\n' then 2 else 1;
      CrCrLfLeavesCrLf(t[k..], i - k);
      var rest := Normalise(t[k..]);
      var j :| 0 <= j < |rest| - 1 && rest[j] == '\r' && rest[j + 1] == '\n';
      assert Normalise(t)[j + 1] == rest[j] && Normalise(t)[j + 2] == rest[j + 1];
    }
  }

  /** Exactly the texts that normalise in steps, wherever they are cut: those without CR CR LF. */
  lemma NormalisesInStepsExactly(t: string)
    ensures NoCrCrLf(t) <==> forall k :: 0 <= k <= |t| ==> Normalise(Normalise(t[..k]) + t[k..]) == Normalise(t)
  {
    if NoCrCrLf(t) {
      forall k | 0 <= k <= |t|
        ensures Normalise(Normalise(t[..k]) + t[k..]) == Normalise(t)
      {
        assert t[..k] + t[k..] == t;
        NormaliseInSteps(t[..k], t[k..]);
      }
    } else {
      var i: nat :| CrCrLfAt(t, i);
      CrCrLfLeavesCrLf(t, i);
      CrLfShrinks(Normalise(t));
      var k := |t|;
      assert t[..k] == t && Normalise(t) + t[k..] == Normalise(t);
      assert Normalise(Normalise(t[..k]) + t[k..]) != Normalise(t);
    }
  }

  lemma NoCrLfTail(t: string)
    requires NoCrLf(t) && t != ""
    ensures NoCrLf(t[1..])
  {
  }

  lemma {:induction false} DrainFindsDone(t: string)
    ensures Drain(t).done <==> HasDone(t)
    decreases |t|
  {
    hide Boundary, IsDone;
    var b := Boundary(t);
    if b >= 0 {
      DrainFindsDone(t[b + 2..]);
      var rest := Events(t[b + 2..]);
      assert Events(t) == [t[..b]] + rest;
      assert forall k :: 0 <= k < |rest| ==> Events(t)[k + 1] == rest[k];
      if IsDone(t[..b]) {
        assert IsDone(Events(t)[0]);
      }
    }
  }

  lemma {:induction false} DoneIsFinal(chunks: seq<string>, more: seq<string>)
    requires Feed(chunks).done
    ensures Feed(chunks + more) == Feed(chunks)
    decreases |more|
  {
    if more == [] {
      assert chunks + more == chunks;
    } else {
      assert (chunks + more)[..|chunks + more| - 1] == chunks + more[..|more| - 1];
      DoneIsFinal(chunks, more[..|more| - 1]);
    }
  }

  lemma {:induction false} SplitOneLine(s: string)
    requires '\n' !in s
    ensures Split(s, '\n') == [s]
  {
    if s != "" {
      SplitOneLine(s[1..]);
      assert [s[1..]][1..] == [] && [s[0]] + s[1..] == s;
    }
  }

  lemma DoneEvent()
    ensures IsDone("data:[DONE]")
  {
    hide Split;
    var event := "data:" + "[DONE]";
    SplitOneLine(event);
    assert event[..5] == "data:" && event[5..] == "[DONE]";
    assert TrimStart("[DONE]") == "[DONE]";
    assert DataLines([event]) == ["[DONE]"] + DataLines([event][1..]);
    assert event == "data:[DONE]";
  }

  lemma BoundaryIsFirst(t: string, b: nat)
    requires forall j :: 0 <= j < b && j < |t| - 1 ==> t[j] != '\n' || t[j + 1] != '\n'
    ensures b + 1 < |t| && t[b] == t[b + 1] == '\n' ==> Boundary(t) == b
    ensures |t| <= b + 1 ==> Boundary(t) == -1
  {
    if b + 1 < |t| && t[b] == t[b + 1] == '\n' {
      assert t[b..][..2] == EVENT_END;
    }
  }
}
