/** How an observed provider send ends: one terminal status per attempt. */
module ProviderAttempt {
  import opened Options

  datatype Status = Completed | Failed | Cancelled | Aborted

  /** The abort signal: not aborted, stopped by the user, or aborted for another reason. */
  datatype Signal = Quiet | UserStop | OtherAbort

  /** What a thrown value or a cancel reason is, as far as classification looks at it. */
  datatype Reason = AbortError | OtherError | NotAnError

  /** A thrown value: its kind, and what the caller's own classifier says of it. */
  datatype Thrown = Thrown(kind: Reason, classified: Option<Status>)

  function Or(first: Option<Status>, other: Status): Status {
    if first.Some? then first.value else other
  }

  function SignalOutcome(signal: Signal): Option<Status> {
    match signal
    case Quiet => None
    case UserStop => Some(Cancelled)
    case OtherAbort => Some(Aborted)
  }

  function ClassifyCancellation(reason: Reason, signal: Signal, protocolCompleted: bool): Status {
    Or(SignalOutcome(signal),
       match reason
       case AbortError => Aborted
       case OtherError => Failed
       case NotAnError => if protocolCompleted then Completed else Cancelled)
  }

  function ClassifyError(error: Thrown, signal: Signal): Status {
    Or(error.classified, Or(SignalOutcome(signal), if error.kind == AbortError then Aborted else Failed))
  }
}

/**
 The observed response body. Each event is one uninterrupted piece of code between two awaits, of `pull`, of `cancel`,
 or of the abort signal's owner; a run is any order of events their state allows.
 */
module ObservedResponse {
  import opened Options
  import opened JsText
  import opened SseDone
  import opened SseChunking
  import opened ProviderAttempt

  datatype Stream = Readable | Closed | Errored

  /** Where `pull` is: not running, awaiting a read, or awaiting `settle` before it closes or errors the stream. */
  datatype Pull = PullIdle | Reading | ClosingNext | ErroringNext

  datatype Cancel = NotCancelled | CancellingReader | SettlingCancel | CancelFinished

  /** `finished` lists the statuses handed to `finishAttempt`. */
  datatype State = State(settled: bool, finished: seq<Status>, cancellation: Option<Status>, stream: Stream, pull: Pull,
                         cancel: Cancel, sse: Sse, signal: Signal)

  /** What does not change: whether the response is ok, is an event stream, and how a stream's TypeError is classified. */
  datatype Config = Config(ok: bool, isEventStream: bool, typeError: Thrown)

  datatype Event =
    | PullCalled
    | ReadDone
    | ReadValue(chunk: string)
    | ReadError(error: Thrown)
    | PullResumes
    | CancelCalled(reason: Reason)
    | ReaderCancelled
    | CancelResumes
    | SignalAborts(outcome: Signal)

  const INIT := State(false, [], None, Readable, PullIdle, NotCancelled, Sse("", false), Quiet)

  /** Pulls do not overlap; a stream that is no longer readable is neither pulled nor cancelled. */
  predicate Enabled(s: State, e: Event) {
    match e
    case PullCalled => s.pull == PullIdle && s.stream == Readable
    case ReadDone => s.pull == Reading
    case ReadValue(_) => s.pull == Reading
    case ReadError(_) => s.pull == Reading
    case PullResumes => s.pull == ClosingNext || s.pull == ErroringNext
    case CancelCalled(_) => s.cancel == NotCancelled && s.stream == Readable
    case ReaderCancelled => s.cancel == CancellingReader
    case CancelResumes => s.cancel == SettlingCancel
    case SignalAborts(outcome) => s.signal == Quiet && outcome != Quiet
  }

  function Settle(s: State, status: Status): State {
    if s.settled then s else s.(settled := true, finished := s.finished + [status])
  }

  /** The catch block of `pull`, up to its await. */
  function Catch(s: State, error: Thrown): State {
    Settle(s, Or(s.cancellation, ClassifyError(error, s.signal))).(pull := ErroringNext)
  }

  function Step(c: Config, s: State, e: Event): State {
    match e
    case PullCalled => s.(pull := Reading)
    case ReadDone =>
      var known := if s.cancellation.Some? then s.cancellation else SignalOutcome(s.signal);
      Settle(s, Or(known, if c.ok then Completed else Failed)).(pull := ClosingNext)
    case ReadValue(chunk) =>
      var t := s.(sse := if c.isEventStream then Observed(s.sse, chunk) else s.sse);
      if t.stream == Readable then t.(pull := PullIdle) else Catch(t, c.typeError)
    case ReadError(error) => Catch(s, error)
    case PullResumes =>
      if s.pull == ClosingNext then
        if s.stream == Readable then s.(stream := Closed, pull := PullIdle) else Catch(s, c.typeError)
      else s.(stream := if s.stream == Readable then Errored else s.stream, pull := PullIdle)
    case CancelCalled(reason) =>
      s.(stream := Closed, cancel := CancellingReader,
         cancellation := Some(ClassifyCancellation(reason, s.signal, s.sse.done)))
    case ReaderCancelled => Settle(s, Or(s.cancellation, Cancelled)).(cancel := SettlingCancel)
    case CancelResumes => s.(cancel := CancelFinished)
    case SignalAborts(outcome) => s.(signal := outcome)
  }

  /** `t` is reached from `s` by the events of `es` in order. */
  ghost predicate Run(c: Config, s: State, es: seq<Event>, t: State)
    decreases |es|
  {
    if es == [] then s == t else Enabled(s, es[0]) && Run(c, Step(c, s, es[0]), es[1..], t)
  }

  /** Nothing is in flight and the stream has ended. */
  predicate Ended(s: State) {
    s.pull == PullIdle && (s.cancel == NotCancelled || s.cancel == CancelFinished) && s.stream != Readable
  }

  ghost predicate Inv(s: State) {
    && |s.finished| == (if s.settled then 1 else 0)
    && (s.cancellation.Some? <==> s.cancel != NotCancelled)
    && (s.cancel != NotCancelled ==> s.stream == Closed)
    && (s.stream != Readable && s.cancel == NotCancelled ==> s.settled && s.pull == PullIdle)
    && (s.pull == ClosingNext || s.pull == ErroringNext ==> s.settled)
    && (s.cancel == SettlingCancel || s.cancel == CancelFinished ==> s.settled)
  }

  lemma StepKeepsInv(c: Config, s: State, e: Event)
    requires Inv(s) && Enabled(s, e)
    ensures Inv(Step(c, s, e))
    ensures s.settled ==> Step(c, s, e).finished == s.finished
  {
  }

  lemma {:induction false} RunKeepsInv(c: Config, s: State, es: seq<Event>, t: State)
    requires Inv(s) && Run(c, s, es, t)
    ensures Inv(t)
    ensures s.settled ==> t.settled && t.finished == s.finished
    decreases |es|
  {
    if es != [] {
      StepKeepsInv(c, s, es[0]);
      RunKeepsInv(c, Step(c, s, es[0]), es[1..], t);
    }
  }

  /** In every run `finishAttempt` is called at most once, and exactly once when the run has ended. */
  lemma FinishesOnce(c: Config, es: seq<Event>, t: State)
    requires Run(c, INIT, es, t)
    ensures |t.finished| <= 1
    ensures Ended(t) ==> |t.finished| == 1
  {
    RunKeepsInv(c, INIT, es, t);
  }

  /** The first terminal status stands, whatever continues to run after it. */
  lemma FirstTerminalStands(c: Config, es: seq<Event>, s: State, more: seq<Event>, t: State)
    requires Run(c, INIT, es, s) && Run(c, s, more, t) && s.finished != []
    ensures t.finished == s.finished
  {
    RunKeepsInv(c, INIT, es, s);
    RunKeepsInv(c, s, more, t);
  }

  lemma {:induction false} CancellationSettles(c: Config, s: State, es: seq<Event>, t: State)
    requires Inv(s) && s.cancellation.Some? && (s.settled ==> s.finished == [s.cancellation.value])
    requires Run(c, s, es, t)
    ensures t.settled ==> t.finished == [s.cancellation.value]
    decreases |es|
  {
    if es != [] {
      StepKeepsInv(c, s, es[0]);
      CancellationSettles(c, Step(c, s, es[0]), es[1..], t);
    }
  }

  /** A cancel that begins before the attempt is settled decides its status, however the pending read continues. */
  lemma CancelDecides(c: Config, es: seq<Event>, s: State, reason: Reason, more: seq<Event>, t: State)
    requires Run(c, INIT, es, s) && !s.settled && Enabled(s, CancelCalled(reason))
    requires Run(c, Step(c, s, CancelCalled(reason)), more, t)
    ensures var status :=
        match s.signal
        case UserStop => Cancelled
        case OtherAbort => Aborted
        case Quiet =>
          match reason
          case AbortError => Aborted
          case OtherError => Failed
          case NotAnError => if s.sse.done then Completed else Cancelled;
      && (t.finished == [] || t.finished == [status])
      && (Ended(t) ==> t.finished == [status])
  {
    RunKeepsInv(c, INIT, es, s);
    var s' := Step(c, s, CancelCalled(reason));
    StepKeepsInv(c, s, CancelCalled(reason));
    RunKeepsInv(c, s', more, t);
    CancellationSettles(c, s', more, t);
  }

  /** A body that ends on its own reports the abort signal if there is one, else whether the response was ok. */
  lemma BodyEndDecides(c: Config, es: seq<Event>, s: State, more: seq<Event>, t: State)
    requires Run(c, INIT, es, s) && !s.settled && s.cancellation == None && Enabled(s, ReadDone)
    requires Run(c, Step(c, s, ReadDone), more, t)
    ensures t.finished == [match s.signal
                           case Quiet => if c.ok then Completed else Failed
                           case UserStop => Cancelled
                           case OtherAbort => Aborted]
  {
    RunKeepsInv(c, INIT, es, s);
    StepKeepsInv(c, s, ReadDone);
    RunKeepsInv(c, Step(c, s, ReadDone), more, t);
  }

  /** A body whose read fails reports the classified error, the caller's own classification first. */
  lemma ReadErrorDecides(c: Config, es: seq<Event>, s: State, error: Thrown, more: seq<Event>, t: State)
    requires Run(c, INIT, es, s) && !s.settled && s.cancellation == None && Enabled(s, ReadError(error))
    requires Run(c, Step(c, s, ReadError(error)), more, t)
    ensures error.classified.Some? ==> t.finished == [error.classified.value]
    ensures error.classified == None ==>
      t.finished == [if s.signal == UserStop then Cancelled
                     else if s.signal == OtherAbort || error.kind == AbortError then Aborted else Failed]
  {
    RunKeepsInv(c, INIT, es, s);
    StepKeepsInv(c, s, ReadError(error));
    RunKeepsInv(c, Step(c, s, ReadError(error)), more, t);
  }

  /** After the report the consumer's stream ends as the body did: closed at its end, failed after a failed read. */
  lemma StreamEndsAsBody(c: Config, s: State, e: Event)
    requires s.pull == Reading && s.stream == Readable && (e == ReadDone || e.ReadError?)
    ensures Enabled(s, e) && Enabled(Step(c, s, e), PullResumes)
    ensures var t := Step(c, Step(c, s, e), PullResumes);
      t.pull == PullIdle && t.stream == if e == ReadDone then Closed else Errored
  {
  }

  /** The text read by a run, chunk by chunk. */
  function ChunksRead(es: seq<Event>): seq<string> {
    if es == [] then []
    else
      var e := es[|es| - 1];
      ChunksRead(es[..|es| - 1]) + (if e.ReadValue? then [e.chunk] else [])
  }

  lemma {:induction false} RunSplitsLast(c: Config, s: State, es: seq<Event>, t: State) returns (u: State)
    requires es != [] && Run(c, s, es, t)
    ensures Run(c, s, es[..|es| - 1], u) && Enabled(u, es[|es| - 1]) && t == Step(c, u, es[|es| - 1])
    decreases |es|
  {
    if |es| == 1 {
      u := s;
    } else {
      u := RunSplitsLast(c, Step(c, s, es[0]), es[1..], t);
      assert es[1..][..|es| - 2] == es[..|es| - 1][1..];
    }
  }

  lemma {:induction false} DetectorSawChunks(c: Config, es: seq<Event>, t: State)
    requires c.isEventStream && Run(c, INIT, es, t)
    ensures t.sse == Feed(ChunksRead(es))
  {
    if es != [] {
      var n := |es| - 1;
      var u := RunSplitsLast(c, INIT, es, t);
      DetectorSawChunks(c, es[..n], u);
      var before := ChunksRead(es[..n]);
      if es[n].ReadValue? {
        assert (before + [es[n].chunk])[..|before|] == before;
      } else {
        assert before + [] == before;
      }
    }
  }

  /**
   A consumer that stops reading an event stream without an error or an abort completed the attempt when the text read so
   far, normalised once, holds a finished `[DONE]` event, and did not when the text without CRs before LF holds none; that
   settles every text without CR CR LF, however the body was cut into chunks.
   */
  lemma StopAfterDoneCompletes(c: Config, es: seq<Event>, s: State, more: seq<Event>, t: State)
    requires c.isEventStream && Run(c, INIT, es, s) && !s.settled && s.signal == Quiet && Enabled(s, CancelCalled(NotAnError))
    requires Run(c, Step(c, s, CancelCalled(NotAnError)), more, t) && Ended(t)
    ensures var text := Concat(ChunksRead(es));
      && (t.finished == [Completed] || t.finished == [Cancelled])
      && (HasDone(Normalise(text)) ==> t.finished == [Completed])
      && (t.finished == [Completed] ==> HasDone(Collapse(text)))
      && (NoCrCrLf(text) ==> Collapse(text) == Normalise(text))
  {
    hide Normalise, Collapse, HasDone, Run, NoCrCrLf;
    var chunks := ChunksRead(es);
    CancelDecides(c, es, s, NotAnError, more, t);
    DetectorSawChunks(c, es, s);
    EveryChunkingFindsDone(Concat(chunks));
    SomeChunkingFindsDone(Concat(chunks));
    if NoCrCrLf(Concat(chunks)) {
      CollapseIsNormalise(Concat(chunks));
    }
  }

  /** In particular after `data: [DONE]`, with any white space before `[DONE]`. */
  lemma StopAfterDoneLine(c: Config, es: seq<Event>, s: State, more: seq<Event>, t: State, blanks: string)
    requires c.isEventStream && Run(c, INIT, es, s) && !s.settled && s.signal == Quiet && Enabled(s, CancelCalled(NotAnError))
    requires Run(c, Step(c, s, CancelCalled(NotAnError)), more, t) && Ended(t)
    requires forall i :: 0 <= i < |blanks| ==> IsSpace(blanks[i]) && blanks[i] != '\n'
    requires Concat(ChunksRead(es)) == "data:" + blanks + "[DONE]" + "\n\n"
    ensures t.finished == [Completed]
  {
    hide Normalise, Collapse, HasDone, Run, Step, ChunksRead;
    DoneLineIsFound(blanks);
    StopAfterDoneCompletes(c, es, s, more, t);
  }

  lemma {:induction false} RunSnoc(c: Config, s: State, es: seq<Event>, t: State, e: Event)
    requires Run(c, s, es, t) && Enabled(t, e)
    ensures Run(c, s, es + [e], Step(c, t, e))
    decreases |es|
  {
    hide Step, Enabled;
    if es == [] {
      assert [] + [e] == [e] && [e][1..] == [];
    } else {
      assert (es + [e])[1..] == es[1..] + [e];
      RunSnoc(c, Step(c, s, es[0]), es[1..], t, e);
    }
  }

  // The wrapper itself

  /**
   The wrapped body: one method for each event, changing the fields as the code between two awaits does. Its history is a
   run of the machine, so all that holds of runs holds of it.
   */
  class ObservedBody {
    const config: Config
    const protocolTerminal: SseDoneDetector
    var settled: bool
    var finished: seq<Status>
    var cancellationStatus: Option<Status>
    var stream: Stream
    var pulling: Pull
    var cancelling: Cancel
    var signal: Signal
    ghost var history: seq<Event>

    function Now(): State
      reads this, protocolTerminal
    {
      State(settled, finished, cancellationStatus, stream, pulling, cancelling, protocolTerminal.State(), signal)
    }

    ghost predicate Valid()
      reads this, protocolTerminal
    {
      protocolTerminal.isEventStream == config.isEventStream && Run(config, INIT, history, Now())
    }

    constructor (config: Config)
      ensures Valid() && this.config == config && Now() == INIT && history == [] && fresh(protocolTerminal)
    {
      this.config := config;
      protocolTerminal := new SseDoneDetector(config.isEventStream);
      settled, finished, cancellationStatus, signal := false, [], None, Quiet;
      stream, pulling, cancelling, history := Readable, PullIdle, NotCancelled, [];
    }

    ghost method Record(e: Event, before: State)
      requires protocolTerminal.isEventStream == config.isEventStream
      requires Run(config, INIT, history, before) && Enabled(before, e) && Now() == Step(config, before, e)
      modifies this`history
      ensures Valid() && history == old(history) + [e] && Now() == old(Now())
    {
      RunSnoc(config, INIT, history, before, e);
      history := history + [e];
    }

    method SettleWith(status: Status)
      modifies this`settled, this`finished
      ensures Now() == Settle(old(Now()), status)
    {
      if settled {
        return;
      }
      settled := true;
      finished := finished + [status];
    }

    method OnPullCalled()
      requires Valid() && Enabled(Now(), PullCalled)
      modifies this
      ensures Valid() && history == old(history) + [PullCalled]
      ensures Now() == Step(config, old(Now()), PullCalled)
    {
      ghost var before := Now();
      pulling := Reading;
      Record(PullCalled, before);
    }

    method OnReadDone()
      requires Valid() && Enabled(Now(), ReadDone)
      modifies this
      ensures Valid() && history == old(history) + [ReadDone]
      ensures Now() == Step(config, old(Now()), ReadDone)
    {
      ghost var before := Now();
      var settledStatus := if cancellationStatus.Some? then cancellationStatus else SignalOutcome(signal);
      if settledStatus.Some? {
        SettleWith(settledStatus.value);
      } else if config.ok {
        SettleWith(Completed);
      } else {
        SettleWith(Failed);
      }
      pulling := ClosingNext;
      Record(ReadDone, before);
    }

    method OnReadValue(chunk: string)
      requires Valid() && Enabled(Now(), ReadValue(chunk))
      modifies this, protocolTerminal
      ensures Valid() && history == old(history) + [ReadValue(chunk)]
      ensures Now() == Step(config, old(Now()), ReadValue(chunk))
    {
      ghost var before := Now();
      protocolTerminal.Observe(chunk);
      if stream == Readable {
        pulling := PullIdle;
      } else {
        OnCatch(config.typeError);
      }
      Record(ReadValue(chunk), before);
    }

    method OnReadError(error: Thrown)
      requires Valid() && Enabled(Now(), ReadError(error))
      modifies this
      ensures Valid() && history == old(history) + [ReadError(error)]
      ensures Now() == Step(config, old(Now()), ReadError(error))
    {
      ghost var before := Now();
      OnCatch(error);
      Record(ReadError(error), before);
    }

    method OnCatch(error: Thrown)
      modifies this`settled, this`finished, this`pulling
      ensures Now() == Catch(old(Now()), error)
    {
      SettleWith(Or(cancellationStatus, ClassifyError(error, signal)));
      pulling := ErroringNext;
    }

    method OnPullResumes()
      requires Valid() && Enabled(Now(), PullResumes)
      modifies this
      ensures Valid() && history == old(history) + [PullResumes]
      ensures Now() == Step(config, old(Now()), PullResumes)
    {
      ghost var before := Now();
      if pulling == ClosingNext {
        if stream == Readable {
          stream, pulling := Closed, PullIdle;
        } else {
          OnCatch(config.typeError);
        }
      } else {
        if stream == Readable {
          stream := Errored;
        }
        pulling := PullIdle;
      }
      Record(PullResumes, before);
    }

    method OnCancelCalled(reason: Reason)
      requires Valid() && Enabled(Now(), CancelCalled(reason))
      modifies this
      ensures Valid() && history == old(history) + [CancelCalled(reason)]
      ensures Now() == Step(config, old(Now()), CancelCalled(reason))
    {
      ghost var before := Now();
      stream, cancelling := Closed, CancellingReader;
      cancellationStatus := Some(ClassifyCancellation(reason, signal, protocolTerminal.done));
      Record(CancelCalled(reason), before);
    }

    method OnReaderCancelled()
      requires Valid() && Enabled(Now(), ReaderCancelled)
      modifies this
      ensures Valid() && history == old(history) + [ReaderCancelled]
      ensures Now() == Step(config, old(Now()), ReaderCancelled)
    {
      ghost var before := Now();
      SettleWith(Or(cancellationStatus, Cancelled));
      cancelling := SettlingCancel;
      Record(ReaderCancelled, before);
    }

    method OnCancelResumes()
      requires Valid() && Enabled(Now(), CancelResumes)
      modifies this
      ensures Valid() && history == old(history) + [CancelResumes]
      ensures Now() == Step(config, old(Now()), CancelResumes)
    {
      ghost var before := Now();
      cancelling := CancelFinished;
      Record(CancelResumes, before);
    }

    /** The owner of the abort signal aborts it, at any time. */
    method OnSignalAborts(outcome: Signal)
      requires Valid() && Enabled(Now(), SignalAborts(outcome))
      modifies this
      ensures Valid() && history == old(history) + [SignalAborts(outcome)]
      ensures Now() == Step(config, old(Now()), SignalAborts(outcome))
    {
      ghost var before := Now();
      signal := outcome;
      Record(SignalAborts(outcome), before);
    }
  }
}

/** The observed stream: an iterator whose calls may overlap, each call reporting when its inner promise settles. */
module ObservedStream {
  import opened Options
  import opened ProviderAttempt

  /** What one call's inner promise came to, with the abort signal at that time. */
  datatype Event =
    | NextResolved(done: bool, signal: Signal)
    | NextRejected(error: Thrown, signal: Signal)
    | ReturnSettled(signal: Signal)
    | ThrowSettled(error: Thrown, signal: Signal)

  /** The status an event ends the attempt with, if it ends it. */
  function Terminal(e: Event): Option<Status> {
    match e
    case NextResolved(done, signal) => if done then Some(Or(SignalOutcome(signal), Completed)) else None
    case NextRejected(error, signal) => Some(ClassifyError(error, signal))
    case ReturnSettled(signal) => Some(Or(SignalOutcome(signal), Cancelled))
    case ThrowSettled(error, signal) => Some(ClassifyError(error, signal))
  }

  /** The statuses reported for a history: that of its first terminal event and no other. */
  function Reported(history: seq<Event>): (r: seq<Status>)
    ensures |r| <= 1
    ensures r == [] <==> forall i :: 0 <= i < |history| ==> Terminal(history[i]) == None
  {
    if history == [] then []
    else if Terminal(history[0]).Some? then [Terminal(history[0]).value]
    else Reported(history[1..])
  }

  lemma {:induction false} ReportedSnoc(history: seq<Event>, e: Event)
    ensures Reported(history + [e])
         == if Reported(history) == [] && Terminal(e).Some? then [Terminal(e).value] else Reported(history)
  {
    if history == [] {
      assert [] + [e] == [e] && [e][1..] == [];
    } else {
      assert (history + [e])[1..] == history[1..] + [e];
      ReportedSnoc(history[1..], e);
    }
  }

  /** A result that is not the last ends nothing. */
  lemma {:induction false} UnfinishedReportsNothing(history: seq<Event>)
    requires forall i :: 0 <= i < |history| ==> history[i].NextResolved? && !history[i].done
    ensures Reported(history) == []
  {
    if history != [] {
      UnfinishedReportsNothing(history[1..]);
    }
  }

  /**
   After any number of results the first other event decides the status, whatever follows: a finished next completes, a
   return cancels, a rejection and a throw fail or abort by their error; an abort signal comes before that, and the
   caller's own classification of an error before the signal.
   */
  lemma {:induction false} FirstTerminalDecides(before: seq<Event>, e: Event, after: seq<Event>)
    requires forall i :: 0 <= i < |before| ==> before[i].NextResolved? && !before[i].done
    requires e.NextResolved? ==> e.done
    ensures Reported(before + [e] + after) == [
      if (e.NextRejected? || e.ThrowSettled?) && e.error.classified.Some? then e.error.classified.value
      else if e.signal == UserStop then Cancelled
      else if e.signal == OtherAbort then Aborted
      else match e {
        case NextResolved(_, _) => Completed
        case NextRejected(error, _) => if error.kind == AbortError then Aborted else Failed
        case ReturnSettled(_) => Cancelled
        case ThrowSettled(error, _) => if error.kind == AbortError then Aborted else Failed
      }]
  {
    if before == [] {
      assert before + [e] + after == [e] + after;
    } else {
      assert (before + [e] + after)[1..] == before[1..] + [e] + after;
      FirstTerminalDecides(before[1..], e, after);
    }
  }

  class ObservedIterator {
    var settled: bool
    var finished: seq<Status>
    ghost var history: seq<Event>

    /** In every history of next, return and throw calls, exactly the first terminal status has been reported. */
    ghost predicate Valid()
      reads this
    {
      finished == Reported(history) && (settled <==> finished != [])
    }

    constructor ()
      ensures Valid() && history == []
    {
      settled, finished, history := false, [], [];
    }

    method Settle(status: Status)
      modifies this`settled, this`finished
      ensures settled
      ensures finished == if old(settled) then old(finished) else old(finished) + [status]
    {
      if settled {
        return;
      }
      settled := true;
      finished := finished + [status];
    }

    /** `next`: a result. */
    method OnNextResolved(done: bool, signal: Signal)
      requires Valid()
      modifies this
      ensures Valid() && history == old(history) + [NextResolved(done, signal)]
    {
      ReportedSnoc(history, NextResolved(done, signal));
      if done {
        Settle(Or(SignalOutcome(signal), Completed));
      }
      history := history + [NextResolved(done, signal)];
    }

    /** `next`: a rejection. */
    method OnNextRejected(error: Thrown, signal: Signal)
      requires Valid()
      modifies this
      ensures Valid() && history == old(history) + [NextRejected(error, signal)]
    {
      ReportedSnoc(history, NextRejected(error, signal));
      Settle(ClassifyError(error, signal));
      history := history + [NextRejected(error, signal)];
    }

    /** `return`: its finally block, after a result or a rejection. */
    method OnReturnSettled(signal: Signal)
      requires Valid()
      modifies this
      ensures Valid() && history == old(history) + [ReturnSettled(signal)]
    {
      ReportedSnoc(history, ReturnSettled(signal));
      Settle(Or(SignalOutcome(signal), Cancelled));
      history := history + [ReturnSettled(signal)];
    }

    /** `throw`: its finally block classifies the error thrown in, whatever the inner call came to. */
    method OnThrowSettled(error: Thrown, signal: Signal)
      requires Valid()
      modifies this
      ensures Valid() && history == old(history) + [ThrowSettled(error, signal)]
    {
      ReportedSnoc(history, ThrowSettled(error, signal));
      Settle(ClassifyError(error, signal));
      history := history + [ThrowSettled(error, signal)];
    }
  }
}
