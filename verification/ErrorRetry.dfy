/** Error-retry rows: one card at most, and one place that explains a governing API failure. */
module ErrorRetry {
  import opened Options
  import opened Transcript

  /**
   What is read from JSON texts: whether `failed` is true (false when the text does not parse); the
   `streamingFailedMessage` of a text, none when it does not parse; and the text with that message set.
   */
  datatype Json = Json(failed: string -> bool, message: string -> Option<Option<string>>, withMessage: (string, string) -> string)

  /** A set message reads back, from a text that is not empty. */
  ghost predicate Lawful(json: Json) {
    forall t, m {:trigger json.withMessage(t, m)} ::
      json.withMessage(t, m) != "" && json.message(json.withMessage(t, m)) == Some(Some(m))
  }

  predicate IsRetry(m: Message) {
    m.say == Some(ErrorRetry)
  }

  predicate IsFailedAsk(m: Message) {
    m.isAsk && m.ask == Some(ApiReqFailed)
  }

  predicate IsInteraction(m: Message) {
    m.isAsk || m.IsRequest()
  }

  predicate IsTerminalRetryFailure(json: Json, m: Message) {
    json.failed(m.JsonText())
  }

  function HistoryIndex(m: Message): int {
    if m.conversationHistoryIndex.Some? then m.conversationHistoryIndex.value else 0
  }

  predicate IsStreamedSay(say: Say) {
    say in {Reasoning, TextSay, Tool, UseMcpServer, UseSubagents, BrowserActionLaunch, BrowserAction}
  }

  predicate IsRecoveredStreamMessage(m: Message, historyIndex: int) {
    if HistoryIndex(m) != historyIndex then false
    else if m.isAsk then
      if (m.ask == Some(Followup) || m.ask == Some(CompletionResultAsk)) && !m.partial then m.TextOrEmpty() != ""
      else m.partial && m.ask.Some?
    else if m.say == Some(CompletionResult) && !m.partial then m.TextOrEmpty() != ""
    else
      && m.partial && m.say.Some? && IsStreamedSay(m.say.value)
      && (m.TextOrEmpty() != "" || (m.reasoning.Some? && m.reasoning.value != ""))
  }

  // The governing failure

  /** The last interaction, if it is a failure ask with a text. */
  ghost predicate IsGoverningAsk(rows: seq<Message>, f: int) {
    && 0 <= f < |rows| && IsFailedAsk(rows[f]) && rows[f].TextOrEmpty() != ""
    && forall k :: f < k < |rows| ==> !IsInteraction(rows[k])
  }

  ghost function GoverningAsk(rows: seq<Message>): int {
    if f :| IsGoverningAsk(rows, f) then f else -1
  }

  /** The last interaction decides. */
  lemma LastInteractionDecides(rows: seq<Message>, last: int)
    requires -1 <= last < |rows| && (last >= 0 ==> IsInteraction(rows[last]))
    requires forall k :: last < k < |rows| ==> !IsInteraction(rows[k])
    ensures GoverningAsk(rows) == if last >= 0 && IsFailedAsk(rows[last]) && rows[last].TextOrEmpty() != "" then last else -1
  {
    var f := GoverningAsk(rows);
    if f >= 0 {
      assert IsGoverningAsk(rows, f) && IsInteraction(rows[f]);
    }
    assert last >= 0 && IsFailedAsk(rows[last]) && rows[last].TextOrEmpty() != "" ==> IsGoverningAsk(rows, last);
  }

  method GoverningFailureAskIndex(rows: seq<Message>) returns (f: int)
    ensures f == GoverningAsk(rows)
  {
    for index := |rows| downto 0
      invariant forall k :: index <= k < |rows| ==> !IsInteraction(rows[k])
    {
      var message := rows[index];
      if message.isAsk {
        LastInteractionDecides(rows, index);
        return if message.ask == Some(ApiReqFailed) && message.TextOrEmpty() != "" then index else -1;
      }
      if message.IsRequest() {
        LastInteractionDecides(rows, index);
        return -1;
      }
    }
    LastInteractionDecides(rows, -1);
    return -1;
  }

  /** The failure and the last request before it. */
  datatype Governing = Governing(failureIndex: nat, requestIndex: nat)

  ghost predicate IsGoverning(rows: seq<Message>, g: Governing) {
    && IsGoverningAsk(rows, g.failureIndex)
    && g.requestIndex < g.failureIndex && rows[g.requestIndex].IsRequest()
    && forall k :: g.requestIndex < k < g.failureIndex ==> !rows[k].IsRequest()
  }

  ghost function GoverningFailure(rows: seq<Message>): (r: Option<Governing>)
    ensures r.Some? ==> IsGoverning(rows, r.value)
    ensures r == None ==> forall g :: !IsGoverning(rows, g)
  {
    if g :| IsGoverning(rows, g) then Some(g) else None
  }

  lemma GoverningFailureIs(rows: seq<Message>, g: Governing)
    requires IsGoverning(rows, g)
    ensures GoverningFailure(rows) == Some(g)
  {
    var h := GoverningFailure(rows).value;
    assert IsInteraction(rows[g.failureIndex]) && IsInteraction(rows[h.failureIndex]);
    assert h.failureIndex == g.failureIndex;
  }

  method FindGoverningApiFailure(rows: seq<Message>) returns (r: Option<Governing>)
    ensures r == GoverningFailure(rows)
  {
    var f := GoverningFailureAskIndex(rows);
    if f == -1 {
      return None;
    }
    assert IsGoverningAsk(rows, f);
    for index := f downto 0
      invariant forall k :: index <= k < f ==> !rows[k].IsRequest()
    {
      if rows[index].IsRequest() {
        GoverningFailureIs(rows, Governing(f, index));
        return Some(Governing(f, index));
      }
    }
    assert IsInteraction(rows[f]);
    return None;
  }

  ghost predicate IsExhausted(json: Json, m: Message) {
    IsRetry(m) && IsTerminalRetryFailure(json, m)
  }

  /** The failure ask that the request row with timestamp `requestTs` presents. */
  ghost function PresentedBy(json: Json, rows: seq<Message>, requestTs: int): Option<Message> {
    var g := GoverningFailure(rows);
    if g == None || rows[g.value.requestIndex].ts != requestTs then None
    else if exists k :: g.value.requestIndex < k < |rows| && IsExhausted(json, rows[k]) then None
    else Some(rows[g.value.failureIndex])
  }

  method FindApiFailurePresentedBy(json: Json, rows: seq<Message>, requestTs: int) returns (r: Option<Message>)
    ensures r == PresentedBy(json, rows, requestTs)
  {
    var g := FindGoverningApiFailure(rows);
    if g == None || rows[g.value.requestIndex].ts != requestTs {
      return None;
    }
    for index := g.value.requestIndex + 1 to |rows|
      invariant forall k :: g.value.requestIndex < k < index ==> !IsExhausted(json, rows[k])
    {
      var message := rows[index];
      if IsRetry(message) && IsTerminalRetryFailure(json, message) {
        return None;
      }
    }
    return Some(rows[g.value.failureIndex]);
  }

  // One place explains a failure

  /** With unique request timestamps the request row presents its failure exactly when no exhausted card follows it. */
  lemma OwnRequestPresents(json: Json, rows: seq<Message>, g: Governing, r: nat)
    requires IsGoverning(rows, g) && r < |rows| && rows[r].IsRequest()
    requires forall i, j :: 0 <= i < j < |rows| && rows[i].IsRequest() && rows[j].IsRequest() ==> rows[i].ts != rows[j].ts
    ensures PresentedBy(json, rows, rows[r].ts)
         == if r == g.requestIndex && forall k :: r < k < |rows| ==> !IsExhausted(json, rows[k])
            then Some(rows[g.failureIndex]) else None
  {
    GoverningFailureIs(rows, g);
  }

  ghost predicate IsNeutral(m: Message) {
    !m.isAsk && !m.IsRequest() && !IsRetry(m)
  }

  ghost function Shifted(k: int, at: int): int {
    if k < at then k else k + 1
  }

  lemma InsertShifts(a: seq<Message>, row: Message, b: seq<Message>, k: int)
    requires 0 <= k < |a + b|
    ensures (a + [row] + b)[Shifted(k, |a|)] == (a + b)[k] && (a + [row] + b)[|a|] == row
  {
  }

  lemma InsertKeepsGoverningAsk(a: seq<Message>, row: Message, b: seq<Message>, f: int)
    requires !IsInteraction(row)
    ensures IsGoverningAsk(a + b, f) <==> IsGoverningAsk(a + [row] + b, Shifted(f, |a|))
  {
    var rows, more := a + b, a + [row] + b;
    if 0 <= f < |rows| {
      InsertShifts(a, row, b, f);
      if IsGoverningAsk(rows, f) {
        forall k | Shifted(f, |a|) < k < |more|
          ensures !IsInteraction(more[k])
        {
          InsertShifts(a, row, b, if k < |a| || k == 0 then 0 else k - 1);
          assert k != |a| ==> more[k] == rows[if k < |a| then k else k - 1];
        }
      }
      if IsGoverningAsk(more, Shifted(f, |a|)) {
        forall k | f < k < |rows|
          ensures !IsInteraction(rows[k])
        {
          InsertShifts(a, row, b, k);
        }
      }
    }
  }

  lemma InsertKeepsGoverning(a: seq<Message>, row: Message, b: seq<Message>, g: Governing)
    requires !IsInteraction(row) && IsGoverning(a + b, g)
    ensures IsGoverning(a + [row] + b, Governing(Shifted(g.failureIndex, |a|), Shifted(g.requestIndex, |a|)))
  {
    hide IsGoverningAsk;
    var rows, more := a + b, a + [row] + b;
    InsertKeepsGoverningAsk(a, row, b, g.failureIndex);
    assert g.failureIndex < |rows| by {
      GoverningAskInRange(rows, g.failureIndex);
    }
    InsertShifts(a, row, b, g.requestIndex);
    forall k | Shifted(g.requestIndex, |a|) < k < Shifted(g.failureIndex, |a|)
      ensures !more[k].IsRequest()
    {
      InsertShifts(a, row, b, if k < |a| then k else k - 1);
    }
  }

  lemma GoverningAskInRange(rows: seq<Message>, f: int)
    ensures IsGoverningAsk(rows, f) ==> 0 <= f < |rows| && rows[f].isAsk
  {
  }

  ghost function Unshifted(k: nat, at: nat): nat
    requires k != at
  {
    if k < at then k else k - 1
  }

  lemma RemoveKeepsGoverning(a: seq<Message>, row: Message, b: seq<Message>, g: Governing)
    requires !IsInteraction(row) && IsGoverning(a + [row] + b, g)
    ensures g.failureIndex != |a| && g.requestIndex != |a|
    ensures IsGoverning(a + b, Governing(Unshifted(g.failureIndex, |a|), Unshifted(g.requestIndex, |a|)))
  {
    hide IsGoverningAsk;
    var rows, more := a + b, a + [row] + b;
    GoverningAskInRange(more, g.failureIndex);
    assert more[|a|] == row;
    var f, r := Unshifted(g.failureIndex, |a|), Unshifted(g.requestIndex, |a|);
    InsertKeepsGoverningAsk(a, row, b, f);
    InsertShifts(a, row, b, r);
    forall k | r < k < f
      ensures !rows[k].IsRequest()
    {
      InsertShifts(a, row, b, k);
    }
  }

  lemma InsertKeepsExhausted(json: Json, a: seq<Message>, row: Message, b: seq<Message>, r: nat)
    requires IsNeutral(row) && r < |a + b|
    ensures (exists k :: r < k < |a + b| && IsExhausted(json, (a + b)[k]))
      <==> (exists k :: Shifted(r, |a|) < k < |a + [row] + b| && IsExhausted(json, (a + [row] + b)[k]))
  {
    hide IsExhausted;
    var rows, more := a + b, a + [row] + b;
    if k :| r < k < |rows| && IsExhausted(json, rows[k]) {
      InsertShifts(a, row, b, k);
      assert IsExhausted(json, more[Shifted(k, |a|)]);
    }
    if k :| Shifted(r, |a|) < k < |more| && IsExhausted(json, more[k]) {
      assert k != |a| by {
        NeutralIsNotExhausted(json, row);
      }
      InsertShifts(a, row, b, Unshifted(k, |a|));
      assert IsExhausted(json, rows[Unshifted(k, |a|)]);
    }
  }

  lemma NeutralIsNotExhausted(json: Json, row: Message)
    requires IsNeutral(row)
    ensures !IsExhausted(json, row)
  {
  }

  /** A row that is neither an ask, a request nor a retry never changes who presents a failure, wherever it lands. */
  lemma NeutralRowKeepsOwner(json: Json, a: seq<Message>, row: Message, b: seq<Message>, requestTs: int)
    requires IsNeutral(row)
    ensures PresentedBy(json, a + [row] + b, requestTs) == PresentedBy(json, a + b, requestTs)
  {
    hide IsGoverning, IsExhausted;
    var rows, more := a + b, a + [row] + b;
    if GoverningFailure(rows).Some? {
      var g := GoverningFailure(rows).value;
      GoverningInRange(rows, g);
      InsertKeepsGoverning(a, row, b, g);
      GoverningFailureIs(more, Governing(Shifted(g.failureIndex, |a|), Shifted(g.requestIndex, |a|)));
      InsertShifts(a, row, b, g.failureIndex);
      InsertShifts(a, row, b, g.requestIndex);
      InsertKeepsExhausted(json, a, row, b, g.requestIndex);
    } else if GoverningFailure(more).Some? {
      RemoveKeepsGoverning(a, row, b, GoverningFailure(more).value);
      assert false;
    }
  }

  lemma GoverningInRange(rows: seq<Message>, g: Governing)
    requires IsGoverning(rows, g)
    ensures g.requestIndex < g.failureIndex < |rows| && rows[g.requestIndex].IsRequest() && rows[g.failureIndex].isAsk
  {
  }

  // The combiner

  /** The canonical error moved into the request it failed, when that request's text parses and does not hold it yet. */
  function Projected(json: Json, request: Message, failure: Message): Message {
    if json.message(request.JsonText()) == None || json.message(request.JsonText()) == Some(Some(failure.TextOrEmpty())) then request
    else request.(text := Some(json.withMessage(request.JsonText(), failure.TextOrEmpty())))
  }

  ghost function ProjectedRows(json: Json, rows: seq<Message>): (r: seq<Message>)
    ensures |r| == |rows|
  {
    var g := GoverningFailure(rows);
    if g == None then rows
    else rows[g.value.requestIndex := Projected(json, rows[g.value.requestIndex], rows[g.value.failureIndex])]
  }

  method ProjectCanonicalApiError(json: Json, rows: seq<Message>) returns (r: seq<Message>)
    ensures r == ProjectedRows(json, rows)
  {
    var g := FindGoverningApiFailure(rows);
    if g == None {
      return rows;
    }
    var request, failure := rows[g.value.requestIndex], rows[g.value.failureIndex];
    var parsed := json.message(request.JsonText());
    if parsed == None || parsed == Some(Some(failure.TextOrEmpty())) {
      return rows;
    }
    return rows[g.value.requestIndex := request.(text := Some(json.withMessage(request.JsonText(), failure.TextOrEmpty())))];
  }

  predicate SaysRequest(m: Message) {
    !IsFailedAsk(m) && m.say == Some(ApiReqStarted)
  }

  predicate StartsRetry(m: Message) {
    SaysRequest(m) || (!IsFailedAsk(m) && m.say == Some(ApiReqRetried))
  }

  /** A row that shows a model response to the retried request. */
  predicate ProvesResponse(m: Message, historyIndex: int) {
    && !IsRetry(m) && !IsFailedAsk(m) && !StartsRetry(m)
    && (HistoryIndex(m) > historyIndex || IsRecoveredStreamMessage(m, historyIndex))
  }

  ghost predicate HasRecovered(rows: seq<Message>, i: nat, historyIndex: int) {
    exists b :: i <= b < |rows| && ProvesResponse(rows[b], historyIndex) && exists a :: i <= a < b && StartsRetry(rows[a])
  }

  ghost predicate HasRow(rows: seq<Message>, i: nat, p: Message -> bool) {
    exists k :: i <= k < |rows| && p(rows[k])
  }

  /**
   Which retry rows stay: the last one, unless a response after a new start of the request proves recovery; and unless it
   was still retrying and a failure ask or a request has replaced it.
   */
  ghost predicate Survives(json: Json, rows: seq<Message>, i: nat)
    requires i < |rows|
  {
    && !HasRow(rows, i + 1, IsRetry)
    && !HasRecovered(rows, i + 1, HistoryIndex(rows[i]))
    && (IsTerminalRetryFailure(json, rows[i])
        || (!HasRow(rows, i + 1, IsFailedAsk) && !HasRow(rows, i + 1, SaysRequest)))
  }

  /** The look-ahead of the combiner: whether the retry row at `i` is dropped. */
  method IsDropped(json: Json, rows: seq<Message>, i: nat) returns (dropped: bool)
    requires i < |rows| && IsRetry(rows[i])
    ensures dropped <==> !Survives(json, rows, i)
  {
    var isTerminalFailure := IsTerminalRetryFailure(json, rows[i]);
    var hasLaterErrorRetry, hasApiReqStarted, hasRecovered, hasRecoveryAsk, hasRetryStarted := false, false, false, false, false;
    var historyIndex := HistoryIndex(rows[i]);
    for j := i + 1 to |rows|
      invariant !hasLaterErrorRetry && !hasRecovered && (hasRecoveryAsk ==> isTerminalFailure)
      invariant forall k :: i < k < j ==> !IsRetry(rows[k])
      invariant hasRetryStarted <==> exists a :: i < a < j && StartsRetry(rows[a])
      invariant hasApiReqStarted <==> exists k :: i < k < j && SaysRequest(rows[k])
      invariant hasRecoveryAsk <==> exists k :: i < k < j && IsFailedAsk(rows[k])
      invariant forall b :: i < b < j && ProvesResponse(rows[b], historyIndex) ==> !exists a :: i < a < b && StartsRetry(rows[a])
    {
      var later := rows[j];
      if IsRetry(later) {
        hasLaterErrorRetry := true;
        assert HasRow(rows, i + 1, IsRetry);
        break;
      }
      if IsFailedAsk(later) {
        hasRecoveryAsk := true;
        if !isTerminalFailure {
          assert HasRow(rows, i + 1, IsFailedAsk);
          break;
        }
        continue;
      }
      if later.say == Some(ApiReqRetried) {
        hasRetryStarted := true;
        assert StartsRetry(rows[j]);
        continue;
      }
      if later.say == Some(ApiReqStarted) {
        hasApiReqStarted, hasRetryStarted := true, true;
        assert SaysRequest(rows[j]) && StartsRetry(rows[j]);
        continue;
      }
      if hasRetryStarted && (HistoryIndex(later) > historyIndex || IsRecoveredStreamMessage(later, historyIndex)) {
        hasRecovered := true;
        assert ProvesResponse(rows[j], historyIndex);
        assert HasRecovered(rows, i + 1, historyIndex);
        break;
      }
    }
    return hasLaterErrorRetry || hasRecovered || (hasRecoveryAsk && !isTerminalFailure) || (hasApiReqStarted && !isTerminalFailure);
  }

  ghost function CombineFrom(json: Json, rows: seq<Message>, i: nat): seq<Message>
    requires i <= |rows|
    decreases |rows| - i
  {
    if i == |rows| then []
    else (if IsRetry(rows[i]) && !Survives(json, rows, i) then [] else [rows[i]]) + CombineFrom(json, rows, i + 1)
  }

  ghost function Combined(json: Json, rows: seq<Message>): seq<Message> {
    CombineFrom(json, ProjectedRows(json, rows), 0)
  }

  method CombineErrorRetryMessages(json: Json, rows: seq<Message>) returns (result: seq<Message>)
    ensures result == Combined(json, rows)
  {
    hide Survives, IsRetry, ProjectedRows;
    var projected := ProjectCanonicalApiError(json, rows);
    result := [];
    for i := 0 to |projected|
      invariant result + CombineFrom(json, projected, i) == Combined(json, rows)
    {
      if IsRetry(projected[i]) {
        var dropped := IsDropped(json, projected, i);
        if dropped {
          assert result + ([] + CombineFrom(json, projected, i + 1)) == result + CombineFrom(json, projected, i + 1);
          continue;
        }
      }
      assert result + ([projected[i]] + CombineFrom(json, projected, i + 1)) == result + [projected[i]] + CombineFrom(json, projected, i + 1);
      result := result + [projected[i]];
    }
  }

  predicate IsNotRetry(m: Message) {
    !IsRetry(m)
  }

  ghost predicate IsLastRetry(rows: seq<Message>, i: nat) {
    i < |rows| && IsRetry(rows[i]) && !HasRow(rows, i + 1, IsRetry)
  }

  lemma {:induction false} CombineWithoutRetry(json: Json, rows: seq<Message>, i: nat)
    requires i <= |rows| && !HasRow(rows, i, IsRetry)
    ensures CombineFrom(json, rows, i) == rows[i..]
    decreases |rows| - i
  {
    if i < |rows| {
      assert !IsRetry(rows[i]);
      CombineWithoutRetry(json, rows, i + 1);
    }
  }

  lemma LaterRetryDrops(json: Json, rows: seq<Message>, i: nat, later: nat)
    requires i < later < |rows| && IsRetry(rows[later])
    ensures !Survives(json, rows, i)
  {
    assert HasRow(rows, i + 1, IsRetry);
  }

  lemma {:induction false} CombineUpToLast(json: Json, rows: seq<Message>, i: nat, last: nat)
    requires i <= last && IsLastRetry(rows, last)
    ensures CombineFrom(json, rows, i)
         == Filter(rows[i..last], IsNotRetry) + (if Survives(json, rows, last) then [rows[last]] else []) + rows[last + 1..]
    decreases last - i
  {
    hide Survives, IsRetry;
    if i == last {
      CombineWithoutRetry(json, rows, last + 1);
      assert Filter(rows[i..last], IsNotRetry) == [];
    } else {
      CombineUpToLast(json, rows, i + 1, last);
      assert rows[i..last][0] == rows[i] && rows[i..last][1..] == rows[i + 1..last];
      if IsRetry(rows[i]) {
        LaterRetryDrops(json, rows, i, last);
      }
    }
  }

  /**
   What the combiner returns: every row that is no retry, in order, one request row perhaps rewritten; of the retry rows
   at most the last one.
   */
  lemma CombinedShape(json: Json, rows: seq<Message>, last: nat)
    requires IsLastRetry(rows, last)
    ensures var p := ProjectedRows(json, rows);
      && IsLastRetry(p, last) && p[last] == rows[last]
      && Combined(json, rows)
         == Filter(p[..last], IsNotRetry) + (if Survives(json, p, last) then [rows[last]] else []) + p[last + 1..]
  {
    ProjectionRewritesRequest(json, rows);
    CombineUpToLast(json, ProjectedRows(json, rows), 0, last);
    assert ProjectedRows(json, rows)[0..last] == ProjectedRows(json, rows)[..last];
  }

  lemma CombinedWithoutRetry(json: Json, rows: seq<Message>)
    requires !HasRow(rows, 0, IsRetry)
    ensures Combined(json, rows) == ProjectedRows(json, rows)
  {
    ProjectionRewritesRequest(json, rows);
    CombineWithoutRetry(json, ProjectedRows(json, rows), 0);
  }

  /** Projection changes at most the text of one request row. */
  lemma ProjectionRewritesRequest(json: Json, rows: seq<Message>)
    ensures var p := ProjectedRows(json, rows);
      forall k :: 0 <= k < |rows| ==>
        p[k].(text := rows[k].text) == rows[k]
        && (p[k] != rows[k] ==> rows[k].IsRequest() && GoverningFailure(rows).Some? && k == GoverningFailure(rows).value.requestIndex)
  {
  }

  // Idempotence

  ghost function GoverningPair(rows: seq<Message>): Option<(Message, Message)> {
    var g := GoverningFailure(rows);
    if g == None then None else Some((rows[g.value.requestIndex], rows[g.value.failureIndex]))
  }

  lemma InsertKeepsPair(a: seq<Message>, row: Message, b: seq<Message>)
    requires !IsInteraction(row)
    ensures GoverningPair(a + [row] + b) == GoverningPair(a + b)
  {
    hide IsGoverning, IsInteraction;
    var rows, more := a + b, a + [row] + b;
    if GoverningFailure(rows).Some? {
      var g := GoverningFailure(rows).value;
      GoverningInRange(rows, g);
      InsertKeepsGoverning(a, row, b, g);
      GoverningFailureIs(more, Governing(Shifted(g.failureIndex, |a|), Shifted(g.requestIndex, |a|)));
      InsertShifts(a, row, b, g.failureIndex);
      InsertShifts(a, row, b, g.requestIndex);
    } else if GoverningFailure(more).Some? {
      RemoveKeepsGoverning(a, row, b, GoverningFailure(more).value);
      assert false;
    }
  }

  lemma {:induction false} FilterKeepsPair(a: seq<Message>, rows: seq<Message>, b: seq<Message>)
    requires WellFormed(rows)
    ensures GoverningPair(a + Filter(rows, IsNotRetry) + b) == GoverningPair(a + rows + b)
    decreases |rows|
  {
    hide GoverningPair, IsInteraction;
    if rows == [] {
    } else {
      var row, rest := rows[0], rows[1..];
      assert rows == [row] + rest;
      if IsNotRetry(row) {
        FilterKeepsPair(a + [row], rest, b);
        assert a + [row] + Filter(rest, IsNotRetry) + b == a + Filter(rows, IsNotRetry) + b;
        assert a + [row] + rest + b == a + rows + b;
      } else {
        FilterKeepsPair(a, rest, b);
        RetryIsNoInteraction(row);
        InsertKeepsPair(a, row, rest + b);
        assert a + [row] + (rest + b) == a + rows + b && a + (rest + b) == a + rest + b;
      }
    }
  }

  lemma RetryIsNoInteraction(row: Message)
    requires IsRetry(row) && (row.isAsk ==> row.say == None)
    ensures !IsInteraction(row)
  {
  }

  /** Nothing is left to project. */
  ghost predicate IsSettled(json: Json, rows: seq<Message>) {
    GoverningPair(rows).Some? ==> Projected(json, GoverningPair(rows).value.0, GoverningPair(rows).value.1) == GoverningPair(rows).value.0
  }

  lemma SettledRowsStay(json: Json, rows: seq<Message>)
    requires IsSettled(json, rows)
    ensures ProjectedRows(json, rows) == rows
  {
    hide Projected;
  }

  lemma ProjectedRowIsSettled(json: Json, request: Message, failure: Message)
    requires Lawful(json)
    ensures Projected(json, Projected(json, request, failure), failure) == Projected(json, request, failure)
  {
  }

  lemma ProjectionSettles(json: Json, rows: seq<Message>)
    requires Lawful(json)
    ensures IsSettled(json, ProjectedRows(json, rows))
  {
    hide Projected, Lawful, IsGoverning;
    var p := ProjectedRows(json, rows);
    if GoverningFailure(rows).Some? {
      var g := GoverningFailure(rows).value;
      GoverningInRange(rows, g);
      SameKindsGovern(json, rows, g);
      GoverningFailureIs(p, g);
      ProjectedRowIsSettled(json, rows[g.requestIndex], rows[g.failureIndex]);
    }
  }

  lemma SameKindsGovern(json: Json, rows: seq<Message>, g: Governing)
    requires GoverningFailure(rows) == Some(g)
    ensures IsGoverning(ProjectedRows(json, rows), g)
  {
    ProjectionRewritesRequest(json, rows);
  }

  lemma HasRowBySuffix(rows: seq<Message>, i: nat, p: Message -> bool)
    requires i <= |rows|
    ensures HasRow(rows, i, p) <==> HasRow(rows[i..], 0, p)
  {
    if k :| i <= k < |rows| && p(rows[k]) {
      assert rows[i..][k - i] == rows[k];
    }
  }

  lemma HasRecoveredBySuffix(rows: seq<Message>, i: nat, historyIndex: int)
    requires i <= |rows|
    ensures HasRecovered(rows, i, historyIndex) <==> HasRecovered(rows[i..], 0, historyIndex)
  {
    hide ProvesResponse, StartsRetry;
    var rest := rows[i..];
    if HasRecovered(rows, i, historyIndex) {
      var b :| i <= b < |rows| && ProvesResponse(rows[b], historyIndex) && exists a :: i <= a < b && StartsRetry(rows[a]);
      var a :| i <= a < b && StartsRetry(rows[a]);
      assert rest[b - i] == rows[b] && rest[a - i] == rows[a];
    }
    if HasRecovered(rest, 0, historyIndex) {
      var b :| 0 <= b < |rest| && ProvesResponse(rest[b], historyIndex) && exists a :: 0 <= a < b && StartsRetry(rest[a]);
      var a :| 0 <= a < b && StartsRetry(rest[a]);
      assert rest[b] == rows[b + i] && rest[a] == rows[a + i];
    }
  }

  /** Only the row and those behind it decide whether it survives. */
  lemma SurvivesBySuffix(json: Json, rows: seq<Message>, i: nat, others: seq<Message>, j: nat)
    requires i < |rows| && j < |others| && rows[i] == others[j] && rows[i + 1..] == others[j + 1..]
    ensures Survives(json, rows, i) <==> Survives(json, others, j)
  {
    hide HasRow, HasRecovered;
    HasRowBySuffix(rows, i + 1, IsRetry);
    HasRowBySuffix(others, j + 1, IsRetry);
    HasRowBySuffix(rows, i + 1, IsFailedAsk);
    HasRowBySuffix(others, j + 1, IsFailedAsk);
    HasRowBySuffix(rows, i + 1, SaysRequest);
    HasRowBySuffix(others, j + 1, SaysRequest);
    HasRecoveredBySuffix(rows, i + 1, HistoryIndex(rows[i]));
    HasRecoveredBySuffix(others, j + 1, HistoryIndex(others[j]));
  }

  lemma {:induction false} NoLastRetry(rows: seq<Message>, n: nat)
    requires n <= |rows| && !HasRow(rows, n, IsRetry) && forall i :: !IsLastRetry(rows, i)
    ensures !HasRow(rows, 0, IsRetry)
  {
    if n > 0 {
      assert !IsLastRetry(rows, n - 1);
      NoLastRetry(rows, n - 1);
    }
  }

  /** The combined rows, settled and with at most their last retry row, are combined to themselves. */
  lemma CombinedTwice(json: Json, p: seq<Message>, last: nat)
    requires WellFormed(p) && IsLastRetry(p, last) && IsSettled(json, p)
    ensures var out := Filter(p[..last], IsNotRetry) + (if Survives(json, p, last) then [p[last]] else []) + p[last + 1..];
      Combined(json, out) == out
  {
    hide Survives, Projected, GoverningPair, ProjectedRows, IsInteraction;
    var front, tail := Filter(p[..last], IsNotRetry), p[last + 1..];
    var kept := if Survives(json, p, last) then [p[last]] else [];
    var out := front + kept + tail;
    FilterKeepsPair([], p[..last], kept + tail);
    assert [] + front + (kept + tail) == out && [] + p[..last] + (kept + tail) == p[..last] + (kept + tail);
    RetryIsNoInteraction(p[last]);
    InsertKeepsPair(p[..last], p[last], tail);
    assert p == p[..last] + [p[last]] + tail;
    assert kept == [p[last]] ==> p[..last] + (kept + tail) == p;
    assert kept == [] ==> p[..last] + (kept + tail) == p[..last] + tail;
    assert GoverningPair(out) == GoverningPair(p);
    SettledRowsStay(json, out);
    HasRowBySuffix(p, last + 1, IsRetry);
    CombinedRowsStay(json, p, last, front, tail, out);
  }

  lemma CombinedRowsStay(json: Json, p: seq<Message>, last: nat, front: seq<Message>, tail: seq<Message>, out: seq<Message>)
    requires last < |p| && IsRetry(p[last]) && tail == p[last + 1..]
    requires (forall i :: 0 <= i < |front| ==> !IsRetry(front[i])) && !HasRow(tail, 0, IsRetry)
    requires out == front + (if Survives(json, p, last) then [p[last]] else []) + tail
    ensures CombineFrom(json, out, 0) == out
  {
    hide Survives;
    if Survives(json, p, last) {
      var k := |front|;
      assert out[k] == p[last] && out[k + 1..] == tail && out[0..k] == front;
      SurvivesBySuffix(json, p, last, out, k);
      HasRowBySuffix(out, k + 1, IsRetry);
      CombineUpToLast(json, out, 0, k);
      FilterKeepsAll(front, IsNotRetry);
    } else {
      forall k | 0 <= k < |out|
        ensures !IsRetry(out[k])
      {
        assert k >= |front| ==> out[k] == tail[k - |front|];
      }
      CombineWithoutRetry(json, out, 0);
    }
  }

  /** Combining a second time changes nothing. */
  lemma CombineIsIdempotent(json: Json, rows: seq<Message>)
    requires Lawful(json) && WellFormed(rows)
    ensures Combined(json, Combined(json, rows)) == Combined(json, rows)
  {
    hide Survives, Projected, Lawful, GoverningPair, IsSettled, ProjectedRows;
    var p := ProjectedRows(json, rows);
    ProjectionRewritesRequest(json, rows);
    ProjectionSettles(json, rows);
    if last :| IsLastRetry(rows, last) {
      CombinedShape(json, rows, last);
      CombinedTwice(json, p, last);
    } else {
      NoLastRetry(rows, |rows|);
      CombinedWithoutRetry(json, rows);
      SettledRowsStay(json, p);
      CombineWithoutRetry(json, p, 0);
    }
  }

  /**
   An exhausted last card behind the governed request, with no later restart of the request, owns the explanation: the
   request row is silent, and the combiner keeps that card.
   */
  lemma ExhaustedCardOwns(json: Json, rows: seq<Message>, g: Governing, last: nat)
    requires WellFormed(rows) && IsGoverning(rows, g) && IsLastRetry(rows, last) && last > g.requestIndex
    requires IsExhausted(json, rows[last])
    requires forall k :: last < k < |rows| ==> rows[k].say != Some(ApiReqRetried)
    ensures PresentedBy(json, rows, rows[g.requestIndex].ts) == None
    ensures rows[last] in Combined(json, rows)
  {
    GoverningFailureIs(rows, g);
    var p := ProjectedRows(json, rows);
    ProjectionRewritesRequest(json, rows);
    forall k | last < k < |p|
      ensures !StartsRetry(p[k])
    {
      assert k > g.failureIndex ==> !IsInteraction(rows[k]);
      assert p[k].say == rows[k].say && p[k].isAsk == rows[k].isAsk;
    }
    CombinedShape(json, rows, last);
    assert Survives(json, p, last);
    assert rows[last] in [rows[last]];
  }

  /** A card explains the governed failure: an exhausted retry row behind its request that the combiner keeps. */
  ghost predicate CardExplains(json: Json, rows: seq<Message>, g: Governing)
    requires g.requestIndex < |rows|
  {
    exists i :: g.requestIndex < i < |rows| && IsExhausted(json, rows[i]) && Survives(json, ProjectedRows(json, rows), i)
  }

  /** Whether the combiner keeps the last retry row when it stands behind the governed request. */
  lemma LastCardKept(json: Json, rows: seq<Message>, g: Governing, last: nat)
    requires IsGoverning(rows, g) && IsLastRetry(rows, last) && last > g.requestIndex && IsExhausted(json, rows[last])
    ensures Survives(json, ProjectedRows(json, rows), last) <==> !HasRecovered(rows, last + 1, HistoryIndex(rows[last]))
  {
    hide IsGoverning, ProvesResponse, StartsRetry;
    GoverningFailureIs(rows, g);
    var p := ProjectedRows(json, rows);
    ProjectionRewritesRequest(json, rows);
    assert forall k :: last <= k < |rows| ==> p[k] == rows[k];
  }

  /**
   With its own timestamp the governed request, or a card, explains the failure, never both. Neither does exactly when an
   exhausted card follows the request but the last retry row, for which all others are dropped, is still retrying or
   has been recovered from.
   */
  lemma ExplainedNowhereExactly(json: Json, rows: seq<Message>, g: Governing, last: nat)
    requires IsGoverning(rows, g) && IsLastRetry(rows, last)
    ensures var request := PresentedBy(json, rows, rows[g.requestIndex].ts);
      && !(request.Some? && CardExplains(json, rows, g))
      && ((request == None && !CardExplains(json, rows, g))
          <==> (exists k :: g.requestIndex < k < |rows| && IsExhausted(json, rows[k]))
               && (!IsTerminalRetryFailure(json, rows[last]) || HasRecovered(rows, last + 1, HistoryIndex(rows[last]))))
    ensures CardExplains(json, rows, g) ==> rows[last] in Combined(json, rows)
  {
    hide HasRecovered, Survives;
    GoverningFailureIs(rows, g);
    var p := ProjectedRows(json, rows);
    ProjectionRewritesRequest(json, rows);
    if k :| g.requestIndex < k < |rows| && IsExhausted(json, rows[k]) {
      assert k <= last;
      if IsExhausted(json, rows[last]) {
        LastCardKept(json, rows, g, last);
      }
    }
    forall i | 0 <= i < |rows| && IsExhausted(json, rows[i]) && Survives(json, p, i)
      ensures i == last
    {
      if i < last {
        assert IsRetry(p[last]);
        LaterRetryDrops(json, p, i, last);
      }
    }
    CombinedShape(json, rows, last);
    assert rows[last] in [rows[last]];
  }

  /** Such a transcript: a request, an exhausted card, a card that is still retrying, and the failure ask. */
  lemma ExplainedNowhere(json: Json)
    requires json.failed("exhausted") && !json.failed("retrying")
    ensures var say := (say: Say, text: string) => Message(false, None, Some(say), Some(text), 1, false, None, None, None, None);
      var ask := Message(true, Some(ApiReqFailed), None, Some("error"), 2, false, None, None, None, None);
      var rows := [say(ApiReqStarted, "{}"), say(Say.ErrorRetry, "exhausted"), say(Say.ErrorRetry, "retrying"), ask];
      && IsGoverning(rows, Governing(3, 0)) && PresentedBy(json, rows, 1) == None
      && !CardExplains(json, rows, Governing(3, 0))
  {
    var say := (say: Say, text: string) => Message(false, None, Some(say), Some(text), 1, false, None, None, None, None);
    var ask := Message(true, Some(ApiReqFailed), None, Some("error"), 2, false, None, None, None, None);
    var rows := [say(ApiReqStarted, "{}"), say(Say.ErrorRetry, "exhausted"), say(Say.ErrorRetry, "retrying"), ask];
    assert IsExhausted(json, rows[1]);
    ExplainedNowhereExactly(json, rows, Governing(3, 0), 2);
  }

  // What becomes of the last card, and of the governed request

  lemma LastCardSurvives(json: Json, rows: seq<Message>, last: nat)
    requires IsLastRetry(rows, last)
    ensures Survives(json, ProjectedRows(json, rows), last) <==> rows[last] in Combined(json, rows)
    ensures forall m :: m in Combined(json, rows) && m.say == Some(Say.ErrorRetry) ==> m == rows[last]
  {
    hide Survives, ProjectedRows;
    CombinedShape(json, rows, last);
    var p := ProjectedRows(json, rows);
    var front, tail := Filter(p[..last], IsNotRetry), p[last + 1..];
    forall m | m in tail
      ensures !IsRetry(m)
    {
      var k :| 0 <= k < |tail| && tail[k] == m;
      assert p[last + 1 + k] == m;
    }
    assert forall m :: m in front ==> !IsRetry(m);
    assert rows[last] in [rows[last]];
  }

  /** Rows behind a retry row are projected in their text only, and only request rows are. */
  lemma ProjectedKeeps(json: Json, rows: seq<Message>, k: nat)
    requires k < |rows|
    ensures var p := ProjectedRows(json, rows)[k];
      && p.isAsk == rows[k].isAsk && p.ask == rows[k].ask && p.say == rows[k].say && HistoryIndex(p) == HistoryIndex(rows[k])
      && (rows[k].say != Some(ApiReqStarted) ==> p == rows[k])
  {
    ProjectionRewritesRequest(json, rows);
  }

  /** What a response looks like, beside the card it would retire. */
  ghost predicate Responds(card: Message, m: Message) {
    var index := if m.conversationHistoryIndex.Some? then m.conversationHistoryIndex.value else 0;
    var cardIndex := if card.conversationHistoryIndex.Some? then card.conversationHistoryIndex.value else 0;
    var hasText := m.text.Some? && m.text.value != "";
    || index > cardIndex
    || (index == cardIndex && m.isAsk
        && if (m.ask == Some(Followup) || m.ask == Some(CompletionResultAsk)) && !m.partial then hasText
           else m.partial && m.ask.Some?)
    || (index == cardIndex && !m.isAsk
        && if m.say == Some(CompletionResult) && !m.partial then hasText
           else m.partial && m.say.Some?
                && m.say.value in {Reasoning, TextSay, Tool, UseMcpServer, UseSubagents, BrowserActionLaunch, BrowserAction}
                && (hasText || (m.reasoning.Some? && m.reasoning.value != "")))
  }

  /** A row that restarts or retries the request. */
  ghost predicate Restarts(m: Message) {
    m.say == Some(ApiReqRetried) || m.say == Some(ApiReqStarted)
  }

  lemma KindIs(card: Message, m: Message)
    requires (if m.isAsk then m.say == None else m.ask == None) && m.say != Some(Say.ErrorRetry)
    ensures StartsRetry(m) <==> Restarts(m)
    ensures ProvesResponse(m, HistoryIndex(card)) <==>
      !Restarts(m) && !(m.isAsk && m.ask == Some(ApiReqFailed)) && Responds(card, m)
  {
  }

  /** The row at `b` shows a response, and one between it and the last card restarts the request. */
  ghost predicate IsResponse(rows: seq<Message>, last: nat, b: int) {
    && last < b < |rows|
    && (exists a :: last < a < b && (rows[a].say == Some(ApiReqRetried) || rows[a].say == Some(ApiReqStarted)))
    && rows[b].say != Some(ApiReqRetried) && rows[b].say != Some(ApiReqStarted)
    && !(rows[b].isAsk && rows[b].ask == Some(ApiReqFailed))
    && Responds(rows[last], rows[b])
  }

  lemma RecoveredIs(p: seq<Message>, rows: seq<Message>, last: nat)
    requires WellFormed(rows) && |p| == |rows| && last < |rows| && p[last] == rows[last]
    requires forall k :: last < k < |rows| ==> rows[k].say != Some(Say.ErrorRetry)
    requires forall k :: 0 <= k < |rows| ==> p[k].isAsk == rows[k].isAsk && p[k].ask == rows[k].ask && p[k].say == rows[k].say
    requires forall k :: 0 <= k < |rows| && rows[k].say != Some(ApiReqStarted) ==> p[k] == rows[k]
    ensures HasRecovered(p, last + 1, HistoryIndex(p[last])) <==> exists b :: IsResponse(rows, last, b)
  {
    hide ProvesResponse, StartsRetry, Responds, HistoryIndex;
    forall k | last < k < |rows|
      ensures StartsRetry(p[k]) <==> Restarts(rows[k])
      ensures ProvesResponse(p[k], HistoryIndex(p[last]))
        <==> !Restarts(rows[k]) && !(rows[k].isAsk && rows[k].ask == Some(ApiReqFailed)) && Responds(rows[last], rows[k])
    {
      KindIs(rows[last], p[k]);
    }
    if HasRecovered(p, last + 1, HistoryIndex(p[last])) {
      var b :| last + 1 <= b < |p| && ProvesResponse(p[b], HistoryIndex(p[last])) && exists a :: last + 1 <= a < b && StartsRetry(p[a]);
      var a :| last + 1 <= a < b && StartsRetry(p[a]);
      assert Restarts(rows[a]);
      assert IsResponse(rows, last, b);
    }
    if b :| IsResponse(rows, last, b) {
      var a :| last < a < b && (rows[a].say == Some(ApiReqRetried) || rows[a].say == Some(ApiReqStarted));
      assert StartsRetry(p[a]) && ProvesResponse(p[b], HistoryIndex(p[last]));
    }
  }

  lemma SurvivesIs(json: Json, p: seq<Message>, rows: seq<Message>, last: nat)
    requires WellFormed(rows) && |p| == |rows| && last < |rows| && p[last] == rows[last]
    requires forall k :: last < k < |rows| ==> rows[k].say != Some(Say.ErrorRetry)
    requires forall k :: 0 <= k < |rows| ==> p[k].isAsk == rows[k].isAsk && p[k].ask == rows[k].ask && p[k].say == rows[k].say
    ensures Survives(json, p, last) <==>
      && !HasRecovered(p, last + 1, HistoryIndex(p[last]))
      && (json.failed(rows[last].JsonText())
          || forall k :: last < k < |rows| ==>
               !(rows[k].isAsk && rows[k].ask == Some(ApiReqFailed)) && rows[k].say != Some(ApiReqStarted))
  {
    hide HasRecovered;
    if k :| last < k < |rows| && ((rows[k].isAsk && rows[k].ask == Some(ApiReqFailed)) || rows[k].say == Some(ApiReqStarted)) {
      assert IsFailedAsk(p[k]) || SaysRequest(p[k]);
    }
  }

  /**
   The last card goes exactly when a row behind a restart of the request shows a response: one of a later place in the
   conversation, or at the card's place a question or a completion with a text, or a partial part of the stream; or when
   it was still retrying and a failure ask or a request follows. All other cards go.
   */
  lemma CardStaysExactly(json: Json, rows: seq<Message>, last: nat)
    requires WellFormed(rows) && last < |rows| && rows[last].say == Some(Say.ErrorRetry)
    requires forall k :: last < k < |rows| ==> rows[k].say != Some(Say.ErrorRetry)
    ensures rows[last] in Combined(json, rows) <==>
      && !(exists b :: IsResponse(rows, last, b))
      && (json.failed(rows[last].JsonText())
          || forall k :: last < k < |rows| ==>
               !(rows[k].isAsk && rows[k].ask == Some(ApiReqFailed)) && rows[k].say != Some(ApiReqStarted))
    ensures forall m :: m in Combined(json, rows) && m.say == Some(Say.ErrorRetry) ==> m == rows[last]
  {
    hide Combined, ProjectedRows, Survives, HasRecovered, Responds;
    var p := ProjectedRows(json, rows);
    LastCardSurvives(json, rows, last);
    forall k | 0 <= k < |rows|
      ensures p[k].isAsk == rows[k].isAsk && p[k].ask == rows[k].ask && p[k].say == rows[k].say
      ensures rows[k].say != Some(ApiReqStarted) ==> p[k] == rows[k]
    {
      ProjectedKeeps(json, rows, k);
    }
    RecoveredIs(p, rows, last);
    SurvivesIs(json, p, rows, last);
  }

  /** The governed request's row shows the failure in the result, when its text parses; if not it stands as it was. */
  lemma RequestShowsFailure(json: Json, rows: seq<Message>, g: Governing) returns (shown: Message)
    requires Lawful(json) && IsGoverning(rows, g)
    ensures shown in Combined(json, rows) && shown.(text := rows[g.requestIndex].text) == rows[g.requestIndex]
      && (json.message(rows[g.requestIndex].JsonText()) == None ==> shown == rows[g.requestIndex])
      && (json.message(rows[g.requestIndex].JsonText()).Some? ==>
            json.message(shown.JsonText()) == Some(Some(rows[g.failureIndex].TextOrEmpty())))
  {
    hide CombineFrom, Survives;
    GoverningFailureIs(rows, g);
    var p := ProjectedRows(json, rows);
    shown := p[g.requestIndex];
    KeptInPlace(json, p, 0, g.requestIndex);
    assert shown in Combined(json, rows);
  }

  lemma {:induction false} KeptInPlace(json: Json, rows: seq<Message>, i: nat, k: nat)
    requires i <= k < |rows| && !IsRetry(rows[k])
    ensures rows[k] in CombineFrom(json, rows, i)
    decreases k - i
  {
    hide Survives, IsRetry;
    if i < k {
      KeptInPlace(json, rows, i + 1, k);
    }
  }
}
