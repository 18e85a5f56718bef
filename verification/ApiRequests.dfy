/** Pairing request rows with the rows that finish them, by a pointer that never moves back. */
module ApiRequests {
  import opened Options
  import opened Transcript

  /** The merged JSON text of two texts, none when one of them does not parse. */
  type Merge = (string, string) -> Option<string>

  datatype Result = Ok(rows: seq<Message>) | MalformedJson

  /** A request row and the row that finishes it. */
  datatype Pair = Pair(started: nat, finished: nat)

  // The simple form: scan forward to the first finishing row, then jump past it

  function FirstFinished(rows: seq<Message>, i: nat): (f: int)
    requires i <= |rows|
    ensures f == -1 || (i <= f < |rows| && rows[f].IsFinished())
    ensures forall k :: i <= k < (if f < 0 then |rows| else f) ==> !rows[k].IsFinished()
    decreases |rows| - i
  {
    if i == |rows| then -1 else if rows[i].IsFinished() then i else FirstFinished(rows, i + 1)
  }

  function Pairs(rows: seq<Message>, i: nat): (pairs: seq<Pair>)
    requires i <= |rows|
    ensures forall k :: 0 <= k < |pairs| ==> i <= pairs[k].started < pairs[k].finished < |rows|
    decreases |rows| - i
  {
    if i == |rows| then []
    else if !rows[i].IsRequest() then Pairs(rows, i + 1)
    else
      var f := FirstFinished(rows, i + 1);
      if f < 0 then Pairs(rows, i + 1) else [Pair(i, f)] + Pairs(rows, f + 1)
  }

  /** The pairs' combined rows by timestamp; the first entry of a timestamp stays. */
  function CombinedByTs(merge: Merge, rows: seq<Message>, pairs: seq<Pair>, combined: map<int, Message>): Option<map<int, Message>>
    requires forall k :: 0 <= k < |pairs| ==> pairs[k].started < |rows| && pairs[k].finished < |rows|
  {
    if pairs == [] then Some(combined)
    else
      var row := rows[pairs[0].started];
      var text := merge(row.JsonText(), rows[pairs[0].finished].JsonText());
      if text == None then None
      else CombinedByTs(merge, rows, pairs[1..],
                        if row.ts in combined then combined else combined[row.ts := row.(text := text)])
  }

  function OutputRow(combined: map<int, Message>, row: Message): Message {
    if row.IsRequest() && row.ts in combined then combined[row.ts] else row
  }

  function Output(combined: map<int, Message>, rows: seq<Message>): seq<Message> {
    if rows == [] then []
    else if rows[0].IsFinished() then Output(combined, rows[1..])
    else [OutputRow(combined, rows[0])] + Output(combined, rows[1..])
  }

  function Combined(merge: Merge, rows: seq<Message>): Result {
    var combined := CombinedByTs(merge, rows, Pairs(rows, 0), map[]);
    if combined == None then MalformedJson else Ok(Output(combined.value, rows))
  }

  // The fast form

  /** The positions of the finishing rows, in order. */
  ghost predicate IsPositions(rows: seq<Message>, n: nat, positions: seq<nat>) {
    && n <= |rows|
    && (forall k :: 0 <= k < |positions| ==> positions[k] < n && rows[positions[k]].IsFinished())
    && (forall k, l :: 0 <= k < l < |positions| ==> positions[k] < positions[l])
    && (forall i :: 0 <= i < n && rows[i].IsFinished() ==> i in positions)
  }

  method FinishedPositions(rows: seq<Message>) returns (positions: seq<nat>)
    ensures IsPositions(rows, |rows|, positions)
    ensures |Output(map[], rows)| + |positions| == |rows|
  {
    positions := [];
    for i := 0 to |rows|
      invariant IsPositions(rows, i, positions)
      invariant |Output(map[], rows[i..])| + |rows[..i]| - |positions| == |Output(map[], rows)|
    {
      assert rows[i..][0] == rows[i] && rows[i..][1..] == rows[i + 1..];
      if rows[i].IsFinished() {
        positions := positions + [i];
      }
    }
  }

  /** The pointer at the first position behind `i` is the first finishing row behind `i`. */
  lemma PointerIsFirst(rows: seq<Message>, positions: seq<nat>, i: nat, next: nat)
    requires IsPositions(rows, |rows|, positions) && i < |rows| && next <= |positions|
    requires forall k :: 0 <= k < next ==> positions[k] <= i
    requires next < |positions| ==> positions[next] > i
    ensures FirstFinished(rows, i + 1) == if next < |positions| then positions[next] else -1
  {
    var f := FirstFinished(rows, i + 1);
    if f >= 0 {
      assert f in positions;
    }
  }

  method CombinePairs(merge: Merge, rows: seq<Message>, positions: seq<nat>) returns (r: Option<map<int, Message>>)
    requires IsPositions(rows, |rows|, positions)
    ensures r == CombinedByTs(merge, rows, Pairs(rows, 0), map[])
  {
    hide IsPositions, FirstFinished, Pairs, CombinedByTs;
    var combinedByTs: map<int, Message>, nextFinished: nat, i: nat := map[], 0, 0;
    while i < |rows|
      invariant i <= |rows| && nextFinished <= |positions|
      invariant forall k :: 0 <= k < nextFinished ==> positions[k] <= i
      invariant CombinedByTs(merge, rows, Pairs(rows, i), combinedByTs) == CombinedByTs(merge, rows, Pairs(rows, 0), map[])
    {
      var row := rows[i];
      if !row.IsRequest() {
        SkipRow(rows, i);
        i := i + 1;
        continue;
      }
      while nextFinished < |positions| && positions[nextFinished] <= i
        invariant nextFinished <= |positions|
        invariant forall k :: 0 <= k < nextFinished ==> positions[k] <= i
      {
        nextFinished := nextFinished + 1;
      }
      PointerIsFirst(rows, positions, i, nextFinished);
      if nextFinished >= |positions| {
        SkipRow(rows, i);
        i := i + 1;
        continue;
      }
      var finishedIndex := positions[nextFinished];
      TakePair(merge, rows, i, combinedByTs);
      var text := merge(row.JsonText(), rows[finishedIndex].JsonText());
      if text == None {
        return None;
      }
      if row.ts !in combinedByTs {
        combinedByTs := combinedByTs[row.ts := row.(text := text)];
      }
      nextFinished := nextFinished + 1;
      i := finishedIndex + 1;
    }
    AtEnd(merge, rows, combinedByTs);
    return Some(combinedByTs);
  }

  lemma SkipRow(rows: seq<Message>, i: nat)
    requires i < |rows| && (rows[i].IsRequest() ==> FirstFinished(rows, i + 1) < 0)
    ensures Pairs(rows, i) == Pairs(rows, i + 1)
  {
  }

  lemma TakePair(merge: Merge, rows: seq<Message>, i: nat, combined: map<int, Message>)
    requires i < |rows| && rows[i].IsRequest() && FirstFinished(rows, i + 1) >= 0
    ensures var f := FirstFinished(rows, i + 1);
      var text := merge(rows[i].JsonText(), rows[f].JsonText());
      CombinedByTs(merge, rows, Pairs(rows, i), combined)
      == if text == None then None
         else CombinedByTs(merge, rows, Pairs(rows, f + 1),
                           if rows[i].ts in combined then combined else combined[rows[i].ts := rows[i].(text := text)])
  {
    assert Pairs(rows, i)[1..] == Pairs(rows, FirstFinished(rows, i + 1) + 1);
  }

  lemma AtEnd(merge: Merge, rows: seq<Message>, combined: map<int, Message>)
    ensures CombinedByTs(merge, rows, Pairs(rows, |rows|), combined) == Some(combined)
  {
  }

  method CombineApiRequests(merge: Merge, rows: seq<Message>) returns (r: Result)
    ensures r == Combined(merge, rows)
  {
    var positions := FinishedPositions(rows);
    var combinedByTs := CombinePairs(merge, rows, positions);
    if combinedByTs == None {
      return MalformedJson;
    }
    var output := WriteOutput(combinedByTs.value, rows, |rows| - |positions|);
    return Ok(output);
  }

  lemma {:induction false} OutputLength(combined: map<int, Message>, other: map<int, Message>, rows: seq<Message>)
    ensures |Output(combined, rows)| == |Output(other, rows)|
  {
    if rows != [] {
      OutputLength(combined, other, rows[1..]);
    }
  }

  lemma OutputStep(combined: map<int, Message>, rows: seq<Message>, i: nat)
    requires i < |rows|
    ensures Output(combined, rows[i..])
         == (if rows[i].IsFinished() then [] else [OutputRow(combined, rows[i])]) + Output(combined, rows[i + 1..])
  {
    assert rows[i..][0] == rows[i] && rows[i..][1..] == rows[i + 1..];
  }

  lemma NothingToOutput(combined: map<int, Message>, rows: seq<Message>)
    ensures Output(combined, rows[|rows|..]) == [] && rows[0..] == rows
  {
  }

  /** The output pass fills an array of the expected size exactly, in order. */
  method WriteOutput(combined: map<int, Message>, rows: seq<Message>, size: nat) returns (r: seq<Message>)
    requires size == |Output(map[], rows)|
    ensures r == Output(combined, rows)
  {
    hide Output, OutputRow;
    OutputLength(combined, map[], rows);
    NothingToOutput(combined, rows);
    var result := new Message[size];
    var resultIndex := 0;
    for i := 0 to |rows|
      invariant resultIndex + |Output(combined, rows[i..])| == size
      invariant result[..resultIndex] + Output(combined, rows[i..]) == Output(combined, rows)
    {
      OutputStep(combined, rows, i);
      if rows[i].IsFinished() {
        continue;
      }
      ghost var before := result[..resultIndex];
      result[resultIndex] := OutputRow(combined, rows[i]);
      resultIndex := resultIndex + 1;
      assert result[..resultIndex] == before + [OutputRow(combined, rows[i])];
    }
    return result[..];
  }

  // What pairs are

  lemma {:induction false} PairsInRange(rows: seq<Message>, i: nat)
    requires i <= |rows|
    ensures forall k :: 0 <= k < |Pairs(rows, i)| ==>
      var p := Pairs(rows, i)[k];
      i <= p.started < p.finished < |rows|
      && !rows[p.started].isAsk && rows[p.started].say == Some(ApiReqStarted)
      && !rows[p.finished].isAsk && rows[p.finished].say == Some(ApiReqFinished)
      && forall j :: p.started < j < p.finished ==> !rows[j].IsFinished()
    decreases |rows| - i
  {
    if i < |rows| {
      PairsInRange(rows, i + 1);
      if rows[i].IsRequest() && FirstFinished(rows, i + 1) >= 0 {
        PairsInRange(rows, FirstFinished(rows, i + 1) + 1);
      }
    }
  }

  lemma PairsFrom(rows: seq<Message>, i: nat)
    requires i < |rows|
    ensures Pairs(rows, i) ==
      var f := FirstFinished(rows, i + 1);
      if rows[i].IsRequest() && f >= 0 then [Pair(i, f)] + Pairs(rows, f + 1) else Pairs(rows, i + 1)
  {
  }

  lemma PairInRange(rows: seq<Message>, i: nat, k: nat)
    requires i <= |rows| && k < |Pairs(rows, i)|
    ensures i <= Pairs(rows, i)[k].started < Pairs(rows, i)[k].finished < |rows|
  {
    PairsInRange(rows, i);
  }

  /** Pairs neither share rows nor cross: each ends before the next begins. */
  lemma {:induction false} PairsDoNotCross(rows: seq<Message>, i: nat, k: nat, l: nat)
    requires i <= |rows| && k < l < |Pairs(rows, i)|
    ensures Pairs(rows, i)[k].finished < Pairs(rows, i)[l].started
    decreases |rows| - i
  {
    hide Pairs, FirstFinished;
    PairInRange(rows, i, l);
    PairsFrom(rows, i);
    var f := FirstFinished(rows, i + 1);
    if !rows[i].IsRequest() || f < 0 {
      PairsDoNotCross(rows, i + 1, k, l);
    } else if k == 0 {
      PairInRange(rows, f + 1, l - 1);
    } else {
      PairsDoNotCross(rows, f + 1, k - 1, l - 1);
    }
  }

  /** A request is left unpaired only inside another pair, or when nothing finishes behind it. */
  lemma {:induction false} UnpairedRequests(rows: seq<Message>, i: nat, r: nat)
    requires i <= r < |rows| && rows[r].IsRequest()
    ensures (exists k :: 0 <= k < |Pairs(rows, i)| && Pairs(rows, i)[k].started <= r < Pairs(rows, i)[k].finished)
         || FirstFinished(rows, r + 1) < 0
    decreases |rows| - i
  {
    hide Pairs, FirstFinished;
    PairsFrom(rows, i);
    var f := FirstFinished(rows, i + 1);
    if !rows[i].IsRequest() || f < 0 {
      if i < r {
        UnpairedRequests(rows, i + 1, r);
      }
    } else {
      var rest := Pairs(rows, f + 1);
      assert rows[f].IsFinished() && Pairs(rows, i)[0] == Pair(i, f);
      if r > f {
        UnpairedRequests(rows, f + 1, r);
        if k :| 0 <= k < |rest| && rest[k].started <= r < rest[k].finished {
          assert Pairs(rows, i)[k + 1] == rest[k];
        }
      }
    }
  }

  lemma {:induction false} EntriesStay(merge: Merge, rows: seq<Message>, pairs: seq<Pair>, combined: map<int, Message>, ts: int)
    requires forall k :: 0 <= k < |pairs| ==> pairs[k].started < |rows| && pairs[k].finished < |rows|
    requires CombinedByTs(merge, rows, pairs, combined).Some? && ts in combined
    ensures ts in CombinedByTs(merge, rows, pairs, combined).value
    ensures CombinedByTs(merge, rows, pairs, combined).value[ts] == combined[ts]
    decreases |pairs|
  {
    if pairs != [] {
      var row := rows[pairs[0].started];
      var text := merge(row.JsonText(), rows[pairs[0].finished].JsonText());
      EntriesStay(merge, rows, pairs[1..], if row.ts in combined then combined else combined[row.ts := row.(text := text)], ts);
    }
  }

  /** The first pair of a timestamp decides what every request row of that timestamp shows. */
  lemma {:induction false} FirstPairDecides(merge: Merge, rows: seq<Message>, pairs: seq<Pair>, combined: map<int, Message>, k: nat)
    requires forall j :: 0 <= j < |pairs| ==> pairs[j].started < |rows| && pairs[j].finished < |rows|
    requires CombinedByTs(merge, rows, pairs, combined).Some? && k < |pairs|
    requires rows[pairs[k].started].ts !in combined
    requires forall j :: 0 <= j < k ==> rows[pairs[j].started].ts != rows[pairs[k].started].ts
    ensures var row := rows[pairs[k].started];
      var merged := row.(text := merge(row.JsonText(), rows[pairs[k].finished].JsonText()));
      && row.ts in CombinedByTs(merge, rows, pairs, combined).value
      && CombinedByTs(merge, rows, pairs, combined).value[row.ts] == merged
    decreases |pairs|
  {
    var row := rows[pairs[0].started];
    var text := merge(row.JsonText(), rows[pairs[0].finished].JsonText());
    var next := if row.ts in combined then combined else combined[row.ts := row.(text := text)];
    if k == 0 {
      EntriesStay(merge, rows, pairs[1..], next, row.ts);
    } else {
      FirstPairDecides(merge, rows, pairs[1..], next, k - 1);
    }
  }

  predicate IsShown(m: Message) {
    !m.IsFinished()
  }

  /** The output has every row but the finishing ones, in order, a request row as its timestamp's first pair left it. */
  lemma {:induction false} OutputKeepsOrder(combined: map<int, Message>, rows: seq<Message>)
    ensures var shown, output := Filter(rows, IsShown), Output(combined, rows);
      |output| == |shown| && forall i :: 0 <= i < |output| ==>
        output[i] == (if shown[i].IsRequest() && shown[i].ts in combined then combined[shown[i].ts] else shown[i])
  {
    if rows != [] {
      OutputKeepsOrder(combined, rows[1..]);
    }
  }

  // The whole function

  ghost predicate Merges(merge: Merge, rows: seq<Message>, p: Pair) {
    p.started < |rows| && p.finished < |rows| && merge(rows[p.started].JsonText(), rows[p.finished].JsonText()).Some?
  }

  lemma {:induction false} FailsExactly(merge: Merge, rows: seq<Message>, pairs: seq<Pair>, combined: map<int, Message>)
    requires forall k :: 0 <= k < |pairs| ==> pairs[k].started < |rows| && pairs[k].finished < |rows|
    ensures CombinedByTs(merge, rows, pairs, combined).Some? <==> forall k :: 0 <= k < |pairs| ==> Merges(merge, rows, pairs[k])
    decreases |pairs|
  {
    if pairs != [] {
      var row := rows[pairs[0].started];
      var text := merge(row.JsonText(), rows[pairs[0].finished].JsonText());
      var rest := pairs[1..];
      FailsExactly(merge, rows, rest, if row.ts in combined then combined else combined[row.ts := row.(text := text)]);
      assert forall k :: 0 < k < |pairs| ==> rest[k - 1] == pairs[k];
    }
  }

  /** The texts of a pair that do not merge are the only error. */
  lemma MalformedExactly(merge: Merge, rows: seq<Message>)
    ensures Combined(merge, rows).MalformedJson? <==>
      exists k :: 0 <= k < |Pairs(rows, 0)| && var p := Pairs(rows, 0)[k]; merge(rows[p.started].JsonText(), rows[p.finished].JsonText()) == None
  {
    hide Pairs, Output;
    FailsExactly(merge, rows, Pairs(rows, 0), map[]);
    assert forall k :: 0 <= k < |Pairs(rows, 0)| ==> (Merges(merge, rows, Pairs(rows, 0)[k])
      <==> merge(rows[Pairs(rows, 0)[k].started].JsonText(), rows[Pairs(rows, 0)[k].finished].JsonText()) != None);
  }

  lemma {:induction false} NoOtherEntries(merge: Merge, rows: seq<Message>, pairs: seq<Pair>, combined: map<int, Message>, ts: int)
    requires forall k :: 0 <= k < |pairs| ==> pairs[k].started < |rows| && pairs[k].finished < |rows|
    requires CombinedByTs(merge, rows, pairs, combined).Some? && ts !in combined
    requires forall k :: 0 <= k < |pairs| ==> rows[pairs[k].started].ts != ts
    ensures ts !in CombinedByTs(merge, rows, pairs, combined).value
    decreases |pairs|
  {
    if pairs != [] {
      var row := rows[pairs[0].started];
      var text := merge(row.JsonText(), rows[pairs[0].finished].JsonText());
      NoOtherEntries(merge, rows, pairs[1..], if row.ts in combined then combined else combined[row.ts := row.(text := text)], ts);
    }
  }

  lemma {:induction false} RowHasPlace(combined: map<int, Message>, rows: seq<Message>, i: nat)
    requires i < |rows| && !rows[i].IsFinished()
    ensures var place := |Filter(rows[..i], IsShown)|;
      place < |Output(combined, rows)| && Output(combined, rows)[place] == OutputRow(combined, rows[i])
  {
    hide OutputRow;
    if i > 0 {
      assert rows[..i][0] == rows[0] && rows[..i][1..] == rows[1..][..i - 1];
      RowHasPlace(combined, rows[1..], i - 1);
    } else {
      assert rows[..0] == [];
    }
  }

  /**
   The result has every row but the finishing ones, in order. A request whose timestamp a pair has stands there as the
   request of the first such pair with the merged text.
   */
  lemma PairedRequestIsMerged(merge: Merge, rows: seq<Message>, i: nat, k: nat)
    requires Combined(merge, rows).Ok? && i < |rows| && k < |Pairs(rows, 0)|
    requires !rows[i].isAsk && rows[i].say == Some(ApiReqStarted)
    requires rows[Pairs(rows, 0)[k].started].ts == rows[i].ts
    requires forall j :: 0 <= j < k ==> rows[Pairs(rows, 0)[j].started].ts != rows[i].ts
    ensures var result, place, p := Combined(merge, rows).rows, |Filter(rows[..i], IsShown)|, Pairs(rows, 0)[k];
      && |result| == |Filter(rows, IsShown)| && place < |result|
      && result[place] == rows[p.started].(text := merge(rows[p.started].JsonText(), rows[p.finished].JsonText()))
  {
    hide Pairs, Output, CombinedByTs, Filter;
    var combined := CombinedByTs(merge, rows, Pairs(rows, 0), map[]).value;
    FirstPairDecides(merge, rows, Pairs(rows, 0), map[], k);
    OutputKeepsOrder(combined, rows);
    RowHasPlace(combined, rows, i);
  }

  /** Every other row stands there unchanged. */
  lemma OtherRowStays(merge: Merge, rows: seq<Message>, i: nat)
    requires Combined(merge, rows).Ok? && i < |rows| && (rows[i].isAsk || rows[i].say != Some(ApiReqFinished))
    requires !rows[i].isAsk && rows[i].say == Some(ApiReqStarted) ==> forall k :: 0 <= k < |Pairs(rows, 0)| ==> rows[Pairs(rows, 0)[k].started].ts != rows[i].ts
    ensures var result, place := Combined(merge, rows).rows, |Filter(rows[..i], IsShown)|;
      |result| == |Filter(rows, IsShown)| && place < |result| && result[place] == rows[i]
  {
    hide Pairs, Output, CombinedByTs, Filter;
    var combined := CombinedByTs(merge, rows, Pairs(rows, 0), map[]).value;
    if rows[i].IsRequest() {
      NoOtherEntries(merge, rows, Pairs(rows, 0), map[], rows[i].ts);
    }
    OutputKeepsOrder(combined, rows);
    RowHasPlace(combined, rows, i);
  }
}
