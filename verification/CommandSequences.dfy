/** Command rows with the output rows that name them, however the outputs of different commands interleave. */
module CommandSequences {
  import opened Options
  import opened Transcript
  import opened JsText

  predicate IsCommand(m: Message) {
    m.ask == Some(CommandAsk) || m.say == Some(Command)
  }

  predicate IsOutput(m: Message) {
    m.ask == Some(CommandOutputAsk) || m.say == Some(CommandOutput)
  }

  /** Whether an output row names the command with timestamp `ts`. */
  predicate IsOutputOf(m: Message, ts: int) {
    IsOutput(m) && m.commandTs == Some(ts) && ts > 0
  }

  /** The non-empty outputs of a command, in order. */
  function OutputsOf(rows: seq<Message>, ts: int): seq<string> {
    if rows == [] then []
    else
      var before, last := OutputsOf(rows[..|rows| - 1], ts), rows[|rows| - 1];
      if IsOutputOf(last, ts) && last.TextOrEmpty() != "" then before + [last.TextOrEmpty()] else before
  }

  predicate HasOutput(rows: seq<Message>, ts: int) {
    exists i :: 0 <= i < |rows| && IsOutputOf(rows[i], ts)
  }

  /** What the map holds for a command: the joined non-empty outputs that name it, when any output does. */
  ghost predicate Agrees(outputByTs: map<int, string>, rows: seq<Message>, ts: int) {
    && (ts in outputByTs <==> HasOutput(rows, ts))
    && (ts in outputByTs ==> outputByTs[ts] == Join(OutputsOf(rows, ts), "\n"))
  }

  method CollectOutputs(rows: seq<Message>) returns (outputByTs: map<int, string>)
    ensures forall ts :: Agrees(outputByTs, rows, ts)
  {
    hide Agrees;
    outputByTs := map[];
    forall ts
      ensures Agrees(map[], [], ts)
    {
      NothingAgrees(ts);
    }
    assert rows[..0] == [];
    for i := 0 to |rows|
      invariant forall ts :: Agrees(outputByTs, rows[..i], ts)
    {
      var row := rows[i];
      ghost var before := outputByTs;
      if IsOutput(row) && row.commandTs.Some? && row.commandTs.value > 0 {
        var ts := row.commandTs.value;
        var existing := if ts in outputByTs then outputByTs[ts] else "";
        var output := row.TextOrEmpty();
        if output != "" {
          outputByTs := outputByTs[ts := if existing != "" then existing + "\n" + output else output];
        } else if existing == "" {
          outputByTs := outputByTs[ts := ""];
        }
      }
      ghost var upToHere := rows[..i] + [row];
      assert rows[..i + 1] == upToHere;
      forall ts
        ensures Agrees(outputByTs, upToHere, ts)
      {
        AgreesStep(before, outputByTs, rows[..i], row, ts);
      }
    }
    assert rows[..|rows|] == rows;
  }

  lemma NothingAgrees(ts: int)
    ensures Agrees(map[], [], ts)
  {
  }

  lemma AgreesStep(before: map<int, string>, after: map<int, string>, rows: seq<Message>, row: Message, ts: int)
    requires Agrees(before, rows, ts)
    requires if IsOutputOf(row, ts)
      then var existing, output := if ts in before then before[ts] else "", row.TextOrEmpty();
        ts in after && after[ts] == if output == "" then existing else if existing == "" then output else existing + "\n" + output
      else (ts in after <==> ts in before) && (ts in before ==> after[ts] == before[ts])
    ensures Agrees(after, rows + [row], ts)
  {
    HasOutputSnoc(rows, row, ts);
    assert (rows + [row])[..|rows|] == rows;
    OutputsNonEmpty(rows, ts);
    JoinSnoc(OutputsOf(rows, ts), row.TextOrEmpty());
    if !HasOutput(rows, ts) {
      NoOutputs(rows, ts);
    }
  }

  lemma HasOutputSnoc(rows: seq<Message>, row: Message, ts: int)
    ensures HasOutput(rows + [row], ts) <==> HasOutput(rows, ts) || IsOutputOf(row, ts)
  {
    assert (rows + [row])[|rows|] == row;
    if i :| 0 <= i < |rows| && IsOutputOf(rows[i], ts) {
      assert (rows + [row])[i] == rows[i];
    }
  }

  lemma {:induction false} OutputsNonEmpty(rows: seq<Message>, ts: int)
    ensures forall k :: 0 <= k < |OutputsOf(rows, ts)| ==> OutputsOf(rows, ts)[k] != ""
  {
    if rows != [] {
      OutputsNonEmpty(rows[..|rows| - 1], ts);
    }
  }

  lemma {:induction false} NoOutputs(rows: seq<Message>, ts: int)
    requires !HasOutput(rows, ts)
    ensures OutputsOf(rows, ts) == []
  {
    if rows != [] {
      assert rows[|rows| - 1] == rows[|rows| - 1];
      NoOutputs(rows[..|rows| - 1], ts);
    }
  }

  lemma {:induction false} JoinSnoc(parts: seq<string>, part: string)
    requires forall k :: 0 <= k < |parts| ==> parts[k] != ""
    ensures Join(parts + [part], "\n") == if parts == [] then part else Join(parts, "\n") + "\n" + part
    ensures Join(parts, "\n") == "" <==> parts == []
  {
    if parts == [] {
      assert [] + [part] == [part];
    } else {
      assert (parts + [part])[1..] == parts[1..] + [part];
      JoinSnoc(parts[1..], part);
    }
  }

  // The merge

  /** The facts of a command row; `legacy` splits the text of a row that predates them. */
  function ReadCommandRow(legacy: string -> CommandFacts, m: Message): CommandFacts {
    if m.command.Some? then m.command.value else legacy(m.TextOrEmpty())
  }

  function WithOutput(legacy: string -> CommandFacts, m: Message, output: string): Message {
    var row := ReadCommandRow(legacy, m);
    var merged := if row.output == "" then output else if output == "" then row.output else row.output + "\n" + output;
    m.(command := Some(row.(output := merged)))
  }

  /** A command row with its own earlier output and the outputs that name it. */
  function Merged(legacy: string -> CommandFacts, rows: seq<Message>, m: Message): Message {
    if HasOutput(rows, m.ts) then WithOutput(legacy, m, Join(OutputsOf(rows, m.ts), "\n")) else m
  }

  /** The merged commands by timestamp, the last of a timestamp winning. */
  function CommandsByTs(legacy: string -> CommandFacts, rows: seq<Message>, commands: seq<Message>): map<int, Message> {
    if commands == [] then map[]
    else
      var before, last := CommandsByTs(legacy, rows, commands[..|commands| - 1]), commands[|commands| - 1];
      if IsCommand(last) then before[last.ts := Merged(legacy, rows, last)] else before
  }

  function Shown(byTs: map<int, Message>, m: Message): Message {
    if IsCommand(m) && m.ts in byTs then byTs[m.ts] else m
  }

  function WithoutOutputs(byTs: map<int, Message>, rows: seq<Message>): seq<Message> {
    if rows == [] then []
    else if IsOutput(rows[0]) then WithoutOutputs(byTs, rows[1..])
    else [Shown(byTs, rows[0])] + WithoutOutputs(byTs, rows[1..])
  }

  function Combined(legacy: string -> CommandFacts, rows: seq<Message>): seq<Message> {
    WithoutOutputs(CommandsByTs(legacy, rows, rows), rows)
  }

  method CombineCommandSequences(legacy: string -> CommandFacts, rows: seq<Message>) returns (r: seq<Message>)
    ensures r == Combined(legacy, rows)
  {
    var outputByTs := CollectOutputs(rows);
    assert forall ts {:trigger ts in outputByTs} :: Agrees(outputByTs, rows, ts);
    var combinedCommands: map<int, Message> := map[];
    for i := 0 to |rows|
      invariant combinedCommands == CommandsByTs(legacy, rows, rows[..i])
    {
      var row := rows[i];
      assert rows[..i + 1][..i] == rows[..i];
      if IsCommand(row) {
        if row.ts in outputByTs {
          combinedCommands := combinedCommands[row.ts := WithOutput(legacy, row, outputByTs[row.ts])];
        } else {
          combinedCommands := combinedCommands[row.ts := row];
        }
      }
    }
    assert rows[..|rows|] == rows;
    r := [];
    for i := 0 to |rows|
      invariant r + WithoutOutputs(combinedCommands, rows[i..]) == Combined(legacy, rows)
    {
      var row, rest := rows[i], rows[i + 1..];
      assert rows[i..][0] == row && rows[i..][1..] == rest;
      if !IsOutput(row) {
        assert r + ([Shown(combinedCommands, row)] + WithoutOutputs(combinedCommands, rest))
            == r + [Shown(combinedCommands, row)] + WithoutOutputs(combinedCommands, rest);
        r := r + [Shown(combinedCommands, row)];
      }
    }
    assert rows[|rows|..] == [] && WithoutOutputs(combinedCommands, []) == [];
  }

  // What the merge means

  lemma {:induction false} CommandsByTsEntry(legacy: string -> CommandFacts, rows: seq<Message>, commands: seq<Message>, ts: int)
    returns (k: int)
    ensures -1 <= k < |commands|
    ensures ts in CommandsByTs(legacy, rows, commands) <==> k >= 0
    ensures k >= 0 ==> IsCommand(commands[k]) && commands[k].ts == ts
    ensures k >= 0 ==> CommandsByTs(legacy, rows, commands)[ts] == Merged(legacy, rows, commands[k])
    ensures forall j :: k < j < |commands| && IsCommand(commands[j]) ==> commands[j].ts != ts
  {
    if commands == [] {
      k := -1;
    } else if IsCommand(commands[|commands| - 1]) && commands[|commands| - 1].ts == ts {
      k := |commands| - 1;
    } else {
      k := CommandsByTsEntry(legacy, rows, commands[..|commands| - 1], ts);
    }
  }

  predicate IsNotOutput(m: Message) {
    !IsOutput(m)
  }

  /** Each row but the outputs has its place in the result, in order. */
  lemma {:induction false} RowHasPlace(byTs: map<int, Message>, rows: seq<Message>, i: nat)
    requires i < |rows| && !IsOutput(rows[i])
    ensures |WithoutOutputs(byTs, rows)| == |Filter(rows, IsNotOutput)|
    ensures var place := |Filter(rows[..i], IsNotOutput)|;
      place < |WithoutOutputs(byTs, rows)| && WithoutOutputs(byTs, rows)[place] == Shown(byTs, rows[i])
  {
    if i > 0 {
      assert rows[..i][0] == rows[0] && rows[..i][1..] == rows[1..][..i - 1];
      RowHasPlace(byTs, rows[1..], i - 1);
    } else {
      LengthKept(byTs, rows[1..]);
      assert rows[..0] == [];
    }
  }

  lemma {:induction false} LengthKept(byTs: map<int, Message>, rows: seq<Message>)
    ensures |WithoutOutputs(byTs, rows)| == |Filter(rows, IsNotOutput)|
  {
    if rows != [] {
      LengthKept(byTs, rows[1..]);
    }
  }

  lemma MergedOutput(legacy: string -> CommandFacts, rows: seq<Message>, m: Message)
    ensures var facts := if m.command.Some? then m.command.value else legacy(m.TextOrEmpty());
      var outputs := OutputsOf(rows, m.ts);
      Merged(legacy, rows, m) == if !HasOutput(rows, m.ts) then m
        else m.(command := Some(facts.(output := Join((if facts.output == "" then [] else [facts.output]) + outputs, "\n"))))
  {
    hide OutputsOf, Join;
    var facts := if m.command.Some? then m.command.value else legacy(m.TextOrEmpty());
    var outputs := OutputsOf(rows, m.ts);
    OutputsNonEmpty(rows, m.ts);
    JoinCons(facts.output, outputs);
    assert [] + outputs == outputs;
  }

  lemma JoinCons(first: string, rest: seq<string>)
    requires forall k :: 0 <= k < |rest| ==> rest[k] != ""
    ensures Join([first] + rest, "\n") == if rest == [] then first else first + "\n" + Join(rest, "\n")
    ensures Join(rest, "\n") == "" <==> rest == []
  {
    assert ([first] + rest)[1..] == rest;
  }

  /**
   The result has every row but the outputs, in order. A command with a timestamp of its own that outputs name keeps its
   command line, directory and approval, and shows its earlier output and then each non-empty output, one per line; any
   other row stands as it was.
   */
  lemma CommandShowsOwnOutputs(legacy: string -> CommandFacts, rows: seq<Message>, i: nat)
    requires i < |rows| && rows[i].ask != Some(CommandOutputAsk) && rows[i].say != Some(CommandOutput)
    requires IsCommand(rows[i]) ==> forall j :: 0 <= j < |rows| && j != i && IsCommand(rows[j]) ==> rows[j].ts != rows[i].ts
    ensures var m, result, place := rows[i], Combined(legacy, rows), |Filter(rows[..i], IsNotOutput)|;
      var facts := if m.command.Some? then m.command.value else legacy(m.TextOrEmpty());
      var earlier := if facts.output == "" then [] else [facts.output];
      && |result| == |Filter(rows, IsNotOutput)| && place < |result|
      && result[place] ==
        if (m.ask == Some(CommandAsk) || m.say == Some(Command)) && exists j :: 0 <= j < |rows| && IsOutputOf(rows[j], m.ts)
        then m.(command := Some(CommandFacts(facts.command, facts.workingDirectory,
                                             Join(earlier + OutputsOf(rows, m.ts), "\n"), facts.asksApproval)))
        else m
  {
    hide CommandsByTs, Merged, Filter, WithoutOutputs, OutputsOf, Join;
    var k := CommandsByTsEntry(legacy, rows, rows, rows[i].ts);
    RowHasPlace(CommandsByTs(legacy, rows, rows), rows, i);
    MergedOutput(legacy, rows, rows[i]);
  }

  /** The outputs of a command are those of the parts of a transcript in turn, and a row is one exactly in the stated case. */
  lemma {:induction false} OutputsOfParts(a: seq<Message>, b: seq<Message>, m: Message, ts: int)
    ensures OutputsOf(a + b, ts) == OutputsOf(a, ts) + OutputsOf(b, ts)
    ensures OutputsOf([m], ts) ==
      if (m.ask == Some(CommandOutputAsk) || m.say == Some(CommandOutput)) && m.commandTs == Some(ts) && ts > 0
         && m.text.Some? && m.text.value != ""
      then [m.text.value] else []
    decreases |b|
  {
    assert [m][..0] == [];
    if b == [] {
      assert a + b == a;
    } else {
      var n := |b| - 1;
      assert (a + b)[..|a + b| - 1] == a + b[..n];
      OutputsOfParts(a, b[..n], m, ts);
    }
  }

  lemma {:induction false} WithoutOutputsRows(byTs: map<int, Message>, rows: seq<Message>)
    ensures forall m :: m in WithoutOutputs(byTs, rows) ==> exists i :: 0 <= i < |rows| && !IsOutput(rows[i]) && m == Shown(byTs, rows[i])
  {
    if rows != [] {
      WithoutOutputsRows(byTs, rows[1..]);
      forall m | m in WithoutOutputs(byTs, rows)
        ensures exists i :: 0 <= i < |rows| && !IsOutput(rows[i]) && m == Shown(byTs, rows[i])
      {
        if m in WithoutOutputs(byTs, rows[1..]) {
          var i :| 0 <= i < |rows[1..]| && !IsOutput(rows[1..][i]) && m == Shown(byTs, rows[1..][i]);
          assert rows[i + 1] == rows[1..][i];
        }
      }
    }
  }

  lemma {:induction false} ShownStay(byTs: map<int, Message>, rows: seq<Message>)
    requires forall i :: 0 <= i < |rows| ==> !IsOutput(rows[i]) && Shown(byTs, rows[i]) == rows[i]
    ensures WithoutOutputs(byTs, rows) == rows
  {
    if rows != [] {
      ShownStay(byTs, rows[1..]);
    }
  }

  /** A merged row is a command like the row it was made of, and no output. */
  lemma MergedIsCommand(legacy: string -> CommandFacts, rows: seq<Message>, m: Message)
    requires IsCommand(m) && (if m.isAsk then m.say == None else m.ask == None)
    ensures var c := Merged(legacy, rows, m); IsCommand(c) && c.ts == m.ts && !IsOutput(c)
  {
  }

  /** Rows of the result that are commands are what the map holds for their timestamp, and none is an output. */
  lemma CombinedRows(legacy: string -> CommandFacts, rows: seq<Message>)
    requires WellFormed(rows)
    ensures forall m :: m in Combined(legacy, rows) ==>
      !IsOutput(m) && (IsCommand(m) ==> m.ts in CommandsByTs(legacy, rows, rows) && CommandsByTs(legacy, rows, rows)[m.ts] == m)
  {
    var byTs := CommandsByTs(legacy, rows, rows);
    WithoutOutputsRows(byTs, rows);
    forall m | m in Combined(legacy, rows)
      ensures !IsOutput(m) && (IsCommand(m) ==> m.ts in byTs && byTs[m.ts] == m)
    {
      var i :| 0 <= i < |rows| && !IsOutput(rows[i]) && m == Shown(byTs, rows[i]);
      var k := CommandsByTsEntry(legacy, rows, rows, rows[i].ts);
      if k >= 0 {
        MergedIsCommand(legacy, rows, rows[k]);
      }
    }
  }

  /** Combining twice equals combining once, even where commands share a timestamp. */
  lemma CombineIsIdempotent(legacy: string -> CommandFacts, rows: seq<Message>)
    requires WellFormed(rows)
    ensures Combined(legacy, Combined(legacy, rows)) == Combined(legacy, rows)
  {
    hide CommandsByTs, Combined, IsCommand, IsOutput, OutputsOf;
    var out := Combined(legacy, rows);
    CombinedRows(legacy, rows);
    var byTs := CommandsByTs(legacy, out, out);
    forall i | 0 <= i < |out|
      ensures !IsOutput(out[i]) && Shown(byTs, out[i]) == out[i]
    {
      assert out[i] in out;
      var k := CommandsByTsEntry(legacy, out, out, out[i].ts);
      assert k >= 0 ==> out[k] in out;
      NoOutputLeft(out, out[i].ts);
    }
    ShownStay(byTs, out);
    CombinedIs(legacy, out);
  }

  lemma CombinedIs(legacy: string -> CommandFacts, rows: seq<Message>)
    ensures Combined(legacy, rows) == WithoutOutputs(CommandsByTs(legacy, rows, rows), rows)
  {
  }

  lemma NoOutputLeft(rows: seq<Message>, ts: int)
    requires forall m :: m in rows ==> !IsOutput(m)
    ensures !HasOutput(rows, ts)
  {
  }
}
