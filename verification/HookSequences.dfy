/** Hook rows with their output, and one row per tool or command timestamp, in transcript order. */
module HookSequences {
  import opened Options
  import opened Transcript

  const HOOK_OUTPUT_STRING := "__HOOK_OUTPUT__"

  predicate IsHook(m: Message) {
    m.say == Some(Hook) || m.say == Some(HookStatus)
  }

  predicate IsHookOutput(m: Message) {
    m.say == Some(HookOutput) || m.say == Some(HookOutputStream)
  }

  predicate IsToolOrCommand(m: Message) {
    m.ask == Some(ToolAsk) || m.say == Some(Tool) || m.ask == Some(CommandAsk) || m.say == Some(Command)
  }

  // Tool and command rows

  predicate HasNewer(rows: seq<Message>, ts: int) {
    exists i :: 0 <= i < |rows| && IsToolOrCommand(rows[i]) && rows[i].ts == ts
  }

  /** All rows but tool and command rows that a later one of the same timestamp replaces. */
  function Deduped(rows: seq<Message>): seq<Message> {
    if rows == [] then []
    else if IsToolOrCommand(rows[0]) && HasNewer(rows[1..], rows[0].ts) then Deduped(rows[1..])
    else [rows[0]] + Deduped(rows[1..])
  }

  method DedupeToolOrCommandMessagesByTimestamp(rows: seq<Message>) returns (r: seq<Message>)
    ensures r == Deduped(rows)
  {
    hide Deduped, IsToolOrCommand;
    var lastIndexByTs: map<int, nat> := map[];
    for i := 0 to |rows|
      invariant forall ts :: ts in lastIndexByTs ==>
        lastIndexByTs[ts] < i && IsToolOrCommand(rows[lastIndexByTs[ts]]) && rows[lastIndexByTs[ts]].ts == ts
      invariant forall k :: 0 <= k < i && IsToolOrCommand(rows[k]) ==>
        rows[k].ts in lastIndexByTs && k <= lastIndexByTs[rows[k].ts]
    {
      if IsToolOrCommand(rows[i]) {
        lastIndexByTs := lastIndexByTs[rows[i].ts := i];
      }
    }
    r := [];
    for i := 0 to |rows|
      invariant r + Deduped(rows[i..]) == Deduped(rows)
    {
      var row, rest := rows[i], rows[i + 1..];
      assert rows[i..][0] == row && rows[i..][1..] == rest;
      if IsToolOrCommand(row) {
        var last := lastIndexByTs[row.ts];
        assert last > i ==> rest[last - i - 1] == rows[last];
        assert HasNewer(rest, row.ts) <==> last > i;
      }
      DedupedFrom(rows, i);
      if !IsToolOrCommand(row) || lastIndexByTs[row.ts] == i {
        assert r + ([row] + Deduped(rest)) == r + [row] + Deduped(rest);
        r := r + [row];
      }
    }
    DedupedFrom(rows, |rows|);
  }

  lemma DedupedFrom(rows: seq<Message>, i: nat)
    requires i <= |rows|
    ensures Deduped(rows[i..])
         == if i == |rows| then []
            else if IsToolOrCommand(rows[i]) && HasNewer(rows[i + 1..], rows[i].ts) then Deduped(rows[i + 1..])
            else [rows[i]] + Deduped(rows[i + 1..])
  {
    assert i < |rows| ==> rows[i..][0] == rows[i] && rows[i..][1..] == rows[i + 1..];
  }

  // Hooks

  /** The output texts up to the next hook. */
  function Outputs(rows: seq<Message>): seq<string> {
    if rows == [] || IsHook(rows[0]) then []
    else if IsHookOutput(rows[0]) then [rows[0].TextOrEmpty()] + Outputs(rows[1..])
    else Outputs(rows[1..])
  }

  /** The non-empty ones, each on a line of its own. */
  function Lines(outputs: seq<string>): string {
    if outputs == [] then ""
    else (if outputs[0] == "" then "" else "\n" + outputs[0]) + Lines(outputs[1..])
  }

  function HookText(base: string, outputs: seq<string>): string {
    if outputs == [] then base else base + "\n" + HOOK_OUTPUT_STRING + Lines(outputs)
  }

  /** A hook row with exactly the outputs before the next hook. */
  function WithOutputs(hook: Message, behind: seq<Message>): Message {
    hook.(text := Some(HookText(hook.TextOrEmpty(), Outputs(behind))))
  }

  function NextHook(rows: seq<Message>, i: nat): (j: nat)
    requires i <= |rows|
    ensures i <= j <= |rows| && (forall k :: i <= k < j ==> !IsHook(rows[k])) && (j < |rows| ==> IsHook(rows[j]))
    decreases |rows| - i
  {
    if i == |rows| || IsHook(rows[i]) then i else NextHook(rows, i + 1)
  }

  method CombineHookWithOutputs(rows: seq<Message>, start: nat) returns (combined: Message, nextIndex: nat)
    requires start < |rows|
    ensures combined == WithOutputs(rows[start], rows[start + 1..]) && nextIndex == NextHook(rows, start + 1)
  {
    hide HookText, IsHook, IsHookOutput, Outputs, NextHook;
    var hook := rows[start];
    var combinedText, hasOutput, i := hook.TextOrEmpty(), false, start + 1;
    ghost var all := Outputs(rows[i..]);
    ghost var seen: seq<string> := [];
    HookTextOfNone(combinedText);
    while i < |rows| && !IsHook(rows[i])
      invariant start < i <= |rows| && NextHook(rows, i) == NextHook(rows, start + 1)
      invariant all == seen + Outputs(rows[i..])
      invariant combinedText == HookText(hook.TextOrEmpty(), seen) && (hasOutput <==> seen != [])
    {
      SeenGrows(rows, i, seen);
      NextHookFrom(rows, i);
      if IsHookOutput(rows[i]) {
        var output := rows[i].TextOrEmpty();
        HookTextSnoc(hook.TextOrEmpty(), seen, output);
        if !hasOutput {
          combinedText := combinedText + "\n" + HOOK_OUTPUT_STRING;
          hasOutput := true;
        }
        if |output| > 0 {
          combinedText := combinedText + ("\n" + output);
        }
        seen := seen + [output];
      }
      i := i + 1;
    }
    NothingSeen(rows, i, seen);
    NextHookFrom(rows, i);
    return hook.(text := Some(combinedText)), i;
  }

  lemma HookTextOfNone(base: string)
    ensures HookText(base, []) == base
  {
  }

  lemma NextHookFrom(rows: seq<Message>, i: nat)
    requires i <= |rows|
    ensures NextHook(rows, i) == if i == |rows| || IsHook(rows[i]) then i else NextHook(rows, i + 1)
  {
  }

  lemma SeenGrows(rows: seq<Message>, i: nat, seen: seq<string>)
    requires i < |rows| && !IsHook(rows[i])
    ensures seen + Outputs(rows[i..])
         == (if IsHookOutput(rows[i]) then seen + [rows[i].TextOrEmpty()] else seen) + Outputs(rows[i + 1..])
  {
    hide Outputs, IsHook, IsHookOutput;
    OutputsFrom(rows, i);
    var rest := Outputs(rows[i + 1..]);
    assert seen + ([rows[i].TextOrEmpty()] + rest) == (seen + [rows[i].TextOrEmpty()]) + rest;
  }

  lemma NothingSeen(rows: seq<Message>, i: nat, seen: seq<string>)
    requires i <= |rows| && (i < |rows| ==> IsHook(rows[i]))
    ensures seen + Outputs(rows[i..]) == seen
  {
    hide Outputs, IsHook, IsHookOutput;
    OutputsFrom(rows, i);
  }

  lemma OutputsFrom(rows: seq<Message>, i: nat)
    requires i <= |rows|
    ensures Outputs(rows[i..])
         == if i == |rows| || IsHook(rows[i]) then []
            else if IsHookOutput(rows[i]) then [rows[i].TextOrEmpty()] + Outputs(rows[i + 1..])
            else Outputs(rows[i + 1..])
  {
    assert i < |rows| ==> rows[i..][0] == rows[i] && rows[i..][1..] == rows[i + 1..];
  }

  lemma {:induction false} LinesSnoc(outputs: seq<string>, output: string)
    ensures Lines(outputs + [output]) == Lines(outputs) + (if output == "" then "" else "\n" + output)
  {
    if outputs == [] {
      assert [] + [output] == [output];
    } else {
      assert (outputs + [output])[1..] == outputs[1..] + [output];
      LinesSnoc(outputs[1..], output);
    }
  }

  lemma HookTextSnoc(base: string, outputs: seq<string>, output: string)
    ensures var start := if outputs == [] then base + "\n" + HOOK_OUTPUT_STRING else HookText(base, outputs);
      HookText(base, outputs + [output]) == if output == "" then start else start + ("\n" + output)
  {
    LinesSnoc(outputs, output);
    assert HookText(base, outputs + [output]) == base + "\n" + HOOK_OUTPUT_STRING + Lines(outputs + [output]);
  }

  /** The combined hooks by timestamp, the last of a timestamp winning. */
  function HooksByTs(rows: seq<Message>, combined: map<int, Message>): map<int, Message> {
    if rows == [] then combined
    else HooksByTs(rows[1..], if IsHook(rows[0]) then combined[rows[0].ts := WithOutputs(rows[0], rows[1..])] else combined)
  }

  function Rebuild(combined: map<int, Message>, rows: seq<Message>): seq<Message> {
    if rows == [] then []
    else if IsHookOutput(rows[0]) then Rebuild(combined, rows[1..])
    else [if IsHook(rows[0]) && rows[0].ts in combined then combined[rows[0].ts] else rows[0]] + Rebuild(combined, rows[1..])
  }

  function WithHooks(rows: seq<Message>): seq<Message> {
    Rebuild(HooksByTs(rows, map[]), rows)
  }

  lemma {:induction false} NoHooksBetween(rows: seq<Message>, i: nat, j: nat, combined: map<int, Message>)
    requires i <= j <= |rows| && forall k :: i <= k < j ==> !IsHook(rows[k])
    ensures HooksByTs(rows[i..], combined) == HooksByTs(rows[j..], combined)
    decreases j - i
  {
    if i < j {
      assert rows[i..][0] == rows[i] && rows[i..][1..] == rows[i + 1..];
      NoHooksBetween(rows, i + 1, j, combined);
    }
  }

  method CombineAllHooks(rows: seq<Message>) returns (r: seq<Message>)
    ensures r == WithHooks(rows)
  {
    var combinedHooksByTs: map<int, Message>, i: nat := map[], 0;
    assert rows[0..] == rows;
    while i < |rows|
      invariant i <= |rows|
      invariant HooksByTs(rows[i..], combinedHooksByTs) == HooksByTs(rows, map[])
    {
      assert rows[i..][0] == rows[i] && rows[i..][1..] == rows[i + 1..];
      if IsHook(rows[i]) {
        var combined, nextIndex := CombineHookWithOutputs(rows, i);
        combinedHooksByTs := combinedHooksByTs[combined.ts := combined];
        NoHooksBetween(rows, i + 1, nextIndex, combinedHooksByTs);
        i := nextIndex;
      } else {
        i := i + 1;
      }
    }
    r := [];
    for j := 0 to |rows|
      invariant r + Rebuild(combinedHooksByTs, rows[j..]) == Rebuild(combinedHooksByTs, rows)
    {
      var row, rest := rows[j], rows[j + 1..];
      assert rows[j..][0] == row && rows[j..][1..] == rest;
      if IsHookOutput(row) {
      } else {
        var shown := if IsHook(row) && row.ts in combinedHooksByTs then combinedHooksByTs[row.ts] else row;
        assert r + ([shown] + Rebuild(combinedHooksByTs, rest)) == r + [shown] + Rebuild(combinedHooksByTs, rest);
        r := r + [shown];
      }
    }
    assert rows[|rows|..] == [] && Rebuild(combinedHooksByTs, []) == [];
  }

  method CombineHookSequences(rows: seq<Message>) returns (r: seq<Message>)
    ensures r == WithHooks(Deduped(rows))
  {
    var filtered := DedupeToolOrCommandMessagesByTimestamp(rows);
    r := CombineAllHooks(filtered);
  }

  // What the combination means

  /** With distinct hook timestamps: each hook with its own outputs, outputs gone, every other row as it is, in order. */
  function Direct(rows: seq<Message>): seq<Message> {
    if rows == [] then []
    else if IsHookOutput(rows[0]) then Direct(rows[1..])
    else [if IsHook(rows[0]) then WithOutputs(rows[0], rows[1..]) else rows[0]] + Direct(rows[1..])
  }

  ghost predicate DistinctHooks(rows: seq<Message>) {
    forall i, j :: 0 <= i < j < |rows| && IsHook(rows[i]) && IsHook(rows[j]) ==> rows[i].ts != rows[j].ts
  }

  ghost predicate IsHookTs(rows: seq<Message>, ts: int) {
    exists i :: 0 <= i < |rows| && IsHook(rows[i]) && rows[i].ts == ts
  }

  lemma {:induction false} HooksByTsEntry(rows: seq<Message>, combined: map<int, Message>, ts: int)
    ensures ts in HooksByTs(rows, combined) <==> ts in combined || IsHookTs(rows, ts)
    ensures ts in combined && !IsHookTs(rows, ts) ==> HooksByTs(rows, combined)[ts] == combined[ts]
    decreases |rows|
  {
    if rows != [] {
      var next := if IsHook(rows[0]) then combined[rows[0].ts := WithOutputs(rows[0], rows[1..])] else combined;
      HooksByTsEntry(rows[1..], next, ts);
      assert IsHookTs(rows, ts) <==> (IsHook(rows[0]) && rows[0].ts == ts) || IsHookTs(rows[1..], ts) by {
        if i :| 0 <= i < |rows| && IsHook(rows[i]) && rows[i].ts == ts {
          assert i > 0 ==> rows[1..][i - 1] == rows[i];
        }
      }
    }
  }

  lemma {:induction false} RebuildIsDirect(rows: seq<Message>, before: map<int, Message>, all: map<int, Message>)
    requires DistinctHooks(rows)
    requires all == HooksByTs(rows, before)
    ensures Rebuild(all, rows) == Direct(rows)
    decreases |rows|
  {
    if rows != [] {
      var rest := rows[1..];
      var next := if IsHook(rows[0]) then before[rows[0].ts := WithOutputs(rows[0], rest)] else before;
      RebuildIsDirect(rest, next, all);
      HooksByTsEntry(rest, next, rows[0].ts);
      assert forall i :: 0 <= i < |rest| ==> rest[i] == rows[i + 1];
    }
  }

  lemma WithHooksIsDirect(rows: seq<Message>)
    requires DistinctHooks(rows)
    ensures WithHooks(rows) == Direct(rows)
  {
    RebuildIsDirect(rows, map[], HooksByTs(rows, map[]));
  }

  /** Each hook with the outputs before the next hook; no output row, and no tool or command row a later one replaces. */
  function Collected(rows: seq<Message>): seq<Message> {
    if rows == [] then []
    else if IsHookOutput(rows[0]) || (IsToolOrCommand(rows[0]) && HasNewer(rows[1..], rows[0].ts)) then Collected(rows[1..])
    else [if IsHook(rows[0]) then WithOutputs(rows[0], rows[1..]) else rows[0]] + Collected(rows[1..])
  }

  /**
   What a hook shows: its text, and when output rows stand before the next hook, a marker line and each of their texts
   that is not empty on a line of its own, in order.
   */
  lemma HookShows(hook: Message, outputs: seq<Message>, others: seq<Message>)
    requires forall i :: 0 <= i < |outputs| ==> outputs[i].say == Some(HookOutput) || outputs[i].say == Some(HookOutputStream)
    requires others == [] || others[0].say == Some(Hook) || others[0].say == Some(HookStatus)
    ensures var text := if hook.text.Some? then hook.text.value else "";
      WithOutputs(hook, outputs + others)
      == hook.(text := Some(if outputs == [] then text else text + "\n" + "__HOOK_OUTPUT__" + TextLines(outputs)))
  {
    hide Outputs, Lines, TextLines;
    OutputTexts(outputs, others);
  }

  function TextLines(outputs: seq<Message>): string {
    if outputs == [] then ""
    else (if outputs[0].text.Some? && outputs[0].text.value != "" then "\n" + outputs[0].text.value else "") + TextLines(outputs[1..])
  }

  lemma {:induction false} OutputTexts(outputs: seq<Message>, others: seq<Message>)
    requires forall i :: 0 <= i < |outputs| ==> outputs[i].say == Some(HookOutput) || outputs[i].say == Some(HookOutputStream)
    requires others == [] || others[0].say == Some(Hook) || others[0].say == Some(HookStatus)
    ensures |Outputs(outputs + others)| == |outputs| && Lines(Outputs(outputs + others)) == TextLines(outputs)
  {
    if outputs == [] {
      assert outputs + others == others;
    } else {
      assert (outputs + others)[1..] == outputs[1..] + others;
      OutputTexts(outputs[1..], others);
      var rest := Outputs(outputs[1..] + others);
      assert ([outputs[0].TextOrEmpty()] + rest)[1..] == rest;
    }
  }

  /** Rows that are no hook and no output change nothing of what a hook shows. */
  lemma {:induction false} OtherRowsDoNotShow(a: seq<Message>, row: Message, b: seq<Message>)
    requires row.say != Some(Hook) && row.say != Some(HookStatus) && row.say != Some(HookOutput) && row.say != Some(HookOutputStream)
    ensures Outputs(a + [row] + b) == Outputs(a + b)
  {
    if a == [] {
      assert a + [row] + b == [row] + b && a + b == b && ([row] + b)[1..] == b;
    } else {
      assert (a + [row] + b)[1..] == a[1..] + [row] + b && (a + b)[1..] == a[1..] + b;
      OtherRowsDoNotShow(a[1..], row, b);
    }
  }

  /** Of the tool and command rows of a timestamp exactly the last stays, and every other row stays. */
  lemma {:induction false} NewestStays(rows: seq<Message>, keep: Message -> bool, ts: int)
    requires forall m {:trigger keep(m)} :: keep(m) <==>
      (m.ts == ts && (m.ask == Some(ToolAsk) || m.say == Some(Tool) || m.ask == Some(CommandAsk) || m.say == Some(Command)))
    ensures Filter(Deduped(rows), keep)
         == if Filter(rows, keep) == [] then [] else [Filter(rows, keep)[|Filter(rows, keep)| - 1]]
  {
    if rows != [] {
      var rest := rows[1..];
      NewestStays(rest, keep, ts);
      NewerIs(rest, keep, ts);
      if IsToolOrCommand(rows[0]) && HasNewer(rest, rows[0].ts) {
        if keep(rows[0]) {
          var kept := Filter(rest, keep);
          assert ([rows[0]] + kept)[|kept|] == kept[|kept| - 1];
        }
      } else {
        assert Deduped(rows)[1..] == Deduped(rest);
      }
    }
  }

  lemma {:induction false} NewerIs(rows: seq<Message>, keep: Message -> bool, ts: int)
    requires forall m {:trigger keep(m)} :: keep(m) <==> IsToolOrCommand(m) && m.ts == ts
    ensures Filter(rows, keep) == [] <==> !HasNewer(rows, ts)
  {
    if rows != [] {
      NewerIs(rows[1..], keep, ts);
      assert forall i :: 0 < i < |rows| ==> rows[1..][i - 1] == rows[i];
      if HasNewer(rows[1..], ts) {
        var i :| 0 <= i < |rows[1..]| && IsToolOrCommand(rows[1..][i]) && rows[1..][i].ts == ts;
        assert rows[i + 1] == rows[1..][i];
      }
    }
  }

  /** All other rows stay, in order. */
  lemma {:induction false} OthersStay(rows: seq<Message>, keep: Message -> bool)
    requires forall m {:trigger keep(m)} :: keep(m) ==>
      m.ask != Some(ToolAsk) && m.say != Some(Tool) && m.ask != Some(CommandAsk) && m.say != Some(Command)
    ensures Filter(Deduped(rows), keep) == Filter(rows, keep)
  {
    if rows != [] {
      OthersStay(rows[1..], keep);
      if !(IsToolOrCommand(rows[0]) && HasNewer(rows[1..], rows[0].ts)) {
        assert Deduped(rows)[1..] == Deduped(rows[1..]);
      }
    }
  }

  lemma KindsAreApart(rows: seq<Message>)
    requires WellFormed(rows) && rows != []
    ensures IsToolOrCommand(rows[0]) ==> !IsHook(rows[0]) && !IsHookOutput(rows[0])
    ensures WellFormed(rows[1..])
  {
    assert forall i :: 0 <= i < |rows| - 1 ==> rows[1..][i] == rows[i + 1];
  }

  lemma {:induction false} DedupedOutputs(rows: seq<Message>)
    requires WellFormed(rows)
    ensures Outputs(Deduped(rows)) == Outputs(rows)
  {
    hide WellFormed, IsToolOrCommand, HasNewer, IsHook, IsHookOutput;
    if rows != [] {
      KindsAreApart(rows);
      DedupedOutputs(rows[1..]);
    }
  }

  lemma {:induction false} DirectIsCollected(rows: seq<Message>)
    requires WellFormed(rows)
    ensures Direct(Deduped(rows)) == Collected(rows)
  {
    hide WellFormed, IsToolOrCommand, HasNewer, IsHook, IsHookOutput, Outputs;
    if rows != [] {
      KindsAreApart(rows);
      DedupedOutputs(rows[1..]);
      DirectIsCollected(rows[1..]);
    }
  }

  lemma {:induction false} DedupedRows(rows: seq<Message>)
    ensures forall m :: m in Deduped(rows) ==> m in rows
  {
    if rows != [] {
      DedupedRows(rows[1..]);
    }
  }

  lemma {:induction false} DedupedHooks(rows: seq<Message>)
    requires DistinctHooks(rows)
    ensures DistinctHooks(Deduped(rows))
  {
    hide IsHook, IsToolOrCommand, HasNewer;
    if rows != [] {
      assert forall i :: 0 <= i < |rows| - 1 ==> rows[1..][i] == rows[i + 1];
      DedupedHooks(rows[1..]);
      DedupedRows(rows[1..]);
      var rest := Deduped(rows[1..]);
      forall j | 0 <= j < |rest| && IsHook(rest[j]) && IsHook(rows[0])
        ensures rest[j].ts != rows[0].ts
      {
        assert rest[j] in rows[1..];
      }
    }
  }

  /** In a transcript with distinct hook timestamps each hook collects exactly the outputs before the next hook. */
  lemma HooksCollectOwnOutputs(rows: seq<Message>)
    requires WellFormed(rows) && DistinctHooks(rows)
    ensures WithHooks(Deduped(rows)) == Collected(rows)
  {
    hide WithHooks, Direct, Collected, Deduped, DistinctHooks;
    DedupedHooks(rows);
    WithHooksIsDirect(Deduped(rows));
    DirectIsCollected(rows);
  }

  // Idempotence

  /** No output left, every hook with a text, and hooks of one timestamp alike. */
  ghost predicate IsCombined(rows: seq<Message>) {
    && (forall i :: 0 <= i < |rows| ==> !IsHookOutput(rows[i]) && (IsHook(rows[i]) ==> rows[i].text.Some?))
    && (forall i, j :: 0 <= i < |rows| && 0 <= j < |rows| && IsHook(rows[i]) && IsHook(rows[j]) && rows[i].ts == rows[j].ts
          ==> rows[i] == rows[j])
  }

  ghost predicate OnlyHooks(combined: map<int, Message>) {
    forall ts :: ts in combined ==> IsHook(combined[ts]) && combined[ts].ts == ts && combined[ts].text.Some?
  }

  lemma {:induction false} HooksByTsOnlyHooks(rows: seq<Message>, combined: map<int, Message>)
    requires OnlyHooks(combined)
    ensures OnlyHooks(HooksByTs(rows, combined))
    decreases |rows|
  {
    if rows != [] {
      HooksByTsOnlyHooks(rows[1..], if IsHook(rows[0]) then combined[rows[0].ts := WithOutputs(rows[0], rows[1..])] else combined);
    }
  }

  lemma {:induction false} RebuildRows(combined: map<int, Message>, rows: seq<Message>)
    requires OnlyHooks(combined) && forall i :: 0 <= i < |rows| && IsHook(rows[i]) ==> rows[i].ts in combined
    ensures forall i :: 0 <= i < |Rebuild(combined, rows)| ==>
      var row := Rebuild(combined, rows)[i];
      !IsHookOutput(row) && (if IsHook(row) then row.ts in combined && row == combined[row.ts] else row in rows)
  {
    if rows != [] {
      RebuildRows(combined, rows[1..]);
    }
  }

  lemma WithHooksIsCombined(rows: seq<Message>)
    ensures IsCombined(WithHooks(rows))
  {
    var combined := HooksByTs(rows, map[]);
    HooksByTsOnlyHooks(rows, map[]);
    forall i | 0 <= i < |rows| && IsHook(rows[i])
      ensures rows[i].ts in combined
    {
      HooksByTsEntry(rows, map[], rows[i].ts);
      assert IsHookTs(rows, rows[i].ts);
    }
    RebuildRows(combined, rows);
  }

  lemma {:induction false} NoOutputs(rows: seq<Message>)
    requires forall i :: 0 <= i < |rows| ==> !IsHookOutput(rows[i])
    ensures Outputs(rows) == []
  {
    if rows != [] {
      NoOutputs(rows[1..]);
    }
  }

  lemma {:induction false} CombinedHooksByTs(rows: seq<Message>, combined: map<int, Message>, i: nat)
    requires IsCombined(rows) && i < |rows| && IsHook(rows[i])
    requires rows[i].ts in combined ==> combined[rows[i].ts] == rows[i]
    ensures rows[i].ts in HooksByTs(rows, combined) && HooksByTs(rows, combined)[rows[i].ts] == rows[i]
    decreases |rows|
  {
    var rest := rows[1..];
    NoOutputs(rest);
    var next := if IsHook(rows[0]) then combined[rows[0].ts := WithOutputs(rows[0], rest)] else combined;
    assert IsHook(rows[0]) ==> WithOutputs(rows[0], rest) == rows[0];
    if i > 0 {
      CombinedHooksByTs(rest, next, i - 1);
    } else if j :| 0 <= j < |rest| && IsHook(rest[j]) && rest[j].ts == rows[0].ts {
      assert rest[j] == rows[j + 1];
      CombinedHooksByTs(rest, next, j);
    } else {
      HooksByTsEntry(rest, next, rows[0].ts);
    }
  }

  lemma {:induction false} RebuildSame(combined: map<int, Message>, rows: seq<Message>)
    requires forall i :: 0 <= i < |rows| ==>
      !IsHookOutput(rows[i]) && (IsHook(rows[i]) ==> rows[i].ts in combined && combined[rows[i].ts] == rows[i])
    ensures Rebuild(combined, rows) == rows
  {
    if rows != [] {
      RebuildSame(combined, rows[1..]);
    }
  }

  lemma CombinedRowsStay(rows: seq<Message>)
    requires IsCombined(rows)
    ensures WithHooks(rows) == rows
  {
    forall i | 0 <= i < |rows| && IsHook(rows[i])
      ensures rows[i].ts in HooksByTs(rows, map[]) && HooksByTs(rows, map[])[rows[i].ts] == rows[i]
    {
      CombinedHooksByTs(rows, map[], i);
    }
    RebuildSame(HooksByTs(rows, map[]), rows);
  }

  ghost predicate DistinctTools(rows: seq<Message>) {
    forall i, j :: 0 <= i < j < |rows| && IsToolOrCommand(rows[i]) && IsToolOrCommand(rows[j]) ==> rows[i].ts != rows[j].ts
  }

  lemma NotNewer(rows: seq<Message>, ts: int, m: Message)
    requires !HasNewer(rows, ts) && m in rows && IsToolOrCommand(m)
    ensures m.ts != ts
  {
  }

  lemma {:induction false} DedupedIsDistinct(rows: seq<Message>)
    ensures DistinctTools(Deduped(rows)) && forall i :: 0 <= i < |Deduped(rows)| ==> Deduped(rows)[i] in rows
  {
    hide IsToolOrCommand, HasNewer;
    DedupedRows(rows);
    if rows != [] {
      var rest := Deduped(rows[1..]);
      DedupedIsDistinct(rows[1..]);
      if IsToolOrCommand(rows[0]) && !HasNewer(rows[1..], rows[0].ts) {
        forall j | 0 <= j < |rest| && IsToolOrCommand(rest[j])
          ensures rest[j].ts != rows[0].ts
        {
          NotNewer(rows[1..], rows[0].ts, rest[j]);
        }
      }
    }
  }

  lemma {:induction false} DistinctStay(rows: seq<Message>)
    requires DistinctTools(rows)
    ensures Deduped(rows) == rows
  {
    if rows != [] {
      DistinctStay(rows[1..]);
    }
  }

  /** Rebuilding keeps tool and command rows where they are, one per timestamp. */
  lemma {:induction false} RebuildKeepsDistinct(combined: map<int, Message>, rows: seq<Message>)
    requires DistinctTools(rows) && WellFormed(rows) && OnlyHooks(combined)
    requires forall ts :: ts in combined ==> !IsToolOrCommand(combined[ts])
    ensures DistinctTools(Rebuild(combined, rows))
    ensures forall i :: 0 <= i < |Rebuild(combined, rows)| && IsToolOrCommand(Rebuild(combined, rows)[i]) ==> Rebuild(combined, rows)[i] in rows
  {
    if rows != [] {
      RebuildKeepsDistinct(combined, rows[1..]);
    }
  }

  lemma {:induction false} HooksAreNoTools(rows: seq<Message>, combined: map<int, Message>)
    requires WellFormed(rows) && forall ts :: ts in combined ==> !IsToolOrCommand(combined[ts])
    ensures forall ts :: ts in HooksByTs(rows, combined) ==> !IsToolOrCommand(HooksByTs(rows, combined)[ts])
    decreases |rows|
  {
    if rows != [] {
      HooksAreNoTools(rows[1..], if IsHook(rows[0]) then combined[rows[0].ts := WithOutputs(rows[0], rows[1..])] else combined);
    }
  }

  /** Combining twice equals combining once, even where hooks share a timestamp. */
  lemma CombineIsIdempotent(rows: seq<Message>)
    requires WellFormed(rows)
    ensures var once := WithHooks(Deduped(rows)); WithHooks(Deduped(once)) == once
  {
    var filtered := Deduped(rows);
    DedupedIsDistinct(rows);
    assert WellFormed(filtered);
    HooksByTsOnlyHooks(filtered, map[]);
    HooksAreNoTools(filtered, map[]);
    RebuildKeepsDistinct(HooksByTs(filtered, map[]), filtered);
    DistinctStay(WithHooks(filtered));
    WithHooksIsCombined(filtered);
    CombinedRowsStay(WithHooks(filtered));
  }
}
