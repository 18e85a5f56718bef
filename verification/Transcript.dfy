/** The rows of a task's transcript, with the fields its projections read. */
module Transcript {
  import opened Options

  datatype Ask = ApiReqFailed | Followup | CompletionResultAsk | CommandAsk | CommandOutputAsk | ToolAsk | OtherAsk(name: string)

  datatype Say =
    | ErrorRetry | ApiReqStarted | ApiReqFinished | ApiReqRetried
    | CompletionResult | Reasoning | TextSay | Tool | UseMcpServer | UseSubagents | BrowserActionLaunch | BrowserAction
    | Hook | HookStatus | HookOutput | HookOutputStream | Command | CommandOutput
    | OtherSay(name: string)

  /** The facts of a command row, absent on other rows and on rows that predate them. */
  datatype CommandFacts = CommandFacts(command: string, workingDirectory: Option<string>, output: string, asksApproval: bool)

  /** `partial` is whether the field is set to true. */
  datatype Message = Message(isAsk: bool, ask: Option<Ask>, say: Option<Say>, text: Option<string>, ts: int, partial: bool,
                             reasoning: Option<string>, conversationHistoryIndex: Option<int>, commandTs: Option<int>,
                             command: Option<CommandFacts>)
  {
    /** `text || ""`. */
    function TextOrEmpty(): string {
      if text.Some? then text.value else ""
    }

    /** `text || "{}"`, the JSON text of a row. */
    function JsonText(): string {
      if TextOrEmpty() == "" then "{}" else text.value
    }

    predicate IsRequest() {
      !isAsk && say == Some(ApiReqStarted)
    }

    predicate IsFinished() {
      !isAsk && say == Some(ApiReqFinished)
    }
  }

  /** An ask row says nothing, and a say row asks nothing. */
  ghost predicate WellFormed(rows: seq<Message>) {
    forall i :: 0 <= i < |rows| ==> if rows[i].isAsk then rows[i].say == None else rows[i].ask == None
  }

  /** An absent text and an empty one are read as the empty object. */
  lemma JsonTextIs(m: Message)
    ensures m.JsonText() == if m.text.Some? && m.text.value != "" then m.text.value else "{}"
  {
  }

  function Filter(rows: seq<Message>, keep: Message -> bool): (r: seq<Message>)
    ensures forall i :: 0 <= i < |r| ==> keep(r[i])
  {
    if rows == [] then []
    else if keep(rows[0]) then [rows[0]] + Filter(rows[1..], keep)
    else Filter(rows[1..], keep)
  }

  lemma {:induction false} FilterKeepsAll(rows: seq<Message>, keep: Message -> bool)
    requires forall i :: 0 <= i < |rows| ==> keep(rows[i])
    ensures Filter(rows, keep) == rows
  {
    if rows != [] {
      FilterKeepsAll(rows[1..], keep);
    }
  }
}
