/** The assistant run protocol of the Flask service: poll a run until a
    terminal observation, pull the reply out of the latest messages, and the
    query pipeline that strings these together on the persisted thread. */
module Assistant {

  import opened Common
  import ThreadStore

  // ---------------------------------------------------------------- polling

  /** One status check of a run: the HTTP status and, on 200, the run's
      `status` field. */
  datatype Observation = Observation(httpStatus: int, runStatus: string)

  /** An observation that ends the poll loop: a failed check, or a run
      status of "completed", "failed" or "cancelled". Every other status,
      "expired" included, keeps the loop going. */
  predicate IsTerminal(o: Observation) {
    o.httpStatus != 200
    || o.runStatus == "completed" || o.runStatus == "failed" || o.runStatus == "cancelled"
  }

  /** Only a 200 "completed" check counts as success. */
  predicate Succeeded(o: Observation) {
    o.httpStatus == 200 && o.runStatus == "completed"
  }

  /** The verdict of `check_run_status` as a reference definition: the
      outcome of the first terminal observation, or None while none has
      been seen (the source would keep polling). */
  function PollVerdict(obs: seq<Observation>): Option<bool> {
    var k := First(obs, IsTerminal);
    if k < |obs| then Some(Succeeded(obs[k])) else None
  }

  /** How many status checks `check_run_status` makes on these observations. */
  function ChecksMade(obs: seq<Observation>): (n: nat)
    ensures n <= |obs|
  {
    var k := First(obs, IsTerminal);
    if k < |obs| then k + 1 else |obs|
  }

  /** `check_run_status`, consuming the observations one check at a time. */
  method CheckRunStatus(obs: seq<Observation>) returns (verdict: Option<bool>, checks: nat)
    ensures checks <= |obs|
    ensures verdict.Some? <==> exists k :: 0 <= k < |obs| && IsTerminal(obs[k])
    ensures verdict.Some? ==> 1 <= checks && FirstAt(obs, IsTerminal, checks - 1)
    ensures verdict.Some? ==> (verdict.value <==> Succeeded(obs[checks - 1]))
    ensures verdict.None? ==> checks == |obs|
    ensures verdict == PollVerdict(obs) && checks == ChecksMade(obs)
  {
    var i := 0;
    while i < |obs|
      invariant 0 <= i <= |obs|
      invariant forall j :: 0 <= j < i ==> !IsTerminal(obs[j])
    {
      var o := obs[i];
      if o.httpStatus == 200 {
        if o.runStatus == "completed" {
          FirstIsUnique(obs, IsTerminal, i);
          return Some(true), i + 1;
        } else if o.runStatus == "failed" || o.runStatus == "cancelled" {
          FirstIsUnique(obs, IsTerminal, i);
          return Some(false), i + 1;
        }
        // any other status: sleep two seconds and check again
      } else {
        FirstIsUnique(obs, IsTerminal, i);
        return Some(false), i + 1;
      }
      i := i + 1;
    }
    return None, |obs|;
  }

  /** The verdict depends only on the observations up to the first terminal
      one: whatever the provider would have answered afterwards is never read. */
  lemma PollVerdictIgnoresLaterChecks(obs: seq<Observation>, more: seq<Observation>)
    requires PollVerdict(obs).Some?
    ensures PollVerdict(obs + more) == PollVerdict(obs)
    ensures ChecksMade(obs + more) == ChecksMade(obs)
  {
    FirstOfExtension(obs, more, IsTerminal);
    assert (obs + more)[First(obs, IsTerminal)] == obs[First(obs, IsTerminal)];
  }

  /** A 200 check reporting "expired" (or any other non-terminal status) is
      skipped: the verdict is the one of the checks that follow it. */
  lemma NonTerminalIsSkipped(o: Observation, rest: seq<Observation>)
    requires !IsTerminal(o)
    ensures PollVerdict([o] + rest) == PollVerdict(rest)
  {
    assert ([o] + rest)[1..] == rest;
  }

  // ------------------------------------------------------- reply extraction

  /** One content part of a message: its `type`, and the `value` under its
      `text` key when the part has that key. */
  datatype ContentPart = ContentPart(kind: string, text: Option<string>)

  datatype Message = Message(role: string, content: seq<ContentPart>)

  /** The answer to "list the latest three messages, newest first". */
  datatype MessageList = MessageList(httpStatus: int, data: seq<Message>)

  const NoAssistantReply := "❌ No response received from the assistant."

  predicate IsAssistant(m: Message) {
    m.role == "assistant"
  }

  predicate IsTextPart(p: ContentPart) {
    p.kind == "text" && p.text.Some?
  }

  /** `get_all_messages_from_thread`, after the HTTP call: only the first
      assistant message is inspected, and its first text part supplies the
      reply. */
  function ExtractReply(resp: MessageList): (r: Option<string>)
    ensures resp.httpStatus != 200 ==> r == None
    ensures (resp.httpStatus == 200 && forall i :: 0 <= i < |resp.data| ==> !IsAssistant(resp.data[i]))
              ==> r == Some(NoAssistantReply)
    ensures forall k, j ::
              resp.httpStatus == 200 && FirstAt(resp.data, IsAssistant, k)
              && FirstAt(resp.data[k].content, IsTextPart, j)
              ==> r == resp.data[k].content[j].text
    ensures forall k ::
              resp.httpStatus == 200 && FirstAt(resp.data, IsAssistant, k)
              && (forall j :: 0 <= j < |resp.data[k].content| ==> !IsTextPart(resp.data[k].content[j]))
              ==> r == None
  {
    if resp.httpStatus != 200 then None
    else
      var k := First(resp.data, IsAssistant);
      if k == |resp.data| then Some(NoAssistantReply)
      else
        var parts := resp.data[k].content;
        var j := First(parts, IsTextPart);
        assert forall k' :: FirstAt(resp.data, IsAssistant, k') ==> k' == k by {
          forall k' | FirstAt(resp.data, IsAssistant, k') { FirstIsUnique(resp.data, IsAssistant, k'); }
        }
        assert forall j' :: FirstAt(parts, IsTextPart, j') ==> j' == j by {
          forall j' | FirstAt(parts, IsTextPart, j') { FirstIsUnique(parts, IsTextPart, j'); }
        }
        if j == |parts| then None else parts[j].text
  }

  /** An assistant message earlier in the list hides every later one, even
      when the earlier one carries no text. */
  lemma OnlyFirstAssistantCounts(resp: MessageList, k: nat, later: Message)
    requires resp.httpStatus == 200 && FirstAt(resp.data, IsAssistant, k)
    ensures ExtractReply(MessageList(200, resp.data + [later])) == ExtractReply(resp)
  {
    FirstOfExtension(resp.data, [later], IsAssistant);
    assert (resp.data + [later])[k] == resp.data[k];
  }

  // ----------------------------------------------------------- the pipeline

  /** The provider calls the service makes, named by the thread they target. */
  datatype ProviderCall =
    | AddMessage(thread: Option<string>, content: string)
    | StartRun(thread: Option<string>)
    | FetchRun(thread: Option<string>)
    | ListMessages(thread: Option<string>)
    | NewThread(seed: string)

  /** How `get_openai_reply` ends: with a value (None or a reply), with the
      unbound-local error raised when the run did not complete, or still
      polling when the observations ran out before a terminal one. */
  datatype ReplyOutcome = Answer(text: Option<string>) | Unbound | StillPolling

  datatype Exchange = Exchange(outcome: ReplyOutcome, calls: seq<ProviderCall>)

  /** `get_openai_reply` over the persisted slot, the poll observations and
      the message listing the provider would return. */
  function GetOpenAiReply(slot: ThreadStore.ThreadFile, query: string,
                          polls: seq<Observation>, listing: MessageList): (x: Exchange)
    ensures query == "" ==> x == Exchange(Answer(None), [])
    ensures x.outcome.Unbound? <==> query != "" && PollVerdict(polls) == Some(false)
    ensures x.outcome.StillPolling? <==> query != "" && PollVerdict(polls) == None
    ensures x.outcome.Answer? && x.outcome.text.Some? ==>
              x.outcome.text == ExtractReply(listing) && x.outcome.text.value != ""
    ensures (query != "" && PollVerdict(polls) == Some(true)
              && ExtractReply(listing).Some? && ExtractReply(listing).value != "")
              ==> x.outcome == Answer(ExtractReply(listing))
    ensures forall i :: 0 <= i < |x.calls| ==>
              !x.calls[i].NewThread? && x.calls[i].thread == ThreadStore.GetThreadId(slot)
    ensures query != "" ==>
              |x.calls| >= 2 && x.calls[0] == AddMessage(ThreadStore.GetThreadId(slot), query)
              && x.calls[1] == StartRun(ThreadStore.GetThreadId(slot))
              && forall i :: 2 <= i < |x.calls| ==> !x.calls[i].AddMessage? && !x.calls[i].StartRun?
  {
    var thread := ThreadStore.GetThreadId(slot);
    if query == "" then Exchange(Answer(None), [])
    else
      var head := [AddMessage(thread, query), StartRun(thread)]
                  + seq(ChecksMade(polls), _ => FetchRun(thread));
      match PollVerdict(polls)
      case None => Exchange(StillPolling, head)
      case Some(false) => Exchange(Unbound, head)
      case Some(true) =>
        var reply := ExtractReply(listing);
        var answer := if reply == Some("") then None else reply;
        Exchange(Answer(answer), head + [ListMessages(thread)])
  }

  /** A run that fails or is cancelled never yields an answer, whatever the
      message listing holds. */
  lemma FailedRunNeverAnswers(slot: ThreadStore.ThreadFile, query: string,
                              polls: seq<Observation>, listing: MessageList, k: nat)
    requires query != "" && FirstAt(polls, IsTerminal, k) && !Succeeded(polls[k])
    ensures !GetOpenAiReply(slot, query, polls, listing).outcome.Answer?
  {
    FirstIsUnique(polls, IsTerminal, k);
  }
}
