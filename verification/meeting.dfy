/** Live-meeting bookkeeping and the prompts of the meeting portal: the
    transcript is an append-only log of speech lines, the live summary is
    its first 200 characters, the action items are its lines mentioning
    "action", and the research and chat prompts wrap a question in the
    uploaded documents and the transcript. */
module Meeting {

  import opened Common
  import Text

  // ------------------------------------------------------------ transcript

  /** `transcribe_audio`: the speech is added as one more line. */
  function TranscribeAudio(transcript: string, speech: string): (t: string)
    ensures |t| == |transcript| + |speech| + 1
    ensures t[..|transcript|] == transcript
    ensures t[|transcript|..|t| - 1] == speech && t[|t| - 1] == '\n'
  {
    transcript + speech + "\n"
  }

  const SummaryLength := 200

  /** `generate_live_summary`: the first 200 characters and an ellipsis. */
  function LiveSummary(transcript: string): (s: string)
    ensures 3 <= |s| <= SummaryLength + 3
    ensures s[|s| - 3..] == "..."
    ensures |transcript| <= SummaryLength ==> s == transcript + "..."
    ensures |transcript| >= SummaryLength ==> |s| == SummaryLength + 3
    ensures s[..|s| - 3] == transcript[..|s| - 3]
  {
    var n := if |transcript| <= SummaryLength then |transcript| else SummaryLength;
    transcript[..n] + "..."
  }

  /** Once the transcript reaches 200 characters the summary stops changing. */
  lemma LiveSummaryStable(transcript: string, more: string)
    requires |transcript| >= SummaryLength
    ensures LiveSummary(transcript + more) == LiveSummary(transcript)
  {
    assert (transcript + more)[..SummaryLength] == transcript[..SummaryLength];
  }

  /** A line that mentions "action" in any ASCII case. */
  predicate IsActionLine(line: string) {
    Text.Contains(Text.Lower(line), "action")
  }

  function StripAll(lines: seq<string>): (r: seq<string>)
    ensures |r| == |lines|
    ensures forall i :: 0 <= i < |lines| ==> r[i] == Text.Strip(lines[i])
  {
    seq(|lines|, i requires 0 <= i < |lines| => Text.Strip(lines[i]))
  }

  /** The stripped action lines are exactly the stripped lines that
      mention "action". */
  lemma ActionItemsOfLines(lines: seq<string>)
    ensures forall x :: x in StripAll(Filter(lines, IsActionLine)) <==>
              exists i :: 0 <= i < |lines| && IsActionLine(lines[i]) && x == Text.Strip(lines[i])
  {
    var kept := Filter(lines, IsActionLine);
    assert forall x :: x in StripAll(kept) ==> exists j :: 0 <= j < |kept| && x == Text.Strip(kept[j]);
    forall i | 0 <= i < |lines| && IsActionLine(lines[i]) ensures Text.Strip(lines[i]) in StripAll(kept) {
      assert lines[i] in kept;
      var j :| 0 <= j < |kept| && kept[j] == lines[i];
      assert StripAll(kept)[j] == Text.Strip(lines[i]);
    }
  }

  /** `extract_action_items`: the stripped lines that mention "action", in
      transcript order. */
  function ExtractActionItems(transcript: string): (items: seq<string>)
    ensures |items| <= |Text.Split(transcript, '\n')|
    ensures forall x :: x in items <==>
              exists i :: 0 <= i < |Text.Split(transcript, '\n')|
                          && IsActionLine(Text.Split(transcript, '\n')[i])
                          && x == Text.Strip(Text.Split(transcript, '\n')[i])
  {
    ActionItemsOfLines(Text.Split(transcript, '\n'));
    StripAll(Filter(Text.Split(transcript, '\n'), IsActionLine))
  }

  lemma EmptyLineIsNoAction()
    ensures !IsActionLine("")
  {
    assert forall i :: !Text.OccursAt(Text.Lower(""), "action", i);
  }

  lemma NoActionInEmpty()
    ensures ExtractActionItems("") == []
  {
    EmptyLineIsNoAction();
    assert Text.Split("", '\n') == [""];
    FilterKeepsNone([""], IsActionLine);
  }

  /** A single line yields its stripped self when it mentions "action",
      and nothing otherwise. */
  lemma ActionItemsOfLine(line: string)
    requires '\n' !in line
    ensures ExtractActionItems(line) == if IsActionLine(line) then [Text.Strip(line)] else []
  {
    Text.SplitWithoutSeparator(line, '\n');
    if IsActionLine(line) {
      assert Filter([line], IsActionLine) == [line];
    } else {
      FilterKeepsNone([line], IsActionLine);
    }
  }

  /** The items of two pieces of text joined by a line break are those of
      the first piece followed by those of the second, so items keep the
      transcript's order and every action line counts once per occurrence. */
  lemma ActionItemsOfJoin(a: string, b: string)
    ensures ExtractActionItems(a + "\n" + b) == ExtractActionItems(a) + ExtractActionItems(b)
  {
    Text.SplitConcat(a, '\n', b);
    var la := Text.Split(a, '\n');
    var lb := Text.Split(b, '\n');
    FilterAppend(la, lb, IsActionLine);
    var fa := Filter(la, IsActionLine);
    var fb := Filter(lb, IsActionLine);
    assert StripAll(fa + fb) == StripAll(fa) + StripAll(fb);
  }

  /** A line appended to a transcript that is empty or ends with a line
      break adds exactly the action items of the new speech, after the old
      ones. */
  lemma ActionItemsOfAppend(transcript: string, speech: string)
    requires transcript == "" || transcript[|transcript| - 1] == '\n'
    ensures ExtractActionItems(TranscribeAudio(transcript, speech))
            == ExtractActionItems(transcript) + ExtractActionItems(speech)
  {
    var t := TranscribeAudio(transcript, speech);
    EmptyLineIsNoAction();
    FilterKeepsNone([""], IsActionLine);
    assert t == speech + ['\n'] + "" || transcript != "";
    Text.SplitConcat(speech, '\n', "");
    assert Text.Split("", '\n') == [""];
    var sp := Text.Split(speech, '\n');
    if transcript == "" {
      assert t == speech + ['\n'] + "";
      assert Text.Split(t, '\n') == sp + [""];
      FilterAppend(sp, [""], IsActionLine);
      NoActionInEmpty();
      assert Filter(sp + [""], IsActionLine) == Filter(sp, IsActionLine) + [];
    } else {
      var p := transcript[..|transcript| - 1];
      assert transcript == p + ['\n'] + "";
      Text.SplitConcat(p, '\n', "");
      var pp := Text.Split(p, '\n');
      assert Text.Split(transcript, '\n') == pp + [""];
      assert t == p + ['\n'] + (speech + ['\n'] + "");
      Text.SplitConcat(p, '\n', speech + ['\n'] + "");
      assert Text.Split(t, '\n') == pp + (sp + [""]);
      FilterAppend(pp, [""], IsActionLine);
      FilterAppend(pp, sp + [""], IsActionLine);
      FilterAppend(sp, [""], IsActionLine);
      var fp := Filter(pp, IsActionLine);
      var fs := Filter(sp, IsActionLine);
      assert Filter(Text.Split(transcript, '\n'), IsActionLine) == fp + [];
      assert Filter(Text.Split(t, '\n'), IsActionLine) == fp + (fs + []);
      assert fp + [] == fp && fs + [] == fs;
      assert StripAll(fp + fs) == StripAll(fp) + StripAll(fs);
    }
  }

  /** The live-meeting panel: transcript, summary and action items. */
  datatype LiveMeeting = LiveMeeting(transcript: string, summary: string, actionItems: seq<string>)

  const Start := LiveMeeting("", "", [])

  /** The summary and items always describe the transcript, which is empty
      or ends with a line break. */
  predicate Consistent(m: LiveMeeting) {
    && (m.transcript == "" || m.transcript[|m.transcript| - 1] == '\n')
    && (m.transcript == "" ==> m.summary == "")
    && (m.transcript != "" ==> m.summary == LiveSummary(m.transcript))
    && m.actionItems == ExtractActionItems(m.transcript)
  }

  /** "Add to Transcript": empty speech changes nothing; otherwise the
      speech is appended and summary and action items are recomputed. */
  function AddToTranscript(m: LiveMeeting, speech: string): (m': LiveMeeting)
    ensures speech == "" ==> m' == m
    ensures speech != "" ==> m'.transcript == TranscribeAudio(m.transcript, speech)
    ensures m'.transcript[..|m.transcript|] == m.transcript
  {
    if speech == "" then m
    else
      var t := TranscribeAudio(m.transcript, speech);
      LiveMeeting(t, LiveSummary(t), ExtractActionItems(t))
  }

  lemma StartIsConsistent()
    ensures Consistent(Start)
  {
    NoActionInEmpty();
  }

  /** Every step keeps the panel consistent and only appends action items:
      those of the new speech. */
  lemma AddKeepsConsistent(m: LiveMeeting, speech: string)
    requires Consistent(m)
    ensures Consistent(AddToTranscript(m, speech))
    ensures AddToTranscript(m, speech).actionItems
            == m.actionItems + if speech == "" then [] else ExtractActionItems(speech)
  {
    if speech == "" {
      assert m.actionItems + [] == m.actionItems;
    } else {
      ActionItemsOfAppend(m.transcript, speech);
    }
  }

  // --------------------------------------------------------------- prompts

  /** An uploaded document: its file name and extracted text. */
  datatype Doc = Doc(name: string, text: string)

  function NameIs(name: string): Doc -> bool {
    (d: Doc) => d.name == name
  }

  /** No two documents share a name. */
  predicate DistinctNames(docs: seq<Doc>) {
    forall i, j :: 0 <= i < j < |docs| ==> docs[i].name != docs[j].name
  }

  /** The text stored under a name. */
  function Lookup(docs: seq<Doc>, name: string): Option<string> {
    var k := First(docs, NameIs(name));
    if k < |docs| then Some(docs[k].text) else None
  }

  /** Storing an upload in the insertion-ordered `document_context`: a
      known name keeps its place and gets the new text, a new name goes at
      the end. */
  function PutDocument(docs: seq<Doc>, name: string, text: string): (docs': seq<Doc>)
    ensures Lookup(docs', name) == Some(text)
    ensures forall other :: other != name ==> Lookup(docs', other) == Lookup(docs, other)
    ensures Lookup(docs, name).Some? ==> |docs'| == |docs|
    ensures Lookup(docs, name).None? ==> |docs'| == |docs| + 1 && docs'[..|docs|] == docs
    ensures forall i :: 0 <= i < |docs| ==> docs'[i].name == docs[i].name
    ensures DistinctNames(docs) ==> DistinctNames(docs')
  {
    var k := First(docs, NameIs(name));
    if k < |docs| then
      var docs' := docs[k := Doc(name, text)];
      FirstIsUnique(docs', NameIs(name), k);
      forall other | other != name ensures Lookup(docs', other) == Lookup(docs, other) {
        var j := First(docs, NameIs(other));
        if j < |docs| {
          assert j != k;
          FirstIsUnique(docs', NameIs(other), j);
        } else {
          assert forall i :: 0 <= i < |docs'| ==> !NameIs(other)(docs'[i]);
        }
      }
      docs'
    else
      var docs' := docs + [Doc(name, text)];
      FirstIsUnique(docs', NameIs(name), |docs|);
      forall other | other != name ensures Lookup(docs', other) == Lookup(docs, other) {
        var j := First(docs, NameIs(other));
        if j < |docs| {
          FirstIsUnique(docs', NameIs(other), j);
        } else {
          assert forall i :: 0 <= i < |docs'| ==> !NameIs(other)(docs'[i]);
        }
      }
      docs'
  }

  /** `document_context.values()`, in insertion order. */
  function Texts(docs: seq<Doc>): (texts: seq<string>)
    ensures |texts| == |docs|
    ensures forall i :: 0 <= i < |docs| ==> texts[i] == docs[i].text
  {
    seq(|docs|, i requires 0 <= i < |docs| => docs[i].text)
  }

  const ResearchHead := "Based on the following documents:\n"
  const ResearchMiddle := "\n\nAnswer the following question:\n"

  /** The prompt of `research_agent` (`main.py`): the document texts joined
      by a "---" line, then the question. */
  function ResearchPrompt(docs: seq<Doc>, query: string): (prompt: string)
    ensures |prompt| >= |ResearchHead| + |ResearchMiddle + query|
    ensures prompt[..|ResearchHead|] == ResearchHead
    ensures prompt[|prompt| - |ResearchMiddle + query|..] == ResearchMiddle + query
    ensures |docs| == 0 ==> prompt == ResearchHead + ResearchMiddle + query
    ensures |docs| == 1 ==> prompt == ResearchHead + docs[0].text + ResearchMiddle + query
  {
    var context := if |docs| == 0 then "" else Text.Join(Texts(docs), "\n---\n");
    assert |docs| == 1 ==> context == Texts(docs)[0] == docs[0].text;
    var tail := ResearchMiddle + query;
    var prompt := ResearchHead + context + tail;
    assert prompt[..|ResearchHead|] == ResearchHead;
    assert prompt[|prompt| - |tail|..] == tail;
    prompt
  }

  /** One more document puts its text into the prompt after the earlier
      texts, behind one more "---" line, just before the question part. */
  lemma ResearchPromptAppend(docs: seq<Doc>, d: Doc, query: string)
    requires |docs| > 0
    ensures var p := ResearchPrompt(docs, query);
            var cut := |p| - |ResearchMiddle + query|;
            ResearchPrompt(docs + [d], query) == p[..cut] + "\n---\n" + d.text + p[cut..]
  {
    var joined := Text.Join(Texts(docs), "\n---\n");
    assert Texts(docs + [d]) == Texts(docs) + [d.text];
    Text.JoinAppend(Texts(docs), "\n---\n", d.text);
    var p := ResearchPrompt(docs, query);
    assert p == (ResearchHead + joined) + (ResearchMiddle + query);
    var cut := |p| - |ResearchMiddle + query|;
    assert p[..cut] == ResearchHead + joined;
    assert p[cut..] == ResearchMiddle + query;
  }

  /** Uploading a document under a new name (`main.py` stores it at the end
      of `document_context`) extends the research prompt by its text. */
  lemma UploadExtendsResearchPrompt(docs: seq<Doc>, name: string, text: string, query: string)
    requires |docs| > 0 && Lookup(docs, name).None?
    ensures var p := ResearchPrompt(docs, query);
            var cut := |p| - |ResearchMiddle + query|;
            ResearchPrompt(PutDocument(docs, name, text), query) == p[..cut] + "\n---\n" + text + p[cut..]
  {
    assert PutDocument(docs, name, text) == docs + [Doc(name, text)];
    ResearchPromptAppend(docs, Doc(name, text), query);
  }

  /** Every uploaded document's text appears in the research prompt, and
      the prompt ends with the question. */
  lemma ResearchPromptCarriesDocuments(docs: seq<Doc>, query: string, k: nat)
    requires k < |docs|
    ensures Text.Contains(ResearchPrompt(docs, query), docs[k].text)
    ensures var p := ResearchPrompt(docs, query); p[|p| - |query|..] == query
  {
    var joined := Text.Join(Texts(docs), "\n---\n");
    Text.JoinHasEachPart(Texts(docs), "\n---\n", k);
    var i :| Text.OccursAt(joined, docs[k].text, i);
    Text.OccursInside(ResearchHead, joined, ResearchMiddle + query, docs[k].text, i);
    assert ResearchHead + joined + (ResearchMiddle + query) == ResearchPrompt(docs, query);
  }

  const TranscriptHead := "Meeting Transcript (so far):\n"

  /** The chat question with the transcript as context when there is one
      (`ai_chat` in `demo_ui.py`, the "Ask AI" button in `main.py`). */
  function ChatPrompt(transcript: string, query: string): (prompt: string)
    ensures |prompt| == (if transcript == "" then 0 else |TranscriptHead| + |transcript| + 2) + 10 + |query|
    ensures transcript == "" ==> prompt == "Question: " + query
    ensures transcript != "" ==>
              prompt[..|TranscriptHead| + |transcript| + 2] == TranscriptHead + transcript + "\n\n"
    ensures prompt[|prompt| - |query| - 10..] == "Question: " + query
  {
    var context := if transcript != "" then TranscriptHead + transcript + "\n\n" else "";
    context + "Question: " + query
  }

  /** The question can be read back off the end of a chat prompt. */
  lemma ChatPromptDeterminesQuery(transcript: string, q1: string, q2: string)
    requires ChatPrompt(transcript, q1) == ChatPrompt(transcript, q2)
    ensures q1 == q2
  {
    var p := ChatPrompt(transcript, q1);
    assert p[|p| - |q1|..] == q1;
    assert p[|p| - |q2|..] == q2;
  }

  /** In `main.py` the chat prompt is then handed to `research_agent`, so the
      model sees it wrapped in the document prompt. */
  function MainChatPrompt(docs: seq<Doc>, transcript: string, query: string): (prompt: string)
    ensures |prompt| >= |ResearchHead| + |ResearchMiddle + ChatPrompt(transcript, query)|
    ensures prompt[..|ResearchHead|] == ResearchHead
    ensures prompt[|prompt| - |ResearchMiddle + ChatPrompt(transcript, query)|..]
            == ResearchMiddle + ChatPrompt(transcript, query)
    ensures |docs| == 0 ==> prompt == ResearchHead + ResearchMiddle + ChatPrompt(transcript, query)
    ensures prompt[|prompt| - |query| - 10..] == "Question: " + query
  {
    ResearchPrompt(docs, ChatPrompt(transcript, query))
  }

  /** The wrapped chat prompt still carries the transcript, every document
      and the question. */
  lemma MainChatPromptCarriesContext(docs: seq<Doc>, transcript: string, query: string)
    ensures transcript != "" ==> Text.Contains(MainChatPrompt(docs, transcript, query), transcript)
    ensures forall k :: 0 <= k < |docs| ==> Text.Contains(MainChatPrompt(docs, transcript, query), docs[k].text)
    ensures var p := MainChatPrompt(docs, transcript, query); p[|p| - |query| - 10..] == "Question: " + query
  {
    var chat := ChatPrompt(transcript, query);
    var prompt := MainChatPrompt(docs, transcript, query);
    var head := ResearchHead + Text.Join(Texts(docs), "\n---\n") + ResearchMiddle;
    assert prompt == head + chat;
    if transcript != "" {
      Text.OccursInside(TranscriptHead, transcript, "\n\n" + "Question: " + query, transcript, 0);
      assert TranscriptHead + transcript + ("\n\n" + "Question: " + query) == chat;
      Text.OccursInside(head, chat, "", transcript, |TranscriptHead|);
      assert head + chat + "" == prompt;
    }
    forall k | 0 <= k < |docs| ensures Text.Contains(prompt, docs[k].text) {
      ResearchPromptCarriesDocuments(docs, chat, k);
    }
    assert prompt[|prompt| - |query| - 10..] == chat[|chat| - |query| - 10..];
  }
}
