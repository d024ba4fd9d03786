# Board portal and knowledge-assistant service, modelled in Dafny

The repository has two parts. The first is a Flask service. It answers
questions through a hosted assistant: it adds a message to a persisted
thread, starts a run, polls it, and reads the reply back. It can also speak
the reply. It keeps a registry of uploaded knowledge files (`file_dataset.csv`)
and a single persisted thread id (`thread.json`).

The second part is a Streamlit board portal, in `app/main.py` and
`app/demo_ui.py`. It offers:

- document annotation: highlights and comments per file and section, with a
  summary table;
- paginated annotation;
- board voting with per-question statistics;
- a live meeting transcript with a summary and action items;
- research and chat prompts built from the uploaded documents and the
  transcript.

This project models the decision logic of both parts as pure Dafny functions
and four loop methods, and proves the properties the code promises. Every
provider HTTP call is replaced by the answer it would return. So are every
file read and write and every widget. The random draws become a function
argument.

Modules:

- `Common`: `Option`, first-match search (`First`, `FirstAt`), order-keeping `Filter` and a left `Fold`, with their lemmas.
- `Text`: Python's `split`, `join`, `strip`, ASCII `lower`, substring test, and decimal numerals.
- `ThreadStore`: the `thread.json` slot.
- `Assistant`: the run poll, reply extraction, and the `get_openai_reply` pipeline.
- `FileRegistry`: the record file, delete by id, and upload sequencing.
- `Speech`: the TTS input fallback and the `/upload_audio` chain.
- `Voting`: both vote tables and their statistics.
- `Annotation`: the highlight and comment maps of `main.py` and the summary table.
- `Paging`: `annotate_document` and the page loop of `demo_ui.py`.
- `Meeting`: the transcript, live summary, action items, document store and prompts.

## Model

| member | source | states |
|---|---|---|
| Assistant.CheckRunStatus | flask_app.py:294-312 | The loop stops at the first observation that is non-200, "completed", "failed" or "cancelled". It answers true exactly when that observation is a 200 "completed". Every other status, "expired" included, is polled again. With no terminal observation it is still polling after all checks. |
| Assistant.PollVerdictIgnoresLaterChecks | flask_app.py:294-312 | Once a terminal observation has been seen, whatever the provider would answer later changes neither the verdict nor the number of checks. |
| Assistant.NonTerminalIsSkipped | flask_app.py:305-309 | A 200 check with a non-terminal status, such as "expired", does not affect the verdict. |
| Assistant.ExtractReply | flask_app.py:329-349 | A non-200 listing gives None. A listing without an assistant message gives the fixed "❌ No response received…" text. Otherwise the first text part with a `text` key of the first assistant message gives the reply, and None if it has no such part. |
| Assistant.OnlyFirstAssistantCounts | flask_app.py:332-343 | Later assistant messages are never consulted, even when the first one has no text. |
| Assistant.GetOpenAiReply | flask_app.py:115-141 | An empty query returns None with no provider call. Otherwise it adds the message and starts the run on the persisted thread id, which may be None, and never creates a thread. A failed run raises the unbound-variable error. A completed run returns the extracted reply, or None when that is empty. |
| Assistant.FailedRunNeverAnswers | flask_app.py:130-139 | If the first terminal check is not a success, no answer is returned, whatever the messages hold. |
| ThreadStore.GetThreadId | flask_app.py:108-113 | No file gives None. Otherwise it gives the stored `thread_id`, which may be absent. |
| ThreadStore.UpdateThreadId | flask_app.py:393-396 | The slot is saved and reads back as the written id, whatever it held before. |
| ThreadStore.LastWriterWins | flask_app.py:393-396 | The slot holds a single id: a second write replaces the first. |
| ThreadStore.CreateThread | flask_app.py:420-431 | A 200 answer writes the new id and returns it. Any other status leaves the slot untouched and returns None. |
| ThreadStore.CreateThreadRotates | flask_app.py:424-428 | A successful creation with a different id changes what the slot reads. |
| FileRegistry.LoadUploadedFiles | flask_app.py:60-74 | A missing file, a file without the columns, or one with no data rows gives []. Otherwise it gives every row's name and id, in file order. |
| FileRegistry.SaveToCsv | flask_app.py:587-595 | Corrected save. A missing file gets the header and the row. An existing file gets the row appended, with nothing else changed and no duplicate check. |
| FileRegistry.SaveToCsvAsWritten | flask_app.py:587-593 | As written: on a missing file the call raises and leaves an empty, headerless file. On an existing file it appends like the corrected save. |
| FileRegistry.SavedRecordIsListed | flask_app.py:587-593 | After a corrected save the listing is the old listing plus the new record at the end. |
| FileRegistry.SaveDoesNotDeduplicate | flask_app.py:587-593 | Saving the same record twice lists it twice. |
| FileRegistry.FreshDeploymentNeverLists | flask_app.py:587-593 | With the save as written, a deployment that starts without the file lists nothing, whatever is saved afterwards. |
| FileRegistry.KeepOtherNames | flask_app.py:564 | Keeps exactly the rows whose name differs. |
| FileRegistry.UpdateCsvAfterDelete | flask_app.py:561-565 | Succeeds exactly on a readable file. The listing afterwards is the old listing with every record of that name dropped, in the stored order and with duplicates of other names kept. |
| FileRegistry.ProjectFilter | flask_app.py:561-565 | Dropping rows by name and reading the file back equals filtering the old listing by name. |
| FileRegistry.DeleteFile | flask_app.py:534-558 | An empty id gives 400. An id not listed gives 404 and changes nothing. A listed id that the provider fails to delete gives 500 and changes nothing. Success (200 exactly when the id is listed and the provider deleted it) removes every record named like the first record with that id, keeping the other records in order with their duplicates, rewrites the file with its header so it stays readable, then recreates the thread. |
| FileRegistry.ProcessUpload | flask_app.py:480-530 | No file part, no files, an empty file name and a rejected upload each get their own reply and write nothing. An accepted upload on a missing record file raises inside the save: the reply is None, an empty headerless file is left, nothing is linked and the thread is kept. On an existing file the record is written before linking, so it stays when linking fails, and the thread is recreated only after a successful link. |
| FileRegistry.ProcessUploadCorrected | flask_app.py:480-530 | The same handler with the corrected save. No file part, no files, an empty file name and a rejected upload get the same replies as before and write nothing. An accepted upload on a missing file writes the header and the record, then links. |
| FileRegistry.UploadAgreesOnExistingFile | flask_app.py:480-530 | When the record file exists, the handler as written and the corrected handler give the same result. |
| FileRegistry.FreshUploadIsLost | flask_app.py:508-530 | On a fresh deployment an accepted upload is answered with None. It leaves nothing listed and the thread unchanged. |
| FileRegistry.OnlyFirstFileProcessed | flask_app.py:486-527 | The files after the first one in a request do not affect the outcome. |
| FileRegistry.UploadThenDelete | flask_app.py:480-558 | On a readable record file, an accepted upload is listed. Deleting it by its fresh id succeeds and leaves no record of that name. |
| FileRegistry.UploadThenDeleteCorrected | flask_app.py:480-558 | With the corrected save the same round trip also holds when the record file is missing. |
| Speech.TtsInput | flask_app.py:148-151 | None or empty text becomes "Am not clear about the context.". Any other text is spoken as is. |
| Speech.PyStr | flask_app.py:101 | `str(reply)`: a None reply becomes the non-empty text "None". |
| Speech.Transcription | flask_app.py:198-203 | A 200 answer gives its text, or "No transcription available." when the field is absent. Any other status gives None. |
| Speech.UploadAudio | flask_app.py:80-105 | No audio gives 400. An empty or failed transcription gives 500. A failed run raises. An unresolved run keeps waiting. An answer with a failed synthesis gives 500. An answer with a successful synthesis speaks `str()` of the reply, which is never replaced by the fallback phrase. |
| Voting.CountIsMultiplicity | app/main.py:268-271 | The count of a vote is its multiplicity among the votes. |
| Voting.TallyOf | app/main.py:268-271 | The Yes, No and Abstain counts are the multiplicities of those votes. |
| Voting.TallyCoversAllVotes | app/main.py:268-271 | When every vote is one of the three choices, the counts add up to the number of votes. |
| Voting.Motion | app/main.py:272 | "Motion Passed" exactly when Yes strictly exceeds No. |
| Voting.TieFails | app/main.py:272 | A tie fails the motion. |
| Voting.MemberNamesDistinct | app/main.py:253-257 | Row labels never collide, so the table has one row per member. |
| Voting.SimulateVotingWithUser | app/main.py:248-259 | num_simulated + 1 rows. The "You" row takes the user's vote, or "Abstain" when none was given. Member i votes the i-th draw. Every row covers every question. |
| Voting.ColumnOfFullTable | app/main.py:258-266 | A question every row answers has one cell per row, in row order. |
| Voting.CalculateDashboardStats | app/main.py:261-279 | One entry per column, with counts equal to the multiplicities in that column and the motion rule applied. |
| Voting.DashboardCountsEveryRow | app/main.py:248-279 | On the simulated table, each question's three counts add up to the number of rows. |
| Voting.SimulateRandomVotes | app/demo_ui.py:103-117 | Exactly 10 entries per question, question-major. Entry k is member k mod 10 + 1 voting draw (k div 10, k mod 10) on question k div 10. |
| Voting.CalculateVoteStatistics | app/demo_ui.py:119-138 | An empty list raises. Otherwise there is one entry per question that received a vote, with counts equal to the multiplicities of that question's votes and the motion rule applied. |
| Annotation.DropSection | app/main.py:145-150 | After removal the section has no highlight, and every other section keeps its highlights in order. |
| Annotation.AddSection | app/main.py:151-158 | Appending to an unhighlighted section makes it that section's only highlight and leaves the other sections alone. |
| Annotation.ToggleHighlight | app/main.py:144-159 | The section's highlighted state flips. Removal drops all of its highlights. Addition appends exactly one at the end. Other files are unchanged. The highlights of all other sections keep their order across sections. |
| Annotation.ToggleTwiceRestores | app/main.py:144-159 | Highlighting and then un-highlighting a section restores the file's entries. |
| Annotation.SaveComment | app/main.py:164-176 | Saving creates the file's entry list when it is missing and leaves every other file's comments unchanged. The comments of other sections keep their order, and a non-blank comment is saved last. |
| Annotation.ReplaceSectionOrder | app/main.py:166-174 | Filtering out the section keeps the other comments in order, and the new comment is appended after them. |
| Annotation.SaveCommentEffect | app/main.py:164-176 | Afterwards the section holds the stripped comment, or nothing when it is blank, so at most one comment. Other sections of the file keep their comments, in order across sections, and a non-blank comment is the last entry. Together these fix the whole list. |
| Annotation.MergeStep | app/main.py:190-213 | One comment of the loop takes the described table of the earlier comments to the described table including it. |
| Annotation.MergeMatchesDescription | app/main.py:190-213 | The comment loop builds the described table. |
| Annotation.AnnotationSummary | app/main.py:179-217 | There is no table exactly when the file has neither highlights nor comments. |
| Annotation.SummaryIsDescribed | app/main.py:179-217 | No table exactly when the file has neither highlights nor comments. Otherwise: the highlight rows in order, the first row of each section carrying the last comment on that section; then one row per comment on an unhighlighted section, quoting paragraph section − 1 of the file's uploaded text, or "N/A" past the end. |
| Paging.NewHighlightsMeaning | app/demo_ui.py:65-79 | A page appends one highlight per clicked paragraph, numbered start + index + 1, in increasing section order. |
| Paging.NewCommentsMeaning | app/demo_ui.py:81-91 | A page appends one comment per non-empty comment box, with its raw text, numbered start + index + 1, in increasing section order. |
| Paging.Extend | app/demo_ui.py:74-75 | The file's key is created only when something is appended. Existing entries and other files are kept. |
| Paging.NewHighlightsAppend | app/demo_ui.py:65-79 | Annotating two consecutive ranges appends what annotating their union appends. |
| Paging.NewCommentsAppend | app/demo_ui.py:81-91 | Annotating two consecutive ranges appends what annotating their union appends. |
| Paging.AnnotateDocument | app/demo_ui.py:55-100 | Returns min(end, n) when the range is not empty, else start. Highlights and comments are only appended, with no de-duplication. |
| Paging.NextPage | app/demo_ui.py:231-233 | One more page appends exactly what that page appends. |
| Paging.AnnotateAllPages | app/demo_ui.py:226-237 | The loop makes ceil(n / 10) passes for n paragraphs. It appends exactly what one pass over all paragraphs would. |
| Meeting.TranscribeAudio | app/main.py:296-298 | The old transcript is a prefix. The speech follows it, then a line break. |
| Meeting.LiveSummary | app/main.py:300-302 | At most 203 characters, ending in "...", preceded by the transcript's first characters: all of it when it is at most 200 long. |
| Meeting.LiveSummaryStable | app/main.py:300-302 | Once the transcript reaches 200 characters, the summary no longer changes. |
| Meeting.ExtractActionItems | app/main.py:304-307 | An item is exactly a stripped line that contains "action" in any case. |
| Meeting.NoActionInEmpty | app/main.py:304-307 | An empty transcript has no action items. |
| Meeting.ActionItemsOfLine | app/main.py:304-307 | A single line gives its stripped self when it mentions "action" in any case, and nothing otherwise. |
| Meeting.ActionItemsOfJoin | app/main.py:304-307 | The items of two texts joined by a line break are the first text's items followed by the second's, so order and repetitions are kept. |
| Meeting.ActionItemsOfAppend | app/main.py:296-307 | Appending speech adds exactly the speech's items, after the earlier ones. |
| Meeting.AddToTranscript | app/main.py:443-448 | Empty speech changes nothing. Otherwise the speech is appended and the old transcript is kept as a prefix. |
| Meeting.StartIsConsistent | app/main.py:30-35 | The initial empty transcript, summary and item list agree with each other. |
| Meeting.AddKeepsConsistent | app/main.py:443-448 | Summary and items keep describing the transcript, and the items only grow by the new speech's items. |
| Meeting.PutDocument | app/main.py:353-355 | Re-uploading a name replaces its text in place. A new name goes at the end. Other documents are unchanged. Names stay distinct. |
| Meeting.ResearchPrompt | app/main.py:233-234 | The prompt starts with the "Based on the following documents" line and ends with the "Answer the following question" line and the query. With no documents nothing stands between them; with one document its text stands there alone. |
| Meeting.ResearchPromptAppend | app/main.py:233-234 | One more document inserts "\n---\n" and its text just before the question part, leaving the rest of the prompt unchanged. |
| Meeting.UploadExtendsResearchPrompt | app/main.py:353-355 | Uploading under a new name extends the next research prompt that way. |
| Meeting.ResearchPromptCarriesDocuments | app/main.py:233-234 | Every document's text occurs in the prompt, and the prompt ends with the query. |
| Meeting.ChatPrompt | app/demo_ui.py:179-180 | "Question: q" alone when the transcript is empty. Otherwise the transcript block comes first. The prompt always ends with "Question: q". |
| Meeting.ChatPromptDeterminesQuery | app/demo_ui.py:179-180 | For a given transcript, different questions give different prompts. |
| Meeting.MainChatPrompt | app/main.py:390-394 | The prompt starts with the document header. It ends with the "Answer the following question" line and the whole chat prompt, and so with "Question: q". With no documents nothing stands between them. |
| Meeting.MainChatPromptCarriesContext | app/main.py:390-394 | The `main.py` chat prompt, wrapped again by `research_agent`, carries the transcript, every document and the question at its end. |

## Left out

- HTTP transport, file system, JSON/CSV encoding and pandas are not modelled. Provider answers are parameters. The record file is a header flag plus rows. The thread file is a single slot.
- Transport exceptions are not modelled: a `requests` error, malformed JSON, a `KeyError` on a missing field, or the `{"error": …}` dict that `create_thread` returns on an exception.
- `time.sleep`, timestamps and generated file names are not modelled. The `modified` column is a parameter.
- Pandas type inference is not modelled: numeric-looking ids, empty cells read as NaN (which `delete_file` treats as truthy), and a headerless file whose first data row happens to name the columns.
- Concurrency between Flask requests on the shared thread slot and record file is not modelled. The source has no synchronisation.
- Streamlit rendering, buttons, reruns and the "Next Page" button are not modelled. The button has no effect on the loop. Widget states are inputs.
- `create_assistant`, `check_file_status`, `get_message_from_thread`, `create_message`, `run_assistant`, `save_record_to_csv`, `extract_text_from_file`, `record_audio`, `speak_text` and the OpenAI chat calls of `research_agent`/`ai_chat` are left out. They are provider or device calls with no decision logic beyond the ones modelled. Their results are parameters.
- `app/flask_app.py` (process launching and a proxy) and `app/test_audio.py` (UI and library parsing) are not part of this model.
- Text.Lower: only ASCII letters are lowered. Python's `str.lower` also lowers other Unicode letters.
- Assistant.GetOpenAiReply: the error raised by a failed run is an outcome, not a Python exception. When the observations run out before a terminal status, the outcome is "still polling".
- Voting.CalculateVoteStatistics: statistics are a map. The sorted order of `groupby` keys is not modelled.
- Paging.AnnotateDocument: start and end are natural numbers. The page loop never passes negative indices.

The model follows these behaviours of the code:

- an "expired" run keeps being polled;
- `get_openai_reply` never creates a thread;
- the record is written before the file is linked, and an upload on a missing record file fails inside the save and is answered with None;
- saves do not check for duplicates;
- `delete_file` looks a record up by id but removes every row with that record's name.

## Findings

| source | as written | input that shows it | evidently intended | confidence | as-written member | corrected member |
|---|---|---|---|---|---|---|
| flask_app.py:587-593 | When the file is missing, the header is written through `writer`, which is not the local `csv_writer`. That name is undefined, or the closed writer of the voice log, so the call raises after `open(..., "a")` has created an empty file. The row is never written. | The first upload on a deployment without `file_dataset.csv`. Every later save appends to the headerless file, so the listing stays [] forever. | Write the header through `csv_writer`, then the row. | not executed | FileRegistry.SaveToCsvAsWritten, FileRegistry.FreshDeploymentNeverLists, FileRegistry.FreshUploadIsLost | FileRegistry.SaveToCsv, FileRegistry.SavedRecordIsListed, FileRegistry.UploadThenDeleteCorrected |
