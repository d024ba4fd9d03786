/** The audio side of the Flask service: the text-to-speech input rule of
    `generate_audio`, the transcription answer of `transcribe_audio`, and the
    `/upload_audio` view that chains transcription, query and speech. */
module Speech {

  import opened Common
  import Assistant
  import ThreadStore

  /** The phrase spoken instead of missing or empty text. */
  const Fallback := "Am not clear about the context."

  /** The text `generate_audio` sends to the speech endpoint. */
  function TtsInput(text: Option<string>): (spoken: string)
    ensures spoken != ""
    ensures text.Some? && text.value != "" ==> spoken == text.value
    ensures text.None? || text.value == "" ==> spoken == Fallback
  {
    if text.None? || |text.value| == 0 then Fallback else text.value
  }

  /** Python's `str()` of an optional reply: None prints as "None". */
  function PyStr(reply: Option<string>): (s: string)
    ensures reply.Some? ==> s == reply.value
    ensures reply.None? ==> s == "None" && s != ""
  {
    match reply
    case None => "None"
    case Some(t) => t
  }

  /** The transcription endpoint's answer: HTTP status and `text` field. */
  datatype TranscriptionAnswer = TranscriptionAnswer(httpStatus: int, text: Option<string>)

  /** `transcribe_audio` after the HTTP call: a 200 answer gives its text,
      or a fixed notice when the field is absent; any other status gives None. */
  function Transcription(a: TranscriptionAnswer): (r: Option<string>)
    ensures a.httpStatus != 200 <==> r.None?
    ensures a.httpStatus == 200 && a.text.Some? ==> r == a.text
    ensures a.httpStatus == 200 && a.text.None? ==> r == Some("No transcription available.")
  {
    if a.httpStatus != 200 then None
    else Some(if a.text.Some? then a.text.value else "No transcription available.")
  }

  /** How `/upload_audio` ends: 400 without an audio part, 500 when the
      transcription is missing or empty, 500 from the error raised by a run
      that did not complete, waiting while the run is unresolved, 500 when
      speech synthesis fails, or 200 with the spoken text. */
  datatype AudioResult =
    | NoAudio
    | TranscriptionFailed
    | ReplyRaised
    | Waiting
    | SynthesisFailed
    | Spoken(output: string, input: string, speech: string)

  /** `/upload_audio`: transcribe, ask the assistant on the persisted thread,
      speak `str(reply)`. */
  function UploadAudio(slot: ThreadStore.ThreadFile, hasAudio: bool, heard: TranscriptionAnswer,
                       polls: seq<Assistant.Observation>, listing: Assistant.MessageList,
                       ttsStatus: int): (r: AudioResult)
    ensures !hasAudio <==> r.NoAudio?
    ensures (hasAudio && (Transcription(heard).None? || Transcription(heard).value == ""))
              ==> r.TranscriptionFailed?
    ensures r.ReplyRaised? <==>
              hasAudio && Transcription(heard).Some? && Transcription(heard).value != ""
              && Assistant.PollVerdict(polls) == Some(false)
    ensures hasAudio && Transcription(heard).Some? && Transcription(heard).value != "" ==>
              var x := Assistant.GetOpenAiReply(slot, Transcription(heard).value, polls, listing);
              && (x.outcome.Answer? && ttsStatus == 200 ==>
                    r == Spoken(PyStr(x.outcome.text), Transcription(heard).value, PyStr(x.outcome.text)))
              && (x.outcome.Answer? && ttsStatus != 200 ==> r == SynthesisFailed)
              && (x.outcome.StillPolling? ==> r == Waiting)
    ensures r.Spoken? ==> Transcription(heard) == Some(r.input) && r.input != ""
    ensures r.Spoken? ==>
              var x := Assistant.GetOpenAiReply(slot, r.input, polls, listing);
              x.outcome.Answer? && PyStr(x.outcome.text) == r.output
    // the fallback phrase is never substituted on this path: a None reply
    // reaches `generate_audio` as the non-empty text "None", and a present
    // reply is never empty
    ensures r.Spoken? ==> r.speech == r.output
  {
    if !hasAudio then NoAudio
    else
      var heardText := Transcription(heard);
      if heardText.None? || heardText.value == "" then TranscriptionFailed
      else
        var x := Assistant.GetOpenAiReply(slot, heardText.value, polls, listing);
        match x.outcome
        case Unbound => ReplyRaised
        case StillPolling => Waiting
        case Answer(reply) =>
          var output := PyStr(reply);
          if ttsStatus != 200 then SynthesisFailed
          else Spoken(output, heardText.value, TtsInput(Some(output)))
  }
}
