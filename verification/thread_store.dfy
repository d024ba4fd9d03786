/** The single persisted conversation slot: `thread.json`, holding one
    `thread_id` value (which may be JSON null). It is process-wide and
    last-writer-wins; nothing versions it. */
module ThreadStore {

  import opened Common

  /** The slot file: absent, or present with the stored `thread_id`
      (`None` when the file holds null or lacks the key). */
  datatype ThreadFile = NoFile | Saved(threadId: Option<string>)

  /** What the provider answered to a thread-creation request: the HTTP
      status and the `id` field of the body, if any. A transport exception
      leaves the slot alone exactly like a non-200 answer. */
  datatype CreateResponse = CreateResponse(httpStatus: int, id: Option<string>)

  /** `get_thread_id`: nothing stored reads as None. */
  function GetThreadId(f: ThreadFile): (id: Option<string>)
    ensures f.NoFile? ==> id == None
    ensures f.Saved? ==> id == f.threadId
  {
    match f
    case NoFile => None
    case Saved(t) => t
  }

  /** `update_thread_id`: overwrites the slot whatever it held, so reading
      it back gives what was written. */
  function UpdateThreadId(f: ThreadFile, id: Option<string>): (f': ThreadFile)
    ensures f'.Saved?
    ensures GetThreadId(f') == id
  {
    Saved(id)
  }

  /** A second write wins outright over the first. */
  lemma LastWriterWins(f: ThreadFile, first: Option<string>, second: Option<string>)
    ensures UpdateThreadId(UpdateThreadId(f, first), second) == UpdateThreadId(f, second)
  {
  }

  /** `create_thread`: the slot is written only when the provider answers
      200; the function then returns the new id, otherwise None. */
  function CreateThread(f: ThreadFile, resp: CreateResponse): (r: (ThreadFile, Option<string>))
    ensures resp.httpStatus == 200 ==> GetThreadId(r.0) == resp.id && r.1 == resp.id
    ensures resp.httpStatus != 200 ==> r.0 == f && r.1 == None
  {
    if resp.httpStatus == 200 then (UpdateThreadId(f, resp.id), resp.id)
    else (f, None)
  }

  /** A successful creation that hands out an id different from the stored
      one changes what the slot reads; this is the rotation every knowledge
      change relies on. */
  lemma CreateThreadRotates(f: ThreadFile, resp: CreateResponse)
    requires resp.httpStatus == 200 && resp.id != GetThreadId(f)
    ensures GetThreadId(CreateThread(f, resp).0) != GetThreadId(f)
  {
  }
}
