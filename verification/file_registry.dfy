/** The knowledge-file registry of the Flask service: the `file_dataset.csv`
    record list, the id lookup of `delete_file`, and the order in which
    `process_upload` and `delete_file` write records and rotate the thread.
    Provider answers (upload, link, delete, thread creation) are parameters. */
module FileRegistry {

  import opened Common
  import ThreadStore

  /** One data line of the CSV: `file_name, file_id, modified`. */
  datatype FileRow = FileRow(name: string, id: string, modified: string)

  /** What the listing returns for a row: its name and id. */
  datatype FileRecord = FileRecord(fileName: string, fileId: string)

  /** The CSV file: missing, or present. `hasHeader` says whether its first
      line is the `file_name, file_id, modified` header; without it the
      columns the listing needs are absent. `rows` are the data lines. */
  datatype FileStore = Missing | Table(hasHeader: bool, rows: seq<FileRow>)

  /** The service's persisted state: the record file and the thread slot. */
  datatype Backend = Backend(files: FileStore, thread: ThreadStore.ThreadFile)

  /** A store the listing can read columns from. */
  predicate Readable(s: FileStore) {
    s.Table? && s.hasHeader
  }

  function Project(rows: seq<FileRow>): seq<FileRecord> {
    seq(|rows|, i requires 0 <= i < |rows| => FileRecord(rows[i].name, rows[i].id))
  }

  /** `load_uploaded_files`: [] for a missing file, a file without the two
      columns, or a file with no data lines; otherwise every row's
      `(file_name, file_id)` in file order. */
  function LoadUploadedFiles(s: FileStore): (r: seq<FileRecord>)
    ensures !Readable(s) ==> r == []
    ensures Readable(s) ==> |r| == |s.rows|
    ensures forall i :: 0 <= i < |r| ==> r[i].fileName == s.rows[i].name && r[i].fileId == s.rows[i].id
  {
    if Readable(s) then Project(s.rows) else []
  }

  /** `save_to_csv` as the authors evidently meant it: a missing file gets
      the header first; the row is then appended, with no check for an
      existing record of the same name or id. */
  function SaveToCsv(s: FileStore, name: string, id: string, now: string): (s': FileStore)
    ensures s'.Table? && |s'.rows| >= 1 && s'.rows[|s'.rows| - 1] == FileRow(name, id, now)
    ensures s.Missing? ==> s' == Table(true, [FileRow(name, id, now)])
    ensures s.Table? ==> s'.hasHeader == s.hasHeader && |s'.rows| == |s.rows| + 1 && s'.rows[..|s.rows|] == s.rows
  {
    match s
    case Missing => Table(true, [FileRow(name, id, now)])
    case Table(h, rows) => Table(h, rows + [FileRow(name, id, now)])
  }

  /** `save_to_csv` as written: on a missing file the header is written
      through `writer`, a name that is undefined or bound to the voice log's
      closed file, so the call raises after `open(..., "a")` has created an
      empty file. The second component says whether it raised. */
  function SaveToCsvAsWritten(s: FileStore, name: string, id: string, now: string): (r: (FileStore, bool))
    ensures r.1 <==> s.Missing?
    ensures r.1 ==> r.0 == Table(false, [])
    ensures !r.1 ==> r.0 == SaveToCsv(s, name, id, now)
  {
    match s
    case Missing => (Table(false, []), true)
    case Table(h, rows) => (Table(h, rows + [FileRow(name, id, now)]), false)
  }

  /** Saving on a readable or missing store lists exactly one more record,
      at the end. */
  lemma SavedRecordIsListed(s: FileStore, name: string, id: string, now: string)
    requires s.Missing? || Readable(s)
    ensures LoadUploadedFiles(SaveToCsv(s, name, id, now))
            == LoadUploadedFiles(s) + [FileRecord(name, id)]
  {
    var s' := SaveToCsv(s, name, id, now);
    assert LoadUploadedFiles(s') == Project(s'.rows);
  }

  /** Saves never de-duplicate: saving the same record twice lists it twice. */
  lemma SaveDoesNotDeduplicate(s: FileStore, name: string, id: string, now: string)
    requires s.Missing? || Readable(s)
    ensures var s2 := SaveToCsv(SaveToCsv(s, name, id, now), name, id, now);
            LoadUploadedFiles(s2) == LoadUploadedFiles(s) + [FileRecord(name, id), FileRecord(name, id)]
  {
    SavedRecordIsListed(s, name, id, now);
    SavedRecordIsListed(SaveToCsv(s, name, id, now), name, id, now);
  }

  /** Applies the as-written save for each `(name, id, modified)` row in turn. */
  function SaveAllAsWritten(s: FileStore, rows: seq<FileRow>): FileStore
    decreases |rows|
  {
    if |rows| == 0 then s
    else SaveAllAsWritten(SaveToCsvAsWritten(s, rows[0].name, rows[0].id, rows[0].modified).0, rows[1..])
  }

  /** The defect: on a fresh deployment the first save raises and leaves a
      headerless file, and from then on no save ever shows up in the
      listing. */
  lemma {:induction false} FreshDeploymentNeverLists(s: FileStore, rows: seq<FileRow>)
    requires s.Missing? || (s.Table? && !s.hasHeader)
    ensures LoadUploadedFiles(SaveAllAsWritten(s, rows)) == []
    decreases |rows|
  {
    if |rows| > 0 {
      FreshDeploymentNeverLists(SaveToCsvAsWritten(s, rows[0].name, rows[0].id, rows[0].modified).0, rows[1..]);
    }
  }

  function OtherName(name: string): FileRow -> bool {
    (r: FileRow) => r.name != name
  }

  /** The rows whose name differs from `name`, in their original order. */
  function KeepOtherNames(rows: seq<FileRow>, name: string): (kept: seq<FileRow>)
    ensures |kept| <= |rows|
    ensures forall r :: r in kept <==> r in rows && r.name != name
  {
    Filter(rows, OtherName(name))
  }

  function OtherRecordName(name: string): FileRecord -> bool {
    (rec: FileRecord) => rec.fileName != name
  }

  /** Reading back a row put in front. */
  lemma ProjectCons(x: FileRow, ys: seq<FileRow>)
    ensures Project([x] + ys) == [FileRecord(x.name, x.id)] + Project(ys)
  {
  }

  /** Dropping rows by name and then reading them back is the same as
      filtering the listing by name: order and duplicates are kept. */
  lemma {:induction false} ProjectFilter(rows: seq<FileRow>, name: string)
    ensures Project(Filter(rows, OtherName(name))) == Filter(Project(rows), OtherRecordName(name))
    decreases |rows|
  {
    if |rows| > 0 {
      var keep, keepRec := OtherName(name), OtherRecordName(name);
      var listed := Project(rows);
      ProjectFilter(rows[1..], name);
      assert listed[1..] == Project(rows[1..]);
      assert listed[0] == FileRecord(rows[0].name, rows[0].id);
      if rows[0].name != name {
        var tail := Filter(rows[1..], keep);
        assert Filter(rows, keep) == [rows[0]] + tail;
        ProjectCons(rows[0], tail);
        assert Filter(listed, keepRec) == [listed[0]] + Filter(listed[1..], keepRec);
      } else {
        assert Filter(rows, keep) == Filter(rows[1..], keep);
        assert Filter(listed, keepRec) == Filter(listed[1..], keepRec);
      }
    }
  }

  /** The records read back after dropping a name are the old records
      with other names. */
  lemma ProjectKeepOtherNames(rows: seq<FileRow>, name: string)
    ensures forall rec :: rec in Project(KeepOtherNames(rows, name))
                          <==> rec in Project(rows) && rec.fileName != name
  {
    var kept := KeepOtherNames(rows, name);
    forall rec ensures rec in Project(kept) <==> rec in Project(rows) && rec.fileName != name {
      if rec in Project(kept) {
        var i :| 0 <= i < |kept| && Project(kept)[i] == rec;
        assert kept[i] in rows;
        var j :| 0 <= j < |rows| && rows[j] == kept[i];
        assert Project(rows)[j] == rec;
      }
      if rec in Project(rows) && rec.fileName != name {
        var j :| 0 <= j < |rows| && Project(rows)[j] == rec;
        assert rows[j] in kept;
        var i :| 0 <= i < |kept| && kept[i] == rows[j];
        assert Project(kept)[i] == rec;
      }
    }
  }

  /** `update_csv_after_delete`: drops every row carrying the name and
      rewrites the file; it raises (None) when the file is missing or has no
      `file_name` column. */
  function UpdateCsvAfterDelete(s: FileStore, name: string): (r: Option<FileStore>)
    ensures r.Some? <==> Readable(s)
    ensures r.Some? ==> Readable(r.value)
    ensures r.Some? ==> forall rec :: rec in LoadUploadedFiles(r.value)
                          <==> rec in LoadUploadedFiles(s) && rec.fileName != name
    ensures r.Some? ==> LoadUploadedFiles(r.value) == Filter(LoadUploadedFiles(s), OtherRecordName(name))
  {
    if Readable(s) then
      var s' := Table(true, KeepOtherNames(s.rows, name));
      ProjectKeepOtherNames(s.rows, name);
      ProjectFilter(s.rows, name);
      Some(s')
    else None
  }

  /** The id lookup of `delete_file`. */
  function HasId(id: string): FileRecord -> bool {
    (rec: FileRecord) => rec.fileId == id
  }

  /** How `delete_file` answers: the HTTP status of the reply and the state
      after it. */
  datatype DeleteResult = DeleteResult(backend: Backend, status: int)

  /** `delete_file`: an empty id is 400; an id not in the listing is 404; a
      provider failure is 500 with nothing changed; on success every row
      named like the first record with that id is removed and then the
      thread is recreated with the seed "Hi". */
  function DeleteFile(b: Backend, fileId: string, providerDeleted: bool,
                      created: ThreadStore.CreateResponse): (r: DeleteResult)
    ensures fileId == "" ==> r == DeleteResult(b, 400)
    ensures (fileId != "" && forall i :: 0 <= i < |LoadUploadedFiles(b.files)| ==>
               LoadUploadedFiles(b.files)[i].fileId != fileId)
            ==> r == DeleteResult(b, 404)
    ensures (fileId != "" && !providerDeleted && exists i :: 0 <= i < |LoadUploadedFiles(b.files)|
                                                   && LoadUploadedFiles(b.files)[i].fileId == fileId)
            ==> r == DeleteResult(b, 500)
    ensures r.status != 200 ==> r.backend == b
    ensures r.status == 200 ==> Readable(r.backend.files)
    ensures r.status == 200 <==>
              (fileId != "" && providerDeleted
               && exists i :: 0 <= i < |LoadUploadedFiles(b.files)| && LoadUploadedFiles(b.files)[i].fileId == fileId)
    ensures forall k :: r.status == 200 && FirstAt(LoadUploadedFiles(b.files), HasId(fileId), k) ==>
              var gone := LoadUploadedFiles(b.files)[k].fileName;
              && r.backend.thread == ThreadStore.CreateThread(b.thread, created).0
              && (forall rec :: rec in LoadUploadedFiles(r.backend.files)
                    <==> rec in LoadUploadedFiles(b.files) && rec.fileName != gone)
              && LoadUploadedFiles(r.backend.files) == Filter(LoadUploadedFiles(b.files), OtherRecordName(gone))
  {
    if fileId == "" then DeleteResult(b, 400)
    else
      var records := LoadUploadedFiles(b.files);
      var k := First(records, HasId(fileId));
      if k == |records| then DeleteResult(b, 404)
      else if !providerDeleted then DeleteResult(b, 500)
      else
        assert forall k' :: FirstAt(records, HasId(fileId), k') ==> k' == k by {
          forall k' | FirstAt(records, HasId(fileId), k') { FirstIsUnique(records, HasId(fileId), k'); }
        }
        var files' := UpdateCsvAfterDelete(b.files, records[k].fileName).value;
        DeleteResult(Backend(files', ThreadStore.CreateThread(b.thread, created).0), 200)
  }

  /** What `process_upload` sends back: the error replies, the two replies
      after an upload was accepted, or no reply at all (the view returns None
      when the file list is empty). */
  datatype UploadReply = NoFilePart | NoSelectedFile | UploadRejected | Linked | LinkFailed | NoReply

  /** The multipart request: without a `file` part, or with the file names. */
  datatype UploadRequest = WithoutFilePart | Files(names: seq<string>)

  /** The provider's answer to the upload: HTTP status and assigned id. */
  datatype UploadAnswer = UploadAnswer(httpStatus: int, fileId: string)

  datatype UploadResult = UploadResult(backend: Backend, reply: UploadReply)

  /** `process_upload`: the loop returns while handling the first file.
      A rejected upload writes nothing. An accepted one is saved with the
      save as written: on a missing record file that raises, the handler
      answers None, and the empty headerless file stays behind with nothing
      linked and the thread kept. On an existing file the record is written
      before linking, so it stays even when linking fails, and the thread is
      recreated only after a successful link. */
  function ProcessUpload(b: Backend, req: UploadRequest, upload: UploadAnswer, linkStatus: int,
                         created: ThreadStore.CreateResponse, now: string): (r: UploadResult)
    ensures req.WithoutFilePart? ==> r == UploadResult(b, NoFilePart)
    ensures req.Files? && |req.names| == 0 ==> r == UploadResult(b, NoReply)
    ensures req.Files? && |req.names| > 0 && req.names[0] == "" ==> r == UploadResult(b, NoSelectedFile)
    ensures req.Files? && |req.names| > 0 && req.names[0] != "" && upload.httpStatus != 200
            ==> r == UploadResult(b, UploadRejected)
    ensures (req.Files? && |req.names| > 0 && req.names[0] != "" && upload.httpStatus == 200
             && b.files.Missing?)
            ==> r == UploadResult(Backend(Table(false, []), b.thread), NoReply)
    ensures (r.reply.Linked? || r.reply.LinkFailed?) <==>
              req.Files? && |req.names| > 0 && req.names[0] != "" && upload.httpStatus == 200
              && b.files.Table?
    ensures r.reply.Linked? || r.reply.LinkFailed? ==>
              r.backend.files == SaveToCsv(b.files, req.names[0], upload.fileId, now)
    ensures r.reply.Linked? <==> (r.reply.Linked? || r.reply.LinkFailed?) && linkStatus == 200
    ensures r.reply.Linked? ==> r.backend.thread == ThreadStore.CreateThread(b.thread, created).0
    ensures !r.reply.Linked? ==> r.backend.thread == b.thread
  {
    match req
    case WithoutFilePart => UploadResult(b, NoFilePart)
    case Files(names) =>
      if |names| == 0 then UploadResult(b, NoReply)
      else if names[0] == "" then UploadResult(b, NoSelectedFile)
      else if upload.httpStatus != 200 then UploadResult(b, UploadRejected)
      else
        var (files', raised) := SaveToCsvAsWritten(b.files, names[0], upload.fileId, now);
        if raised then UploadResult(Backend(files', b.thread), NoReply)
        else if linkStatus == 200 then
          UploadResult(Backend(files', ThreadStore.CreateThread(b.thread, created).0), Linked)
        else
          UploadResult(Backend(files', b.thread), LinkFailed)
  }

  /** `process_upload` with the corrected save: a missing record file gets
      the header and the record, and the upload goes on to linking. */
  function ProcessUploadCorrected(b: Backend, req: UploadRequest, upload: UploadAnswer, linkStatus: int,
                                  created: ThreadStore.CreateResponse, now: string): (r: UploadResult)
    ensures req.WithoutFilePart? ==> r == UploadResult(b, NoFilePart)
    ensures req.Files? && |req.names| == 0 ==> r == UploadResult(b, NoReply)
    ensures req.Files? && |req.names| > 0 && req.names[0] == "" ==> r == UploadResult(b, NoSelectedFile)
    ensures req.Files? && |req.names| > 0 && req.names[0] != "" && upload.httpStatus != 200
            ==> r == UploadResult(b, UploadRejected)
    ensures (r.reply.Linked? || r.reply.LinkFailed?) <==>
              req.Files? && |req.names| > 0 && req.names[0] != "" && upload.httpStatus == 200
    ensures !(r.reply.Linked? || r.reply.LinkFailed?) ==> r.backend == b
    ensures r.reply.Linked? || r.reply.LinkFailed? ==>
              r.backend.files == SaveToCsv(b.files, req.names[0], upload.fileId, now)
    ensures r.reply.Linked? <==> (r.reply.Linked? || r.reply.LinkFailed?) && linkStatus == 200
    ensures r.reply.Linked? ==> r.backend.thread == ThreadStore.CreateThread(b.thread, created).0
    ensures !r.reply.Linked? ==> r.backend.thread == b.thread
  {
    match req
    case WithoutFilePart => UploadResult(b, NoFilePart)
    case Files(names) =>
      if |names| == 0 then UploadResult(b, NoReply)
      else if names[0] == "" then UploadResult(b, NoSelectedFile)
      else if upload.httpStatus != 200 then UploadResult(b, UploadRejected)
      else
        var files' := SaveToCsv(b.files, names[0], upload.fileId, now);
        if linkStatus == 200 then
          UploadResult(Backend(files', ThreadStore.CreateThread(b.thread, created).0), Linked)
        else
          UploadResult(Backend(files', b.thread), LinkFailed)
  }

  /** The defect only shows on a missing record file: with a file present,
      the upload as written and the corrected one agree. */
  lemma UploadAgreesOnExistingFile(b: Backend, req: UploadRequest, upload: UploadAnswer, linkStatus: int,
                                   created: ThreadStore.CreateResponse, now: string)
    requires b.files.Table?
    ensures ProcessUpload(b, req, upload, linkStatus, created, now)
            == ProcessUploadCorrected(b, req, upload, linkStatus, created, now)
  {
  }

  /** On a fresh deployment the first accepted upload is answered with None,
      leaves a headerless file that lists nothing, and is never linked. */
  lemma FreshUploadIsLost(t: ThreadStore.ThreadFile, name: string, upload: UploadAnswer, linkStatus: int,
                          created: ThreadStore.CreateResponse, now: string)
    requires name != "" && upload.httpStatus == 200
    ensures var up := ProcessUpload(Backend(Missing, t), Files([name]), upload, linkStatus, created, now);
            && up.reply == NoReply
            && LoadUploadedFiles(up.backend.files) == []
            && up.backend.thread == t
  {
  }

  /** Only the first file of a request is ever processed. */
  lemma OnlyFirstFileProcessed(b: Backend, names: seq<string>, upload: UploadAnswer, linkStatus: int,
                               created: ThreadStore.CreateResponse, now: string)
    requires |names| >= 1
    ensures ProcessUpload(b, Files(names), upload, linkStatus, created, now)
            == ProcessUpload(b, Files([names[0]]), upload, linkStatus, created, now)
  {
  }

  /** Deleting a record just appended under a fresh id succeeds and leaves
      no record of its name. */
  lemma DeleteAppended(b: Backend, before: FileStore, name: string, id: string, now: string,
                       created2: ThreadStore.CreateResponse)
    requires before.Missing? || Readable(before)
    requires id != ""
    requires forall i :: 0 <= i < |LoadUploadedFiles(before)| ==> LoadUploadedFiles(before)[i].fileId != id
    requires b.files == SaveToCsv(before, name, id, now)
    ensures FileRecord(name, id) in LoadUploadedFiles(b.files)
    ensures var del := DeleteFile(b, id, true, created2);
            && del.status == 200
            && forall rec :: rec in LoadUploadedFiles(del.backend.files) ==> rec.fileName != name
  {
    SavedRecordIsListed(before, name, id, now);
    var listed := LoadUploadedFiles(b.files);
    assert listed == LoadUploadedFiles(before) + [FileRecord(name, id)];
    assert listed[|LoadUploadedFiles(before)|] == FileRecord(name, id);
    assert FirstAt(listed, HasId(id), |LoadUploadedFiles(before)|);
  }

  /** Round trip on an existing record file: a file accepted by the provider
      is listed afterwards, and deleting it by its fresh id leaves no record
      of that name. */
  lemma UploadThenDelete(b: Backend, name: string, upload: UploadAnswer, linkStatus: int,
                         created: ThreadStore.CreateResponse, now: string,
                         created2: ThreadStore.CreateResponse)
    requires Readable(b.files)
    requires name != "" && upload.httpStatus == 200 && upload.fileId != ""
    requires forall i :: 0 <= i < |LoadUploadedFiles(b.files)| ==> LoadUploadedFiles(b.files)[i].fileId != upload.fileId
    ensures var up := ProcessUpload(b, Files([name]), upload, linkStatus, created, now);
            && FileRecord(name, upload.fileId) in LoadUploadedFiles(up.backend.files)
            && var del := DeleteFile(up.backend, upload.fileId, true, created2);
               && del.status == 200
               && forall rec :: rec in LoadUploadedFiles(del.backend.files) ==> rec.fileName != name
  {
    var up := ProcessUpload(b, Files([name]), upload, linkStatus, created, now);
    DeleteAppended(up.backend, b.files, name, upload.fileId, now, created2);
  }

  /** The same round trip with the corrected save also holds on a fresh
      deployment. */
  lemma UploadThenDeleteCorrected(b: Backend, name: string, upload: UploadAnswer, linkStatus: int,
                                  created: ThreadStore.CreateResponse, now: string,
                                  created2: ThreadStore.CreateResponse)
    requires b.files.Missing? || Readable(b.files)
    requires name != "" && upload.httpStatus == 200 && upload.fileId != ""
    requires forall i :: 0 <= i < |LoadUploadedFiles(b.files)| ==> LoadUploadedFiles(b.files)[i].fileId != upload.fileId
    ensures var up := ProcessUploadCorrected(b, Files([name]), upload, linkStatus, created, now);
            && FileRecord(name, upload.fileId) in LoadUploadedFiles(up.backend.files)
            && var del := DeleteFile(up.backend, upload.fileId, true, created2);
               && del.status == 200
               && forall rec :: rec in LoadUploadedFiles(del.backend.files) ==> rec.fileName != name
  {
    var up := ProcessUploadCorrected(b, Files([name]), upload, linkStatus, created, now);
    DeleteAppended(up.backend, b.files, name, upload.fileId, now, created2);
  }
}
