/** POST /upload/ (upload_files): one background task and one reply entry per uploaded file,
    all under one fresh batch id and one upload time. */
module Upload {
  import opened Common
  import opened Decimal
  import opened Timestamp
  import opened Documents
  import opened Ingestion
  import opened Queries

  /** An uploaded file: its client-supplied name and its bytes. */
  datatype UploadedFile = UploadedFile(filename: string, content: seq<bv8>)

  /** One entry of the reply's `file_info` list. */
  datatype FileInfo = FileInfo(fileName: string, fileId: string, uploadTime: string)

  /** The reply of POST /upload/. */
  datatype UploadReply = UploadReply(message: string, requestId: string, fileInfo: seq<FileInfo>)

  function UploadMessage(count: nat): string {
    NatToString(count) + " files uploaded. Processing will happen asynchronously."
  }

  /** upload_files. The batch id, the per-file ids and the clock reading are given (they come from
      `uuid4` and `datetime.now`), and so is the lower-cased extension of a file name. Every task
      carries the storage form of the upload time; every reply entry carries its display form. */
  method UploadFiles(files: seq<UploadedFile>, requestId: string, fileIds: seq<string>,
                     now: DateTime, extensionOf: string -> string)
    returns (reply: UploadReply, tasks: seq<Task>)
    requires Valid(now) && |fileIds| == |files|
    ensures |tasks| == |files| && |reply.fileInfo| == |files|
    ensures reply.requestId == requestId
    ensures reply.message == UploadMessage(|files|)
    ensures forall i :: 0 <= i < |files| ==>
              tasks[i] == Task(files[i].filename, extensionOf(files[i].filename), files[i].content,
                               requestId, fileIds[i], FormatStorage(now))
    ensures forall i :: 0 <= i < |files| ==>
              reply.fileInfo[i] == FileInfo(files[i].filename, fileIds[i], FormatDisplay(now))
  {
    var uploadTime := FormatStorage(now);
    UploadTimeDisplays(now);
    // The display conversion of the one upload time, the same for every file.
    var shown := ToDisplay(uploadTime).value;
    var fileInfo: seq<FileInfo> := [];
    tasks := [];
    var i := 0;
    while i < |files|
      invariant 0 <= i <= |files|
      invariant |tasks| == i && |fileInfo| == i
      invariant forall k :: 0 <= k < i ==>
                  tasks[k] == Task(files[k].filename, extensionOf(files[k].filename), files[k].content,
                                   requestId, fileIds[k], uploadTime)
      invariant forall k :: 0 <= k < i ==>
                  fileInfo[k] == FileInfo(files[k].filename, fileIds[k], shown)
    {
      var file := files[i];
      var fileExt := extensionOf(file.filename);
      tasks := tasks + [Task(file.filename, fileExt, file.content, requestId, fileIds[i], uploadTime)];
      fileInfo := fileInfo + [FileInfo(file.filename, fileIds[i], shown)];
      i := i + 1;
    }
    reply := UploadReply(UploadMessage(|fileInfo|), requestId, fileInfo);
  }

  lemma BatchOfAppended(before: seq<Record>, added: seq<Record>, g: Option<string>)
    requires forall i :: 0 <= i < |added| ==> added[i].row.requestId == g
    requires InBatch(before, g) == []
    ensures InBatch(before + added, g) == added
  {
    InBatchOfOneBatch(added, g);
    InBatchAppend(before, added, g);
  }

  /** After the tasks of one upload have run against a table holding no row of that batch, the
      batch has one row per ingested file: as many as the reply announced only when no file was
      dropped, and fewer otherwise, although the reply's message and `file_info` still list
      every file. */
  lemma BatchHoldsIngestedFilesOnly(before: seq<Record>, added: seq<Record>, tasks: seq<Task>,
                                    s: Services, requestId: string)
    requires RowsOf(added) == Persisted(tasks, s)
    requires forall i :: 0 <= i < |tasks| ==> tasks[i].requestId == requestId
    requires InBatch(before, Some(requestId)) == []
    ensures |InBatch(before + added, Some(requestId))| == |Persisted(tasks, s)| <= |tasks|
    ensures |InBatch(before + added, Some(requestId))| == |tasks| <==>
              forall i :: 0 <= i < |tasks| ==> PipelineSucceeds(tasks[i], s)
  {
    PersistedAtMostOnePerTask(tasks, s, requestId);
    forall i | 0 <= i < |added| ensures added[i].row.requestId == Some(requestId) {
      assert RowsOf(added)[i] == added[i].row;
    }
    BatchOfAppended(before, added, Some(requestId));
  }
}
