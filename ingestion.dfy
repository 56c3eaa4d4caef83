/** The background unit of work run for each uploaded file (process_file_background):
    extract text, ask the language model, locate the JSON object in its answer, parse it,
    flatten it and insert one row; any exception on the way drops the file. */
module Ingestion {
  import opened Common
  import opened Errors
  import opened Documents

  /** The arguments one scheduled task is run with. */
  datatype Task = Task(
    fileName: string,
    fileExt: string,
    content: seq<bv8>,
    requestId: string,
    fileId: string,
    uploadTime: string)

  /** The collaborators the pipeline calls; each may raise. `locateObject` is the regular-expression
      search for a brace-delimited object followed by `strip()` (None when nothing matches);
      `insertRaises` tells whether inserting the row raises (None when it goes through). */
  datatype Services = Services(
    extractText: (string, seq<bv8>) -> Fallible<string>,
    analyzeWithLlm: string -> Fallible<string>,
    locateObject: string -> Option<string>,
    parseJson: string -> Fallible<Json>,
    flattenJson: Json -> Fallible<Json>,
    insertRaises: Row -> Option<Exception>)

  /** What one task does to the table: one row inserted, or the file dropped with the text of
      the exception that was caught and logged. */
  datatype Outcome = Inserted(row: Row) | Dropped(reason: string)

  const ExtractionFailed := "Text extraction failed."
  const NoJsonObject := "No JSON object found in LLM output."

  /** The pipeline runs to the end: text is extracted and non-empty, the model answers, an object
      is located in the answer, it parses, it flattens, and the insert does not raise. */
  ghost predicate PipelineSucceeds(t: Task, s: Services) {
    var text := s.extractText(t.fileExt, t.content);
    && text.Returned? && text.value != ""
    && var answer := s.analyzeWithLlm(text.value);
    && answer.Returned?
    && var located := s.locateObject(answer.value);
    && located.Some?
    && var data := s.parseJson(located.value);
    && data.Returned?
    && var flat := s.flattenJson(data.value);
    && flat.Returned?
    && s.insertRaises(IngestedRow(t.fileName, flat.value, t.requestId, t.fileId, t.uploadTime)).None?
  }

  /** The flattened data of a run that got past flattening. */
  ghost function FlatData(t: Task, s: Services): Json
    requires PipelineSucceeds(t, s)
  {
    var text := s.extractText(t.fileExt, t.content).value;
    var located := s.locateObject(s.analyzeWithLlm(text).value).value;
    s.flattenJson(s.parseJson(located).value).value
  }

  /** process_file_background: all or nothing. A row is inserted exactly when every step
      succeeds, and it is the row of this file's flattened data, name, batch, correlation id and
      upload time; otherwise the file is dropped and the exception never leaves the task. */
  function Ingest(t: Task, s: Services): (r: Outcome)
    ensures r.Inserted? <==> PipelineSucceeds(t, s)
    ensures r.Inserted? ==>
              r.row == IngestedRow(t.fileName, FlatData(t, s), t.requestId, t.fileId, t.uploadTime)
    ensures s.extractText(t.fileExt, t.content) == Returned("") ==> r == Dropped(ExtractionFailed)
    ensures var text := s.extractText(t.fileExt, t.content);
            text.Returned? && text.value != "" ==>
              var answer := s.analyzeWithLlm(text.value);
              answer.Returned? && s.locateObject(answer.value).None? ==> r == Dropped(NoJsonObject)
  {
    match s.extractText(t.fileExt, t.content)
    case Raised(e) => Dropped(ExceptionText(e))
    case Returned(text) =>
      if text == "" then Dropped(ExtractionFailed)
      else
        match s.analyzeWithLlm(text)
        case Raised(e) => Dropped(ExceptionText(e))
        case Returned(answer) =>
          match s.locateObject(answer)
          case None => Dropped(NoJsonObject)
          case Some(objectText) =>
            match s.parseJson(objectText)
            case Raised(e) => Dropped(ExceptionText(e))
            case Returned(data) =>
              match s.flattenJson(data)
              case Raised(e) => Dropped(ExceptionText(e))
              case Returned(flat) =>
                var row := IngestedRow(t.fileName, flat, t.requestId, t.fileId, t.uploadTime);
                match s.insertRaises(row)
                case Some(e) => Dropped(ExceptionText(e))
                case None => Inserted(row)
  }

  /** The rows a sequence of tasks inserts, run one after another in order. */
  function Persisted(tasks: seq<Task>, s: Services): seq<Row> {
    if tasks == [] then []
    else
      var last := Ingest(tasks[|tasks| - 1], s);
      Persisted(tasks[..|tasks| - 1], s) + (if last.Inserted? then [last.row] else [])
  }

  /** A sequence of tasks inserts at most one row per task, all in the tasks' batch when they
      share one, and exactly one per task only when no task is dropped. */
  lemma {:induction false} PersistedAtMostOnePerTask(tasks: seq<Task>, s: Services, requestId: string)
    requires forall i :: 0 <= i < |tasks| ==> tasks[i].requestId == requestId
    ensures |Persisted(tasks, s)| <= |tasks|
    ensures |Persisted(tasks, s)| == |tasks| <==> forall i :: 0 <= i < |tasks| ==> PipelineSucceeds(tasks[i], s)
    ensures forall i :: 0 <= i < |Persisted(tasks, s)| ==> Persisted(tasks, s)[i].requestId == Some(requestId)
    decreases |tasks|
  {
    if tasks != [] {
      var init := tasks[..|tasks| - 1];
      assert forall i :: 0 <= i < |init| ==> init[i] == tasks[i];
      PersistedAtMostOnePerTask(init, s, requestId);
      if !PipelineSucceeds(tasks[|tasks| - 1], s) {
        assert |Persisted(tasks, s)| < |tasks|;
      }
    }
  }
}
