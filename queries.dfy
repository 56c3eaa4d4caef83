/** The read endpoints over the `documents` table: the per-batch summary (GET /requests/), the
    lookup of one batch (GET /requests/{request_id}) and the lookup of one row by its key
    (GET /file/{file_id}). Each is a function of the rows the query returns. */
module Queries {
  import opened Common
  import opened Errors
  import opened Timestamp
  import opened Documents

  // ---------------------------------------------------------------------------------------------
  // Grouping

  /** The `request_id` column of each record, in order. */
  function RequestIds(rs: seq<Record>): (ids: seq<Option<string>>)
    ensures |ids| == |rs|
    ensures forall i :: 0 <= i < |rs| ==> ids[i] == rs[i].row.requestId
  {
    if rs == [] then [] else RequestIds(rs[..|rs| - 1]) + [rs[|rs| - 1].row.requestId]
  }

  predicate NoDuplicates<T(==)>(xs: seq<T>) {
    forall i, j :: 0 <= i < j < |xs| ==> xs[i] != xs[j]
  }

  /** The distinct elements of `xs`, each once, in order of first appearance. */
  function Distinct<T(==, !new)>(xs: seq<T>): (d: seq<T>)
    ensures NoDuplicates(d)
    ensures forall x :: x in d <==> x in xs
  {
    if xs == [] then []
    else
      var d := Distinct(xs[..|xs| - 1]);
      if xs[|xs| - 1] in d then d else d + [xs[|xs| - 1]]
  }

  /** The records whose `request_id` equals `g`, in order: one GROUP BY group, and, for a
      non-NULL `g`, the result of `WHERE request_id = g` (SQL equality never holds for NULL). */
  function InBatch(rs: seq<Record>, g: Option<string>): (b: seq<Record>)
    ensures |b| <= |rs|
  {
    if rs == [] then []
    else InBatch(rs[..|rs| - 1], g) + (if rs[|rs| - 1].row.requestId == g then [rs[|rs| - 1]] else [])
  }

  /** A batch holds exactly the records with its request id. */
  lemma {:induction false} InBatchMembers(rs: seq<Record>, g: Option<string>)
    ensures forall r :: r in InBatch(rs, g) <==> r in rs && r.row.requestId == g
    decreases |rs|
  {
    if rs != [] {
      var init := rs[..|rs| - 1];
      InBatchMembers(init, g);
      assert rs == init + [rs[|rs| - 1]];
    }
  }

  lemma {:induction false} InBatchAppend(a: seq<Record>, b: seq<Record>, g: Option<string>)
    ensures InBatch(a + b, g) == InBatch(a, g) + InBatch(b, g)
    decreases |b|
  {
    if b == [] {
      assert a + b == a;
    } else {
      var init := b[..|b| - 1];
      InBatchAppend(a, init, g);
      assert (a + b)[..|a + b| - 1] == a + init;
      assert (a + b)[|a + b| - 1] == b[|b| - 1];
      var tail := if b[|b| - 1].row.requestId == g then [b[|b| - 1]] else [];
      calc {
        InBatch(a + b, g);
        InBatch(a + init, g) + tail;
        (InBatch(a, g) + InBatch(init, g)) + tail;
        InBatch(a, g) + (InBatch(init, g) + tail);
      }
    }
  }

  lemma {:induction false} InBatchOfOneBatch(rs: seq<Record>, g: Option<string>)
    requires forall i :: 0 <= i < |rs| ==> rs[i].row.requestId == g
    ensures InBatch(rs, g) == rs
    decreases |rs|
  {
    if rs != [] {
      var init := rs[..|rs| - 1];
      InBatchOfOneBatch(init, g);
      calc {
        InBatch(rs, g);
        InBatch(init, g) + [rs[|rs| - 1]];
        init + [rs[|rs| - 1]];
        rs;
      }
    }
  }

  /** SUM(COALESCE(update_count, 0)) */
  function TotalUpdates(rs: seq<Record>): (total: int)
    ensures (forall i :: 0 <= i < |rs| ==> rs[i].row.updateCount.None?) ==> total == 0
    ensures (forall i :: 0 <= i < |rs| ==> rs[i].row.updateCount.GetOr(0) >= 0) ==> total >= 0
  {
    if rs == [] then 0 else TotalUpdates(rs[..|rs| - 1]) + rs[|rs| - 1].row.updateCount.GetOr(0)
  }

  // ---------------------------------------------------------------------------------------------
  // MIN over the timestamp column

  /** Character-by-character text order (on zero-padded timestamps it is chronological order). */
  predicate TextLe(a: string, b: string)
    decreases |a|
  {
    a == [] || (b != [] && (a[0] < b[0] || (a[0] == b[0] && TextLe(a[1..], b[1..]))))
  }

  lemma {:induction false} TextLeReflexive(a: string)
    ensures TextLe(a, a)
    decreases |a|
  {
    if a != [] {
      TextLeReflexive(a[1..]);
    }
  }

  lemma {:induction false} TextLeTotal(a: string, b: string)
    ensures TextLe(a, b) || TextLe(b, a)
    decreases |a|
  {
    if a != [] && b != [] && a[0] == b[0] {
      TextLeTotal(a[1..], b[1..]);
    }
  }

  lemma {:induction false} TextLeTransitive(a: string, b: string, c: string)
    requires TextLe(a, b) && TextLe(b, c)
    ensures TextLe(a, c)
    decreases |a|
  {
    if a != [] && a[0] == b[0] && b[0] == c[0] {
      TextLeTransitive(a[1..], b[1..], c[1..]);
    }
  }

  /** MIN(upload_date_time): the least non-NULL value, or NULL when every value is NULL. */
  function Earliest(rs: seq<Record>): (m: Option<string>)
    ensures m.Some? ==> exists i :: 0 <= i < |rs| && rs[i].row.uploadDateTime == m
  {
    if rs == [] then None
    else
      var e := Earliest(rs[..|rs| - 1]);
      match rs[|rs| - 1].row.uploadDateTime
      case None => e
      case Some(t) =>
        match e
        case None => Some(t)
        case Some(m) => if TextLe(m, t) then Some(m) else Some(t)
  }

  /** Earliest is NULL exactly when every value is NULL; otherwise it is one of the values and no
      value is below it. */
  lemma {:induction false} EarliestIsMinimum(rs: seq<Record>)
    ensures Earliest(rs).None? <==> forall i :: 0 <= i < |rs| ==> rs[i].row.uploadDateTime.None?
    ensures Earliest(rs).Some? ==>
              (exists i :: 0 <= i < |rs| && rs[i].row.uploadDateTime == Earliest(rs))
              && forall i :: 0 <= i < |rs| && rs[i].row.uploadDateTime.Some? ==>
                               TextLe(Earliest(rs).value, rs[i].row.uploadDateTime.value)
    decreases |rs|
  {
    if rs != [] {
      var init := rs[..|rs| - 1];
      var last := rs[|rs| - 1].row.uploadDateTime;
      EarliestIsMinimum(init);
      assert forall i :: 0 <= i < |init| ==> init[i] == rs[i];
      var e := Earliest(init);
      if last.Some? && e.Some? {
        var m, t := e.value, last.value;
        TextLeTotal(m, t);
        if TextLe(m, t) {
          var k :| 0 <= k < |init| && init[k].row.uploadDateTime == e;
          assert rs[k].row.uploadDateTime == Earliest(rs);
        } else {
          TextLeReflexive(t);
          forall i | 0 <= i < |init| && init[i].row.uploadDateTime.Some?
            ensures TextLe(t, rs[i].row.uploadDateTime.value)
          {
            TextLeTransitive(t, m, init[i].row.uploadDateTime.value);
          }
          assert rs[|rs| - 1].row.uploadDateTime == Earliest(rs);
        }
      } else if last.Some? {
        TextLeReflexive(last.value);
        assert rs[|rs| - 1].row.uploadDateTime == Earliest(rs);
      } else if e.Some? {
        var k :| 0 <= k < |init| && init[k].row.uploadDateTime == e;
        assert rs[k].row.uploadDateTime == Earliest(rs);
      }
    }
  }

  // ---------------------------------------------------------------------------------------------
  // Showing a stored timestamp

  /** The ValueError `strptime` raises for text it cannot read. */
  function TimeDataError(s: string): Exception {
    Error("time data '" + s + "' does not match format '%Y-%m-%d %H:%M:%S'")
  }

  /** `datetime.strptime(s, ...).strftime("%d-%m-%Y %H:%M:%S")`, raising where `strptime` does. */
  function ShowTime(s: string): (r: Fallible<string>)
    ensures r.Returned? <==> ToDisplay(s).Some?
    ensures r.Returned? ==> r.value == ToDisplay(s).value
    ensures r.Raised? ==> r.exception == TimeDataError(s) && r.exception.Error?
  {
    match ToDisplay(s)
    case Some(d) => Returned(d)
    case None => Raised(TimeDataError(s))
  }

  /** `str(v)` of a column value: NULL prints as "None". */
  function ColumnText(v: Option<string>): string {
    match v
    case None => "None"
    case Some(s) => s
  }

  // ---------------------------------------------------------------------------------------------
  // GET /requests/

  /** One entry of the batch summary. */
  datatype BatchSummary = BatchSummary(
    requestId: Option<string>,
    fileCount: nat,
    uploadDateTime: Option<string>,
    totalUpdateCount: int)

  /** Batch `g`'s earliest upload time is non-NULL, non-empty and not readable as a timestamp. */
  predicate UnreadableEarliest(rs: seq<Record>, g: Option<string>) {
    var earliest := Earliest(InBatch(rs, g));
    earliest.Some? && earliest.value != "" && ToDisplay(earliest.value).None?
  }

  /** The entry for batch `g`: the earliest upload time is shown when it is truthy and NULL-free,
      and its conversion raises when it is not readable. */
  function BatchEntry(rs: seq<Record>, g: Option<string>): (r: Fallible<BatchSummary>)
    ensures r.Returned? ==> r.value.requestId == g && r.value.fileCount == |InBatch(rs, g)|
    ensures r.Raised? <==> UnreadableEarliest(rs, g)
    ensures r.Raised? ==> r.exception.Error?
  {
    var group := InBatch(rs, g);
    var earliest := Earliest(group);
    if earliest.None? || earliest.value == "" then
      Returned(BatchSummary(g, |group|, None, TotalUpdates(group)))
    else
      match ShowTime(earliest.value)
      case Raised(e) => Raised(e)
      case Returned(shown) => Returned(BatchSummary(g, |group|, Some(shown), TotalUpdates(group)))
  }

  /** The list comprehension over the groups `gs`; the first entry that raises ends it. */
  function BatchEntries(rs: seq<Record>, gs: seq<Option<string>>): (r: Fallible<seq<BatchSummary>>)
    ensures r.Returned? ==> |r.value| == |gs|
    ensures r.Returned? ==> forall i :: 0 <= i < |gs| ==>
              BatchEntry(rs, gs[i]) == Returned(r.value[i])
    ensures r.Raised? ==> exists i :: 0 <= i < |gs| && BatchEntry(rs, gs[i]).Raised?
    ensures (forall i :: 0 <= i < |gs| ==> BatchEntry(rs, gs[i]).Returned?) ==> r.Returned?
  {
    if gs == [] then Returned([])
    else
      match BatchEntry(rs, gs[0])
      case Raised(e) => Raised(e)
      case Returned(entry) =>
        match BatchEntries(rs, gs[1..])
        case Raised(e) => Raised(e)
        case Returned(rest) => Returned([entry] + rest)
  }

  /** The `try` body of get_all_requests_summary (groups in order of first appearance). */
  function RequestsSummaryBody(rs: seq<Record>): Fallible<seq<BatchSummary>> {
    BatchEntries(rs, Distinct(RequestIds(rs)))
  }

  /** GET /requests/ */
  function RequestsSummary(rs: seq<Record>): (r: HttpResult<seq<BatchSummary>>)
    ensures r.Ok? ==> |r.body| == |Distinct(RequestIds(rs))|
    ensures r.Err? ==> r.status == 500
  {
    CatchAll(RequestsSummaryBody(rs))
  }

  /** The request ids of the summary's entries, in order. */
  function SummaryIds(es: seq<BatchSummary>): (ids: seq<Option<string>>)
    ensures |ids| == |es| && forall i :: 0 <= i < |es| ==> ids[i] == es[i].requestId
  {
    if es == [] then [] else SummaryIds(es[..|es| - 1]) + [es[|es| - 1].requestId]
  }

  /** The sum of the file counts of the summary's entries. */
  function TotalFiles(es: seq<BatchSummary>): int {
    if es == [] then 0 else TotalFiles(es[..|es| - 1]) + es[|es| - 1].fileCount
  }

  /** The sum of the group sizes of the batches `gs`. */
  function BatchSizes(rs: seq<Record>, gs: seq<Option<string>>): int {
    if gs == [] then 0 else |InBatch(rs, gs[0])| + BatchSizes(rs, gs[1..])
  }

  function Occurrences<T(==)>(xs: seq<T>, x: T): nat {
    if xs == [] then 0 else (if xs[0] == x then 1 else 0) + Occurrences(xs[1..], x)
  }

  lemma {:induction false} BatchSizesEmpty(gs: seq<Option<string>>)
    ensures BatchSizes([], gs) == 0
    decreases |gs|
  {
    if gs != [] {
      BatchSizesEmpty(gs[1..]);
    }
  }

  lemma {:induction false} BatchSizesSnoc(rs: seq<Record>, r: Record, gs: seq<Option<string>>)
    ensures BatchSizes(rs + [r], gs) == BatchSizes(rs, gs) + Occurrences(gs, r.row.requestId)
    decreases |gs|
  {
    if gs != [] {
      BatchSizesSnoc(rs, r, gs[1..]);
      assert (rs + [r])[..|rs + [r]| - 1] == rs;
    }
  }

  lemma {:induction false} OccursOnce<T>(xs: seq<T>, x: T)
    requires NoDuplicates(xs) && x in xs
    ensures Occurrences(xs, x) == 1
    decreases |xs|
  {
    if xs[0] == x {
      OccursNot(xs[1..], x);
    } else {
      OccursOnce(xs[1..], x);
    }
  }

  lemma {:induction false} OccursNot<T>(xs: seq<T>, x: T)
    requires x !in xs
    ensures Occurrences(xs, x) == 0
    decreases |xs|
  {
    if xs != [] {
      OccursNot(xs[1..], x);
    }
  }

  /** Batches that cover every record's request id, each named once, partition the records. */
  lemma {:induction false} BatchesPartition(rs: seq<Record>, gs: seq<Option<string>>)
    requires NoDuplicates(gs)
    requires forall i :: 0 <= i < |rs| ==> rs[i].row.requestId in gs
    ensures BatchSizes(rs, gs) == |rs|
    decreases |rs|
  {
    if rs == [] {
      BatchSizesEmpty(gs);
    } else {
      var init, last := rs[..|rs| - 1], rs[|rs| - 1];
      assert forall i :: 0 <= i < |init| ==> init[i] == rs[i];
      BatchesPartition(init, gs);
      BatchSizesSnoc(init, last, gs);
      OccursOnce(gs, last.row.requestId);
      assert init + [last] == rs;
    }
  }

  lemma {:induction false} TotalFilesOfEntries(rs: seq<Record>, gs: seq<Option<string>>,
                                               es: seq<BatchSummary>)
    requires BatchEntries(rs, gs) == Returned(es)
    ensures TotalFiles(es) == BatchSizes(rs, gs)
    decreases |gs|
  {
    if gs != [] {
      var rest := BatchEntries(rs, gs[1..]).value;
      TotalFilesOfEntries(rs, gs[1..], rest);
      assert es == [es[0]] + rest;
      TotalFilesCons(es[0], rest);
    }
  }

  lemma {:induction false} TotalFilesCons(e: BatchSummary, es: seq<BatchSummary>)
    ensures TotalFiles([e] + es) == e.fileCount + TotalFiles(es)
    decreases |es|
  {
    if es != [] {
      var init := es[..|es| - 1];
      TotalFilesCons(e, init);
      assert ([e] + es)[..|[e] + es| - 1] == [e] + init;
    }
  }

  /** What the summary entry `e` must say about its batch: the group's row count (never 0), its
      update counts summed with NULL as 0, and its earliest non-NULL upload time converted for
      display, or None when that time is NULL or empty. */
  ghost predicate DescribesBatch(rs: seq<Record>, e: BatchSummary) {
    var group := InBatch(rs, e.requestId);
    var earliest := Earliest(group);
    && e.fileCount == |group| && e.fileCount > 0
    && e.totalUpdateCount == TotalUpdates(group)
    && (e.uploadDateTime.None? <==> (earliest.None? || earliest.value == ""))
    && (e.uploadDateTime.Some? ==> Some(e.uploadDateTime.value) == ToDisplay(earliest.value))
  }

  lemma InBatchOfPresentId(rs: seq<Record>, g: Option<string>)
    requires g in RequestIds(rs)
    ensures |InBatch(rs, g)| > 0
  {
    var k :| 0 <= k < |rs| && RequestIds(rs)[k] == g;
    InBatchMembers(rs, g);
    assert rs[k] in InBatch(rs, g);
  }

  lemma BatchEntryDescribes(rs: seq<Record>, g: Option<string>)
    requires g in RequestIds(rs) && BatchEntry(rs, g).Returned?
    ensures BatchEntry(rs, g).value.requestId == g
    ensures DescribesBatch(rs, BatchEntry(rs, g).value)
  {
    InBatchOfPresentId(rs, g);
  }

  lemma {:induction false} EntriesDescribeGroups(rs: seq<Record>, gs: seq<Option<string>>,
                                                 es: seq<BatchSummary>)
    requires BatchEntries(rs, gs) == Returned(es)
    requires forall g :: g in gs ==> g in RequestIds(rs)
    ensures SummaryIds(es) == gs
    ensures forall i :: 0 <= i < |es| ==> DescribesBatch(rs, es[i])
  {
    forall i | 0 <= i < |es| ensures es[i].requestId == gs[i] && DescribesBatch(rs, es[i]) {
      assert BatchEntry(rs, gs[i]) == Returned(es[i]);
      BatchEntryDescribes(rs, gs[i]);
    }
  }

  /** GET /requests/: one entry per distinct `request_id` (NULL being one batch of its own), each
      batch once, each describing its group, and the counts add up to the number of rows. */
  lemma SummaryDescribesBatches(rs: seq<Record>)
    requires RequestsSummary(rs).Ok?
    ensures var es := RequestsSummary(rs).body;
      && NoDuplicates(SummaryIds(es))
      && (forall g :: g in SummaryIds(es) <==> g in RequestIds(rs))
      && (forall i :: 0 <= i < |es| ==> DescribesBatch(rs, es[i]))
      && TotalFiles(es) == |rs|
  {
    var gs := Distinct(RequestIds(rs));
    var es := RequestsSummaryBody(rs).value;
    EntriesDescribeGroups(rs, gs, es);
    TotalFilesOfEntries(rs, gs, es);
    forall i | 0 <= i < |rs| ensures rs[i].row.requestId in gs {
      assert RequestIds(rs)[i] == rs[i].row.requestId;
    }
    BatchesPartition(rs, gs);
  }

  /** The summary fails, with status 500, exactly when some batch's earliest upload time is
      non-empty and cannot be read. */
  lemma SummaryFailsOnUnreadableTime(rs: seq<Record>)
    ensures RequestsSummary(rs).Err? <==> exists g :: g in RequestIds(rs) && UnreadableEarliest(rs, g)
    ensures RequestsSummary(rs).Err? ==> RequestsSummary(rs).status == 500
  {
    var gs := Distinct(RequestIds(rs));
    if RequestsSummary(rs).Err? {
      var i :| 0 <= i < |gs| && BatchEntry(rs, gs[i]).Raised?;
      assert gs[i] in RequestIds(rs) && UnreadableEarliest(rs, gs[i]);
    } else {
      forall g | g in RequestIds(rs) ensures !UnreadableEarliest(rs, g) {
        var i :| 0 <= i < |gs| && gs[i] == g;
        assert BatchEntry(rs, gs[i]).Returned?;
      }
    }
  }

  // ---------------------------------------------------------------------------------------------
  // GET /requests/{request_id}

  /** One row of the per-batch listing. */
  datatype RecordView = RecordView(
    id: int,
    fileName: string,
    jsonData: Json,
    updateCount: Option<int>,
    diffData: Json,
    requestId: Option<string>,
    fileId: Option<string>,
    uploadDateTime: string)

  /** `v` shows record `r`: the key and the columns as stored, a NULL diff as `{}`, and the upload
      time converted for display. */
  predicate Shows(r: Record, v: RecordView) {
    && v.id == r.id && v.fileName == r.row.fileName
    && v.jsonData == r.row.jsonData && v.updateCount == r.row.updateCount
    && v.diffData == r.row.diffData.GetOr(EmptyObject)
    && v.requestId == r.row.requestId && v.fileId == r.row.fileId
    && Some(v.uploadDateTime) == ToDisplay(ColumnText(r.row.uploadDateTime))
  }

  /** The dictionary built for one record: a NULL diff shows as `{}`, and the upload time is
      converted from `str()` of the column, so a NULL or unreadable time raises. */
  function ViewOf(r: Record): (v: Fallible<RecordView>)
    ensures v.Returned? <==> ToDisplay(ColumnText(r.row.uploadDateTime)).Some?
    ensures v.Raised? ==> v.exception.Error?
  {
    match ShowTime(ColumnText(r.row.uploadDateTime))
    case Raised(e) => Raised(e)
    case Returned(shown) =>
      Returned(RecordView(r.id, r.row.fileName, r.row.jsonData, r.row.updateCount,
                          r.row.diffData.GetOr(EmptyObject), r.row.requestId, r.row.fileId, shown))
  }

  /** A converted record shows its own key and columns, a NULL diff as `{}`. */
  lemma ViewShowsRecord(r: Record)
    requires ViewOf(r).Returned?
    ensures Shows(r, ViewOf(r).value)
  {
  }

  function Views(rs: seq<Record>): (r: Fallible<seq<RecordView>>)
    ensures r.Returned? <==> forall i :: 0 <= i < |rs| ==> ViewOf(rs[i]).Returned?
    ensures r.Returned? ==>
              |r.value| == |rs| && forall i :: 0 <= i < |rs| ==> ViewOf(rs[i]) == Returned(r.value[i])
    ensures r.Raised? ==> r.exception.Error?
  {
    if rs == [] then Returned([])
    else
      match ViewOf(rs[0])
      case Raised(e) => Raised(e)
      case Returned(v) =>
        match Views(rs[1..])
        case Raised(e) => Raised(e)
        case Returned(vs) => Returned([v] + vs)
  }

  const NoFilesForRequest := "No files found for this request_id"

  /** The `try` body of get_files_by_request_id. */
  function FilesByRequestIdBody(rs: seq<Record>, requestId: string): Fallible<seq<RecordView>> {
    var matched := InBatch(rs, Some(requestId));
    if matched == [] then Raised(HttpException(404, NoFilesForRequest)) else Views(matched)
  }

  /** GET /requests/{request_id}, as written: the 404 is caught by the generic handler. */
  function FilesByRequestId(rs: seq<Record>, requestId: string): (r: HttpResult<seq<RecordView>>)
    ensures r.Ok? ==> |r.body| == |InBatch(rs, Some(requestId))| > 0
    ensures r.Err? ==> r.status == 500
  {
    CatchAll(FilesByRequestIdBody(rs, requestId))
  }

  /** GET /requests/{request_id}, as evidently intended: the 404 reaches the caller. */
  function FilesByRequestIdIntended(rs: seq<Record>, requestId: string): HttpResult<seq<RecordView>> {
    CatchOthers(FilesByRequestIdBody(rs, requestId))
  }

  /** The listing holds exactly the rows of the batch, in order, each with its columns, a NULL diff
      shown as `{}` and the upload time converted; a batch without rows answers 500 whose detail
      is the text of the 404; every error is a 500. */
  lemma FilesByRequestIdListsBatch(rs: seq<Record>, requestId: string)
    ensures var matched := InBatch(rs, Some(requestId));
      var res := FilesByRequestId(rs, requestId);
      && (matched == [] ==> res == Err(500, "404: " + NoFilesForRequest))
      && (res.Ok? <==>
            && matched != []
            && forall i :: 0 <= i < |matched| ==>
                 ToDisplay(ColumnText(matched[i].row.uploadDateTime)).Some?)
      && (res.Err? ==> res.status == 500)
      && (res.Ok? ==>
            && |res.body| == |matched|
            && forall i :: 0 <= i < |matched| ==>
              var v, r := res.body[i], matched[i];
              && v.id == r.id && v.fileName == r.row.fileName && v.jsonData == r.row.jsonData
              && v.updateCount == r.row.updateCount
              && v.diffData == r.row.diffData.GetOr(EmptyObject)
              && v.requestId == Some(requestId) && v.fileId == r.row.fileId
              && Some(v.uploadDateTime) == ToDisplay(r.row.uploadDateTime.value))
  {
    var matched := InBatch(rs, Some(requestId));
    if matched == [] {
      NotFoundBecomesServerError<seq<RecordView>>(NoFilesForRequest);
    }
    InBatchMembers(rs, Some(requestId));
    forall i | 0 <= i < |matched| ensures matched[i].row.requestId == Some(requestId) {
      assert matched[i] in matched;
    }
  }

  /** The corrected lookup answers 404 for a batch without rows and agrees with the as-written
      one everywhere else. */
  lemma FilesByRequestIdIntendedAnswers404(rs: seq<Record>, requestId: string)
    ensures InBatch(rs, Some(requestId)) == [] ==>
              FilesByRequestIdIntended(rs, requestId) == Err(404, NoFilesForRequest)
    ensures InBatch(rs, Some(requestId)) != [] ==>
              FilesByRequestIdIntended(rs, requestId) == FilesByRequestId(rs, requestId)
  {
  }

  /** For a non-NULL batch, the summary's file count is the length of the batch listing. */
  lemma SummaryCountMatchesListing(rs: seq<Record>, requestId: string, i: nat)
    requires RequestsSummary(rs).Ok? && i < |RequestsSummary(rs).body|
    requires RequestsSummary(rs).body[i].requestId == Some(requestId)
    requires FilesByRequestId(rs, requestId).Ok?
    ensures |FilesByRequestId(rs, requestId).body| == RequestsSummary(rs).body[i].fileCount
  {
    SummaryDescribesBatches(rs);
    FilesByRequestIdListsBatch(rs, requestId);
  }

  // ---------------------------------------------------------------------------------------------
  // GET /file/{file_id}

  /** The dictionary of GET /file/{file_id}; `fileId` is the row's integer key. */
  datatype FileView = FileView(
    fileId: int,
    fileName: string,
    jsonData: Json,
    updateCount: Option<int>,
    diffData: Option<Json>)

  const FileNotFound := "File not found"

  /** The `try` body of get_file_by_id: the row under key `id`, a NULL diff shown as None. */
  function FileByIdBody(table: map<int, Row>, id: int): Fallible<FileView> {
    if id !in table then Raised(HttpException(404, FileNotFound))
    else
      var r := table[id];
      Returned(FileView(id, r.fileName, r.jsonData, r.updateCount, r.diffData))
  }

  /** GET /file/{file_id}, as written. */
  function FileById(table: map<int, Row>, id: int): (r: HttpResult<FileView>)
    ensures r.Ok? <==> id in table
    ensures r.Err? ==> r.status == 500
  {
    CatchAll(FileByIdBody(table, id))
  }

  /** GET /file/{file_id}, as evidently intended. */
  function FileByIdIntended(table: map<int, Row>, id: int): HttpResult<FileView> {
    CatchOthers(FileByIdBody(table, id))
  }

  /** A key with a row yields that row's columns; a key without one yields 500, never 404. */
  lemma FileByIdShowsRow(table: map<int, Row>, id: int)
    ensures FileById(table, id).Ok? <==> id in table
    ensures id in table ==>
              var v, r := FileById(table, id).body, table[id];
              v.fileId == id && v.fileName == r.fileName && v.jsonData == r.jsonData
              && v.updateCount == r.updateCount && v.diffData == r.diffData
    ensures id !in table ==> FileById(table, id) == Err(500, "404: " + FileNotFound)
  {
    if id !in table {
      NotFoundBecomesServerError<FileView>(FileNotFound);
    }
  }

  /** The corrected lookup answers 404 for a missing key and agrees with the as-written one
      for a present key. */
  lemma FileByIdIntendedAnswers404(table: map<int, Row>, id: int)
    ensures id !in table ==> FileByIdIntended(table, id) == Err(404, FileNotFound)
    ensures id in table ==> FileByIdIntended(table, id) == FileById(table, id)
  {
  }
}
