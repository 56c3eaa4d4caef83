/** The `documents` table: one row per stored document, keyed by a store-assigned integer id. */
module Documents {
  import opened Common
  import opened Decimal
  import opened Errors

  /** A row of `documents` without its key. Columns that can hold NULL are Options. */
  datatype Row = Row(
    fileName: string,
    jsonData: Json,
    updateCount: Option<int>,
    diffData: Option<Json>,
    requestId: Option<string>,
    fileId: Option<string>,
    uploadDateTime: Option<string>)

  /** A row together with its primary key, as a query returns it. */
  datatype Record = Record(id: int, row: Row)

  /** The rows of a query result, without their keys. */
  function RowsOf(rs: seq<Record>): (r: seq<Row>)
    ensures |r| == |rs| && forall i :: 0 <= i < |rs| ==> r[i] == rs[i].row
  {
    if rs == [] then [] else RowsOf(rs[..|rs| - 1]) + [rs[|rs| - 1].row]
  }

  /** The row the background pipeline stores for one ingested file: the flattened data, the
      batch, the file's correlation id and the batch's upload time, no updates and an empty diff. */
  function IngestedRow(fileName: string, flatData: Json, requestId: string, fileId: string,
                       uploadTime: string): (r: Row)
    ensures r.fileName == fileName
    ensures r.requestId == Some(requestId) && r.fileId == Some(fileId)
    ensures r.uploadDateTime == Some(uploadTime) && r.jsonData == flatData
    ensures r.updateCount == Some(0) && r.diffData == Some(EmptyObject)
  {
    Row(fileName, flatData, Some(0), Some(EmptyObject), Some(requestId), Some(fileId), Some(uploadTime))
  }

  /** The row a PUT on an id without a row inserts: only name, data, count and diff are given,
      so batch, correlation id and upload time stay NULL. */
  function PlaceholderRow(requestedId: int, newData: Json): (r: Row)
    ensures |r.fileName| > 5 && r.fileName[..5] == "file_"
    ensures r.jsonData == newData && r.updateCount == Some(0) && r.diffData == Some(EmptyObject)
    ensures r.requestId.None? && r.fileId.None? && r.uploadDateTime.None?
  {
    Row("file_" + IntToString(requestedId), newData, Some(0), Some(EmptyObject), None, None, None)
  }

  /** The requested id survives only in the synthesized name: two requests for different ids
      never produce the same name. */
  lemma PlaceholderNameIdentifiesId(a: int, b: int, newData: Json)
    ensures PlaceholderRow(a, newData).fileName == PlaceholderRow(b, newData).fileName ==> a == b
  {
    var na, nb := PlaceholderRow(a, newData).fileName, PlaceholderRow(b, newData).fileName;
    if na == nb {
      assert na[5..] == IntToString(a) && nb[5..] == IntToString(b);
      IntToStringInjective(a, b);
    }
  }

  /** The name reads back as the requested id: after `file_` come its decimal digits, preceded by
      a minus sign when the id is negative. */
  lemma PlaceholderNameReadsBack(id: int, newData: Json)
    ensures var n := PlaceholderRow(id, newData).fileName;
      if id >= 0 then AllDigits(n[5..]) && DigitsValue(n[5..]) == id
      else |n| > 6 && n[5] == '-' && AllDigits(n[6..]) && DigitsValue(n[6..]) == -id
  {
    var n := PlaceholderRow(id, newData).fileName;
    if id >= 0 {
      DigitsValueOfNatToString(id);
      assert n[5..] == NatToString(id);
    } else {
      DigitsValueOfNatToString(-id);
      assert n[6..] == NatToString(-id);
    }
  }

  /** One successful PUT on an existing row whose count is not NULL: the count goes up by one,
      the data is replaced, and the diff column holds the diff of this change alone. */
  function UpdatedRow(row: Row, newData: Json, diff: Json): (r: Row)
    requires row.updateCount.Some?
    ensures r.updateCount == Some(row.updateCount.value + 1)
    ensures r.jsonData == newData && r.diffData == Some(diff)
    ensures r == row.(jsonData := r.jsonData, updateCount := r.updateCount, diffData := r.diffData)
  {
    row.(jsonData := newData, updateCount := Some(row.updateCount.value + 1), diffData := Some(diff))
  }

  /** The row after a series of PUTs, each diffing the data it replaces against the new data; a
      PUT whose diff raises changes nothing. */
  function AfterUpdates(row: Row, updates: seq<Json>, computeDiff: (Json, Json) -> Fallible<Json>): Row
    requires row.updateCount.Some?
    decreases |updates|
  {
    if updates == [] then row
    else
      var diff := computeDiff(row.jsonData, updates[0]);
      var next := if diff.Returned? then UpdatedRow(row, updates[0], diff.value) else row;
      AfterUpdates(next, updates[1..], computeDiff)
  }

  /** Whatever the diffs do, a series of N PUTs raises the count by at most N, never lowers it,
      and leaves the name, batch, correlation id and upload time as they were. */
  lemma {:induction false} UpdatesKeepIdentity(row: Row, updates: seq<Json>,
                                               computeDiff: (Json, Json) -> Fallible<Json>)
    requires row.updateCount.Some?
    ensures var r := AfterUpdates(row, updates, computeDiff);
      && r.updateCount.Some?
      && row.updateCount.value <= r.updateCount.value <= row.updateCount.value + |updates|
      && r.fileName == row.fileName && r.requestId == row.requestId
      && r.fileId == row.fileId && r.uploadDateTime == row.uploadDateTime
    decreases |updates|
  {
    if updates != [] {
      var diff := computeDiff(row.jsonData, updates[0]);
      var next := if diff.Returned? then UpdatedRow(row, updates[0], diff.value) else row;
      UpdatesKeepIdentity(next, updates[1..], computeDiff);
    }
  }

  /** When every diff of the series returns, after N updates the count has gone up by exactly N,
      the data is the last value written, and the diff column describes only the last transition,
      not the history. */
  lemma {:induction false} UpdatesCountAndLastDiff(row: Row, updates: seq<Json>,
                                                    computeDiff: (Json, Json) -> Fallible<Json>)
    requires row.updateCount.Some? && |updates| > 0
    requires computeDiff(row.jsonData, updates[0]).Returned?
    requires forall k :: 0 < k < |updates| ==> computeDiff(updates[k - 1], updates[k]).Returned?
    ensures var r := AfterUpdates(row, updates, computeDiff);
      var before := if |updates| == 1 then row.jsonData else updates[|updates| - 2];
      && r.updateCount == Some(row.updateCount.value + |updates|)
      && r.jsonData == updates[|updates| - 1]
      && r.diffData == Some(computeDiff(before, updates[|updates| - 1]).value)
      && r.fileName == row.fileName && r.requestId == row.requestId
      && r.fileId == row.fileId && r.uploadDateTime == row.uploadDateTime
    decreases |updates|
  {
    var next := UpdatedRow(row, updates[0], computeDiff(row.jsonData, updates[0]).value);
    if |updates| > 1 {
      var rest := updates[1..];
      assert computeDiff(next.jsonData, rest[0]).Returned? by {
        assert next.jsonData == updates[0] && rest[0] == updates[1];
      }
      forall k | 0 < k < |rest| ensures computeDiff(rest[k - 1], rest[k]).Returned? {
        assert rest[k - 1] == updates[k] && rest[k] == updates[k + 1];
      }
      UpdatesCountAndLastDiff(next, rest, computeDiff);
      assert rest[|rest| - 1] == updates[|updates| - 1];
      if |updates| == 2 {
        assert next.jsonData == updates[0];
      } else {
        assert rest[|rest| - 2] == updates[|updates| - 2];
      }
    } else {
      assert AfterUpdates(next, updates[1..], computeDiff) == next;
    }
  }
}
