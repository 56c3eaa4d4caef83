/** The `documents` table as the handlers change it: rows keyed by an auto-increment primary key,
    a full scan returning them in key order. */
module Store {
  import opened Common
  import opened Errors
  import opened Documents
  import opened Ingestion

  /** The records of `rows` in the order `order` lists their keys. */
  function Records(order: seq<int>, rows: map<int, Row>): (rs: seq<Record>)
    requires forall i :: 0 <= i < |order| ==> order[i] in rows
    ensures |rs| == |order|
    ensures forall i :: 0 <= i < |order| ==> rs[i] == Record(order[i], rows[order[i]])
  {
    if order == [] then []
    else Records(order[..|order| - 1], rows) + [Record(order[|order| - 1], rows[order[|order| - 1]])]
  }

  /** The keys of `order` that are not listed in `ids`, in order. */
  function KeepKeys(order: seq<int>, ids: seq<int>): (kept: seq<int>)
    ensures forall k :: k in kept <==> k in order && k !in ids
  {
    if order == [] then []
    else
      var init := KeepKeys(order[..|order| - 1], ids);
      var last := order[|order| - 1];
      assert forall k :: k in order[..|order| - 1] ==> k in order;
      if last in ids then init else init + [last]
  }

  lemma {:induction false} KeepKeysIncreasing(order: seq<int>, ids: seq<int>)
    requires forall i, j :: 0 <= i < j < |order| ==> order[i] < order[j]
    ensures forall i, j :: 0 <= i < j < |KeepKeys(order, ids)| ==>
              KeepKeys(order, ids)[i] < KeepKeys(order, ids)[j]
    decreases |order|
  {
    if order != [] {
      var prefix := order[..|order| - 1];
      var last := order[|order| - 1];
      KeepKeysIncreasing(prefix, ids);
      var init := KeepKeys(prefix, ids);
      forall i | 0 <= i < |init| ensures init[i] < last {
        assert init[i] in prefix;
        var k :| 0 <= k < |prefix| && prefix[k] == init[i];
        assert order[k] == prefix[k];
      }
      var kept := KeepKeys(order, ids);
      assert kept == if last in ids then init else init + [last];
      forall i, j | 0 <= i < j < |kept| ensures kept[i] < kept[j] {
        if j < |init| {
          assert kept[i] == init[i] && kept[j] == init[j];
          assert init[i] < init[j];
        } else {
          assert kept[i] == init[i] && kept[j] == last;
          assert init[i] < last;
        }
      }
    }
  }

  /** The records whose key is not listed in `ids`, in order. */
  function WithoutIds(rs: seq<Record>, ids: seq<int>): (kept: seq<Record>)
    ensures forall r :: r in kept <==> r in rs && r.id !in ids
  {
    if rs == [] then []
    else
      var init := WithoutIds(rs[..|rs| - 1], ids);
      if rs[|rs| - 1].id in ids then init else init + [rs[|rs| - 1]]
  }

  lemma {:induction false} RecordsOfKept(order: seq<int>, rows: map<int, Row>, ids: seq<int>,
                                         kept: map<int, Row>)
    requires forall i :: 0 <= i < |order| ==> order[i] in rows
    requires kept == Dropping(rows, ids)
    ensures forall i :: 0 <= i < |KeepKeys(order, ids)| ==> KeepKeys(order, ids)[i] in kept
    ensures Records(KeepKeys(order, ids), kept) == WithoutIds(Records(order, rows), ids)
    decreases |order|
  {
    assert forall k :: k in KeepKeys(order, ids) ==> k in order;
    if order != [] {
      var init := order[..|order| - 1];
      RecordsOfKept(init, rows, ids, kept);
      assert Records(order, rows)[..|order| - 1] == Records(init, rows);
    }
  }

  lemma {:induction false} RecordsUnaffected(order: seq<int>, rows: map<int, Row>, k: int, row: Row)
    requires forall i :: 0 <= i < |order| ==> order[i] in rows
    requires k !in order
    ensures Records(order, rows[k := row]) == Records(order, rows)
  {
  }

  /** Two sequence facts RunBackgroundTasks uses, stated on their own so that its proof stays small. */
  lemma AppendAssociates(a: seq<Record>, b: seq<Record>, r: Record)
    ensures a + b + [r] == a + (b + [r])
  {
  }

  lemma RowsOfSnoc(rs: seq<Record>, r: Record)
    ensures RowsOf(rs + [r]) == RowsOf(rs) + [r.row]
  {
  }

  lemma PersistedStep(tasks: seq<Task>, i: nat, s: Services)
    requires i < |tasks|
    ensures Persisted(tasks[..i + 1], s) ==
              Persisted(tasks[..i], s)
              + (if Ingest(tasks[i], s).Inserted? then [Ingest(tasks[i], s).row] else [])
  {
    assert tasks[..i + 1][..i] == tasks[..i];
  }

  /** The rows whose key is not listed in `ids`. */
  function Dropping(rows: map<int, Row>, ids: seq<int>): (kept: map<int, Row>)
    ensures forall k :: k in kept <==> k in rows && k !in ids
    ensures forall k :: k in kept ==> kept[k] == rows[k]
  {
    map k | k in rows && k !in ids :: rows[k]
  }

  /** The keys below the counter, ascending and each with its row, name every row. */
  ghost predicate WellKeyed(order: seq<int>, rows: map<int, Row>, nextId: int)
  {
    && 0 < nextId
    && (forall i, j :: 0 <= i < j < |order| ==> order[i] < order[j])
    && (forall i :: 0 <= i < |order| ==> 0 < order[i] < nextId && order[i] in rows)
    && (forall k :: k in rows ==> k in order)
  }

  /** Deleting the rows under `ids` keeps the table well keyed, and its scan loses exactly the
      records under those keys. */
  lemma DeletionKeepsKeys(order: seq<int>, rows: map<int, Row>, nextId: int, ids: seq<int>)
    requires WellKeyed(order, rows, nextId)
    ensures WellKeyed(KeepKeys(order, ids), Dropping(rows, ids), nextId)
    ensures Records(KeepKeys(order, ids), Dropping(rows, ids))
              == WithoutIds(Records(order, rows), ids)
  {
    var kept := Dropping(rows, ids);
    var keptOrder := KeepKeys(order, ids);
    RecordsOfKept(order, rows, ids, kept);
    KeepKeysIncreasing(order, ids);
    forall i | 0 <= i < |keptOrder| ensures 0 < keptOrder[i] < nextId {
      assert keptOrder[i] in order;
    }
  }

  /** The reply of PUT /file/{file_id}. */
  datatype UpdateReply = UpdateReply(message: string, updatedData: Json, diff: Json)

  const UpdatedMessage := "JSON data updated successfully"
  const DeletedMessage := "Selected files deleted successfully"
  /** The TypeError of `update_count += 1` on a NULL count. */
  const NullCountIncrement := "unsupported operand type(s) for +=: 'NoneType' and 'int'"

  class DocumentTable {
    /** The rows, by primary key. */
    var rows: map<int, Row>
    /** The keys in the order a full scan returns them (ascending). */
    var order: seq<int>
    /** The next value of the auto-increment counter. */
    var nextId: int

    ghost predicate Valid()
      reads this
    {
      WellKeyed(order, rows, nextId)
    }

    /** A full scan of the table. */
    function Listing(): seq<Record>
      reads this
      requires Valid()
    {
      Records(order, rows)
    }

    /** An empty table whose counter starts at 1. */
    constructor ()
      ensures Valid() && rows == map[] && order == [] && nextId == 1
    {
      rows := map[];
      order := [];
      nextId := 1;
    }

    /** An INSERT: the row goes under the next auto-increment key, no existing row changes, and
        the scan sees it last. */
    method Insert(row: Row) returns (id: int)
      requires Valid()
      modifies this
      ensures Valid()
      ensures id == old(nextId) && id !in old(rows) && nextId == old(nextId) + 1
      ensures rows == old(rows)[id := row]
      ensures Listing() == old(Listing()) + [Record(id, row)]
    {
      id := nextId;
      RecordsUnaffected(order, rows, id, row);
      rows := rows[id := row];
      order := order + [id];
      nextId := nextId + 1;
      assert Records(order, rows)[..|order| - 1] == Records(order[..|order| - 1], rows);
      assert order[..|order| - 1] == old(order);
    }

    /** PUT /file/{file_id} (update_file_json): read-modify-write of one row, or an insert when
        the id has no row. The diff is computed before the count is incremented, so a raising
        diff is reported even on a NULL count; any failure commits nothing. */
    method UpdateFileJson(fileId: int, newData: Json, computeDiff: (Json, Json) -> Fallible<Json>)
      returns (reply: HttpResult<UpdateReply>)
      requires Valid()
      modifies this
      ensures Valid()
      ensures fileId in old(rows) && computeDiff(old(rows)[fileId].jsonData, newData).Raised? ==>
                var e := computeDiff(old(rows)[fileId].jsonData, newData).exception;
                && rows == old(rows) && order == old(order) && nextId == old(nextId)
                && reply == Err(500, ExceptionText(e))
      ensures fileId in old(rows) && computeDiff(old(rows)[fileId].jsonData, newData).Returned?
              && old(rows)[fileId].updateCount.Some? ==>
                var diff := computeDiff(old(rows)[fileId].jsonData, newData).value;
                && rows == old(rows)[fileId := UpdatedRow(old(rows)[fileId], newData, diff)]
                && order == old(order) && nextId == old(nextId)
                && reply == Ok(UpdateReply(UpdatedMessage, newData, diff))
      ensures fileId in old(rows) && computeDiff(old(rows)[fileId].jsonData, newData).Returned?
              && old(rows)[fileId].updateCount.None? ==>
                && rows == old(rows) && order == old(order) && nextId == old(nextId)
                && reply == Err(500, NullCountIncrement)
      ensures fileId !in old(rows) ==>
                && old(nextId) !in old(rows)
                && rows == old(rows)[old(nextId) := PlaceholderRow(fileId, newData)]
                && nextId == old(nextId) + 1
                && Listing() == old(Listing()) + [Record(old(nextId), PlaceholderRow(fileId, newData))]
                && reply == Ok(UpdateReply(UpdatedMessage, newData, EmptyObject))
    {
      if fileId in rows {
        var current := rows[fileId];
        var diff := computeDiff(current.jsonData, newData);
        if diff.Raised? {
          reply := CatchAll(Raised(diff.exception));
          return;
        }
        if current.updateCount.None? {
          reply := CatchAll(Raised(Error(NullCountIncrement)));
          return;
        }
        rows := rows[fileId := UpdatedRow(current, newData, diff.value)];
        reply := Ok(UpdateReply(UpdatedMessage, newData, diff.value));
      } else {
        var _ := Insert(PlaceholderRow(fileId, newData));
        reply := Ok(UpdateReply(UpdatedMessage, newData, EmptyObject));
      }
    }

    /** process_file_background against this table: the pipeline's row is inserted when every
        step succeeds; otherwise nothing changes, and nothing is raised either way. */
    method ProcessFileBackground(t: Task, s: Services) returns (outcome: Outcome)
      requires Valid()
      modifies this
      ensures Valid()
      ensures outcome == Ingest(t, s)
      ensures outcome.Inserted? ==>
                && old(nextId) !in old(rows)
                && rows == old(rows)[old(nextId) := outcome.row]
                && nextId == old(nextId) + 1
                && Listing() == old(Listing()) + [Record(old(nextId), outcome.row)]
      ensures outcome.Dropped? ==>
                rows == old(rows) && order == old(order) && nextId == old(nextId)
    {
      outcome := Ingest(t, s);
      if outcome.Inserted? {
        var _ := Insert(outcome.row);
      }
    }

    /** The scheduled tasks of one upload, run one after another once the reply is sent: the
        rows already there stay as they were, and the scan gains exactly the rows of the tasks
        that succeeded, in task order (`added` names the new records). */
    method RunBackgroundTasks(tasks: seq<Task>, s: Services) returns (ghost added: seq<Record>)
      requires Valid()
      modifies this
      ensures Valid()
      ensures Listing() == old(Listing()) + added
      ensures RowsOf(added) == Persisted(tasks, s)
      ensures forall k :: k in old(rows) ==> k in rows && rows[k] == old(rows)[k]
    {
      added := [];
      var i := 0;
      while i < |tasks|
        invariant 0 <= i <= |tasks|
        invariant Valid()
        invariant Listing() == old(Listing()) + added
        invariant RowsOf(added) == Persisted(tasks[..i], s)
        invariant forall k :: k in old(rows) ==> k in rows && rows[k] == old(rows)[k]
      {
        ghost var id := nextId;
        var outcome := ProcessFileBackground(tasks[i], s);
        PersistedStep(tasks, i, s);
        if outcome.Inserted? {
          var record := Record(id, outcome.row);
          RowsOfSnoc(added, record);
          AppendAssociates(old(Listing()), added, record);
          added := added + [record];
        }
        i := i + 1;
      }
      assert tasks[..i] == tasks;
    }

    /** DELETE /delete/: the rows under the listed keys go, keys without a row are ignored, every
        other row stays, and the reply is the same success message whatever matched. */
    method DeleteFiles(ids: seq<int>) returns (message: string)
      requires Valid()
      modifies this
      ensures Valid()
      ensures rows == Dropping(old(rows), ids)
      ensures Listing() == WithoutIds(old(Listing()), ids)
      ensures nextId == old(nextId)
      ensures message == DeletedMessage
    {
      DeletionKeepsKeys(order, rows, nextId, ids);
      rows := Dropping(rows, ids);
      order := KeepKeys(order, ids);
      message := DeletedMessage;
    }
  }
}
