/** What the store's keyset loops keep: the pages of roots without an index entry,
    the walk over matching rows, and the rows of one execution read in order. */
module Keyset {
  import opened Basics
  import opened Codec
  import opened ExecutionDb
  import opened ExecutionPages
  import opened Paging

  predicate Follows(cursor: Option<(string, int)>, row: (string, int)) {
    cursor.None? || RowBefore(cursor.value, row)
  }

  lemma {:induction false} AssignKeys(missing: set<string>, next: int)
    ensures forall p :: p in Assign(missing, next) <==> next <= p < next + |missing|
    decreases |missing|
  {
    if missing != {} {
      AssignKeys(missing - {LeastId(missing)}, next + 1);
    }
  }

  /** One step of the repair: the first missing id takes the next position. */
  lemma AssignFirst(index: map<int, string>, id: string, missing: set<string>, next: int)
    requires missing != {} && id == LeastId(missing)
    ensures Extended(index, missing, next) == Extended(index[next := id], missing - {id}, next + 1)
    ensures |missing - {id}| == |missing| - 1
  {
    AssignKeys(missing - {id}, next + 1);
  }

  lemma AssignNone(index: map<int, string>, next: int)
    ensures Extended(index, {}, next) == index
  {
  }

  /** The first rows of `pending` in keyset order. */
  ghost predicate KeysetPage(rows: seq<string>, pending: set<string>) {
    && (forall k :: 0 <= k < |rows| ==> rows[k] in pending)
    && (forall j, k :: 0 <= j < k < |rows| ==> Before(rows[j], rows[k]))
    && (forall x, k :: x in pending && x !in rows && 0 <= k < |rows| ==> Before(rows[k], x))
  }

  lemma KeysetExtend(rows: seq<string>, pending: set<string>, left: set<string>, id: string)
    requires KeysetPage(rows, pending)
    requires forall x :: x in left <==> x in pending && x !in rows
    requires id in left && forall x :: x in left && x != id ==> Before(id, x)
    ensures KeysetPage(rows + [id], pending)
  {
  }

  /** The keyset filter: what is left after a cursor. */
  function Past(missing: set<string>, after: Option<string>): set<string> {
    set id | id in missing && (after.None? || Before(after.value, id))
  }

  ghost predicate Remaining(pending: set<string>, page: set<string>, rows: seq<string>, i: nat)
    requires i <= |rows|
  {
    forall x :: x in pending <==> x in page && x !in rows[..i]
  }

  /** Reading one more row of a page: it is the least left, the filter on it
      leaves exactly the rest, and the measured total loses exactly its size. */
  lemma MeasureStep(w: Wire, rows: seq<string>, i: nat, page: set<string>, missing: set<string>, after: Option<string>, pending: set<string>)
    requires KeysetPage(rows, page) && i < |rows|
    requires Remaining(pending, page, rows, i) && pending == Past(missing, after)
    ensures rows[i] in pending
    ensures pending - {rows[i]} == Past(missing, Some(rows[i]))
    ensures Remaining(pending - {rows[i]}, page, rows, i + 1)
    ensures RootBytes(w, pending) == w.rootSize(rows[i]) + RootBytes(w, pending - {rows[i]})
  {
    hide RootBytes, Before;
    var id := rows[i];
    BeforeIrreflexive(id);
    assert rows == rows[..i] + rows[i..];
    forall x | x in pending && x != id ensures Before(id, x) {
      if x in rows {
        var j :| 0 <= j < |rows| && rows[j] == x;
      }
    }
    RootBytesFirst(w, id, pending);
    assert rows[..i + 1] == rows[..i] + [id];
    forall x | x in missing && Before(id, x) ensures x in pending {
      if after.Some? { BeforeTransitive(after.value, id, x); }
    }
  }

  lemma RootBytesFirst(w: Wire, id: string, pending: set<string>)
    requires id in pending && forall x :: x in pending && x != id ==> Before(id, x)
    ensures RootBytes(w, pending) == w.rootSize(id) + RootBytes(w, pending - {id})
  {
    LeastIdUnique(id, pending);
  }

  ghost function Ahead(start: map<(string, int), string>, cursor: Option<(string, int)>): set<(string, int)> {
    set row | row in start && Follows(cursor, row)
  }

  /** The keyset walk so far: rows up to the cursor are done, the rest untouched,
      and the rows taken are ascending matching rows ending at the cursor. */
  ghost predicate Walked(w: Wire, roots: map<string, Root>, start: map<(string, int), string>, now: map<(string, int), string>,
                         cursor: Option<(string, int)>, handled: seq<(string, int)>) {
    && now.Keys == start.Keys
    && (forall row :: row in start && Follows(cursor, row) ==> now[row] == start[row])
    && (forall row :: row in start && !Follows(cursor, row) ==>
          RepackRow(w, roots, row.0, start[row]) == Ok(now[row]) && (Candidate(w, start[row]) ==> row in handled))
    && (forall i, j :: 0 <= i < j < |handled| ==> RowBefore(handled[i], handled[j]))
    && (forall i :: 0 <= i < |handled| ==> handled[i] in start && Candidate(w, start[handled[i]]))
    && (if handled == [] then cursor.None? else cursor == Some(handled[|handled| - 1]))
  }

  /** Taking the least matching row past the cursor passes over non-matching rows only. */
  lemma WalkStep(w: Wire, roots: map<string, Root>, start: map<(string, int), string>, now: map<(string, int), string>,
                 cursor: Option<(string, int)>, handled: seq<(string, int)>, row: (string, int), matching: set<(string, int)>)
    requires Walked(w, roots, start, now, cursor, handled)
    requires matching == set r | r in now && Follows(cursor, r) && Candidate(w, now[r])
    requires row in matching && forall x :: x in matching && x != row ==> RowBefore(row, x)
    ensures now[row] == start[row] && Ahead(start, Some(row)) < Ahead(start, cursor)
    ensures forall i, j :: 0 <= i < j < |handled| + 1 ==> RowBefore((handled + [row])[i], (handled + [row])[j])
    ensures RepackRow(w, roots, row.0, start[row]).Err? ==> Repacked(w, roots, start).Err?
    ensures RepackRow(w, roots, row.0, start[row]).Ok? ==>
              Walked(w, roots, start, now[row := RepackRow(w, roots, row.0, start[row]).value], Some(row), handled + [row])
  {
    hide Repack, Candidate, RowBefore;
    RowBeforeIsStrictOrder();
    assert row in Ahead(start, cursor) && row !in Ahead(start, Some(row));
    forall r | r in start && Follows(cursor, r) && !Follows(Some(row), r) && r != row ensures !Candidate(w, start[r]) {
      assert r !in matching;
    }
  }

  lemma WalkEnd(w: Wire, roots: map<string, Root>, start: map<(string, int), string>, now: map<(string, int), string>,
                cursor: Option<(string, int)>, handled: seq<(string, int)>)
    requires Walked(w, roots, start, now, cursor, handled)
    requires forall row :: row in now && Follows(cursor, row) ==> !Candidate(w, now[row])
    ensures Repacked(w, roots, start) == Ok(now)
    ensures forall row :: row in start && Candidate(w, start[row]) ==> row in handled
  {
    assert forall row :: row in start ==> RepackRow(w, roots, row.0, start[row]) == Ok(now[row]);
    assert Repacked(w, roots, start).value == now;
  }

  function FirstRows(id: string, version: nat): set<(string, int)> {
    if version == 0 then {} else FirstRows(id, version - 1) + {(id, version)}
  }

  lemma {:induction false} FirstRowsCount(id: string, version: nat)
    ensures |FirstRows(id, version)| == version
    ensures forall row: (string, int) :: row in FirstRows(id, version) <==> row.0 == id && 1 <= row.1 <= version
  {
    if version > 0 {
      FirstRowsCount(id, version - 1);
      forall row: (string, int) | row.0 == id && row.1 == version ensures row == (id, version) { assert row == (row.0, row.1); }
    }
  }

  lemma CompleteCount(w: Wire, db: Db, id: string, version: nat, rows: set<(string, int)>)
    requires rows == set row | row in db.records && row.0 == id
    ensures Complete(w, db, id, version) ==> |rows| == version
  {
    if Complete(w, db, id, version) {
      FirstRowsCount(id, version);
      forall row: (string, int) | row in FirstRows(id, version) ensures row in rows {
        assert RecordItem(w, db.records, id, row.1).Item? && row == (id, row.1);
      }
      assert rows == FirstRows(id, version);
    }
  }

  /** Rows 1..n are loaded; `left` is every other row of the execution. */
  ghost predicate LoadedSoFar(w: Wire, records: map<(string, int), string>, id: string, left: set<(string, int)>, loaded: seq<Record>) {
    && left == (set row | row in records && row.0 == id && !(1 <= row.1 <= |loaded|))
    && forall i :: 0 <= i < |loaded| ==> LoadedAt(w, records, id, i, loaded[i])
  }

  ghost predicate LoadedAt(w: Wire, records: map<(string, int), string>, id: string, i: nat, record: Record) {
    RecordItem(w, records, id, i + 1).Item? && RecordItem(w, records, id, i + 1).value == record
  }

  lemma LoadNext(w: Wire, db: Db, id: string, version: nat, left: set<(string, int)>, loaded: seq<Record>, row: (string, int))
    requires LoadedSoFar(w, db.records, id, left, loaded) && |loaded| < version
    requires row in left && forall x :: x in left && x != row ==> RowBefore(row, x)
    ensures Complete(w, db, id, version) ==> row.1 == |loaded| + 1
    ensures row == (id, row.1)
    ensures row.1 == |loaded| + 1 ==>
              && (RecordItem(w, db.records, id, row.1).Item? ==>
                    LoadedSoFar(w, db.records, id, left - {row}, loaded + [RecordItem(w, db.records, id, row.1).value]))
              && (!RecordItem(w, db.records, id, row.1).Item? ==> !Complete(w, db, id, version))
  {
    assert row == (row.0, row.1);
    if Complete(w, db, id, version) {
      BeforeIrreflexive(id);
      assert RecordItem(w, db.records, id, |loaded| + 1).Item?;
      assert (id, |loaded| + 1) in left;
    }
    forall r: (string, int) | r in left && r != row ensures r.1 != row.1 {
      assert r == (r.0, r.1);
    }
    if row.1 == |loaded| + 1 && RecordItem(w, db.records, id, row.1).Item? {
      var next := loaded + [RecordItem(w, db.records, id, row.1).value];
      forall i | 0 <= i < |next| ensures LoadedAt(w, db.records, id, i, next[i]) {
        assert i < |loaded| ==> LoadedAt(w, db.records, id, i, loaded[i]);
      }
    }
  }

  lemma LoadDone(w: Wire, db: Db, id: string, version: nat, loaded: seq<Record>)
    requires LoadedSoFar(w, db.records, id, {}, loaded) && |loaded| == version
    ensures Complete(w, db, id, version)
    ensures loaded == Prefix(RecordItems(w, db.records, id, 0, version), version)
  {
    ghost var left := set r | r in db.records && r.0 == id && !(1 <= r.1 <= |loaded|);
    forall row | row in db.records && row.0 == id ensures 1 <= row.1 <= version {
      assert row !in left;
    }
    forall n | 1 <= n <= version ensures RecordItem(w, db.records, id, n).Item? {
      assert LoadedAt(w, db.records, id, n - 1, loaded[n - 1]);
    }
    assert forall i :: 0 <= i < version ==> LoadedAt(w, db.records, id, i, loaded[i]);
  }

  /** `ORDER BY execution_id, sequence LIMIT 1`. */
  method FirstRow(rows: set<(string, int)>) returns (row: (string, int))
    requires rows != {}
    ensures row in rows && forall x :: x in rows && x != row ==> RowBefore(row, x)
  {
    ghost var least := LeastRow(rows);
    row :| row in rows && forall x :: x in rows && x != row ==> RowBefore(row, x);
  }

  lemma ReconciledTables(db: Db, entries: map<int, string>, next: int)
    requires entries == Extended(db.index, Missing(db), db.nextPosition) && next == db.nextPosition + |Missing(db)|
    ensures Reconciled(db) == db.(index := entries, nextPosition := next)
  {
  }

  /** `INSERT ... SELECT id ... ORDER BY id` into the auto-increment index. */
  method InsertSelect(index: map<int, string>, missing: set<string>, position: int)
    returns (entries: map<int, string>, next: int)
    ensures entries == Extended(index, missing, position) && next == position + |missing|
  {
    hide Extended, Before;
    var left := missing;
    entries, next := index, position;
    while left != {}
      invariant next + |left| == position + |missing|
      invariant Extended(entries, left, next) == Extended(index, missing, position)
      decreases left
    {
      var id := FirstId(left);
      AssignFirst(entries, id, left, next);
      entries, next, left := entries[next := id], next + 1, left - {id};
    }
    AssignNone(entries, next);
  }
}
