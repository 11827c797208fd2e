/** What repacking retained rows may and may not change. */
module Repacking {
  import opened Basics
  import opened Codec
  import opened ExecutionDb
  import opened Ownership
  import opened Journal

  predicate Legacy(payload: string) {
    StartsWith(payload, LEGACY_PREFIX)
  }

  /** One row before and after an admitted owner's repacking pass. */
  ghost predicate KeepsMeaning(w: Wire, format: int, before: string, after: string) {
    && (!Supported(format) ==> after == before)
    && (Supported(format) ==> !Legacy(after) && Decode(w, after) == Decode(w, before))
    && (!Legacy(before) ==> |after| <= |before|)
    && (StartsWith(before, EVENT_TAG) && !Legacy(before) ==> after == before)
  }

  /** A retained text that is not itself marked as packed survives exactly. */
  lemma RepackKeepsMeaning(w: Wire, payload: string)
    requires Lawful(w) && Candidate(w, payload)
    requires Decode(w, payload).Ok? && Unmarked(Decode(w, payload).value)
    ensures Repack(w, payload).Ok? && KeepsMeaning(w, FORMAT, payload, Repack(w, payload).value)
  {
    EncodeIsLossless(w, Decode(w, payload).value);
  }

  lemma RowKeepsMeaning(w: Wire, roots: map<string, Root>, id: string, payload: string)
    requires Lawful(w) && Sound(w, payload) && id in roots
    ensures RepackRow(w, roots, id, payload).Ok?
    ensures KeepsMeaning(w, roots[id].format, payload, RepackRow(w, roots, id, payload).value)
  {
    JsonIsUnmarked(w, RecordOf(w, payload).value);
    if Candidate(w, payload) && Supported(roots[id].format) {
      RepackKeepsMeaning(w, payload);
    }
  }

  /** After a takeover every row of every execution reads as before; none of a
      supported format is in the retired envelope, and no plain row has grown. */
  lemma TakeoverKeepsMeaning(w: Wire, steps: seq<Step>, id: string, budgeted: bool)
    requires Lawful(w) && AllCooperating(w, steps)
    requires var db := Run(w, EMPTY, steps);
             ValidOwnerId(id) && Decide(db.control, id, db.roots != map[]).Advance? && Claim(w, db, id, budgeted).1.Ok?
    ensures var before := Run(w, EMPTY, steps);
            var after := Claim(w, before, id, budgeted).0;
            && after.records.Keys == before.records.Keys && after.roots == before.roots
            && forall row :: row in before.records ==>
                 row.0 in before.roots && KeepsMeaning(w, before.roots[row.0].format, before.records[row], after.records[row])
  {
    var before := Run(w, EMPTY, steps);
    JournalIsHistory(w, EMPTY, steps);
    forall row | row in before.records ensures RowSurvives(w, before, row) {
      RowKeepsMeaning(w, before.roots, row.0, before.records[row]);
    }
    RepackedRows(w, before.roots, before.records);
    TakeOverRecords(w, before, id, budgeted);
    var after := Claim(w, before, id, budgeted).0;
    forall row | row in before.records
      ensures KeepsMeaning(w, before.roots[row.0].format, before.records[row], after.records[row])
    {
      assert RowSurvives(w, before, row);
    }
  }

  ghost predicate RowSurvives(w: Wire, db: Db, row: (string, int))
    requires row in db.records && row.0 in db.roots
  {
    var r := RepackRow(w, db.roots, row.0, db.records[row]);
    r.Ok? && KeepsMeaning(w, db.roots[row.0].format, db.records[row], r.value)
  }

  lemma TakeOverRecords(w: Wire, db: Db, id: string, budgeted: bool)
    requires ValidOwnerId(id) && Decide(db.control, id, db.roots != map[]).Advance? && Claim(w, db, id, budgeted).1.Ok?
    ensures Repacked(w, db.roots, db.records) == Ok(Claim(w, db, id, budgeted).0.records)
    ensures Claim(w, db, id, budgeted).0.roots == db.roots
  {
    var seated := Seated(db, id);
    assert Claim(w, db, id, budgeted) == TakeOver(w, db, id, budgeted);
    assert Prepare(w, seated, budgeted).Ok?;
    ReconciledKeeps(seated);
  }

  /** What the pass leaves of one row, told from the row alone: a row in the retired
      envelope is packed anew; a plain record other than an event, 4096 characters or
      longer, is packed if that makes it shorter; nothing else is touched, nor is any
      row of an unsupported format. */
  lemma RepackedRowExactly(w: Wire, roots: map<string, Root>, id: string, payload: string)
    requires id in roots
    ensures var r := RepackRow(w, roots, id, payload);
            var (supported, retired) := (2 <= roots[id].format <= 7, StartsWith(payload, "bro-zstd-v1:"));
            var long := StartsWith(payload, "{\"record\":") && !StartsWith(payload, "{\"record\":\"thread_event\",") && w.chars(payload) >= 4096;
            && (!supported || (!retired && !long) ==> r == Ok(payload))
            && (supported && (retired || long) && Decode(w, payload).Err? ==> r == Err)
            && (supported && retired && Decode(w, payload).Ok? ==> r == Ok(Encode(w, Decode(w, payload).value)))
            && (supported && !retired && long ==>
                  r == Ok(if |Encode(w, payload)| < |payload| then Encode(w, payload) else payload))
  {
    hide Encode;
    if StartsWith(payload, RECORD_TAG) {
      assert payload[0] == '{' && PREFIX[0] == 'b' && LEGACY_PREFIX[0] == 'b';
    }
  }

  /** A selected row the pass cannot handle. */
  predicate Unusable(w: Wire, db: Db, row: (string, int))
    requires row in db.records
  {
    Candidate(w, db.records[row]) && (row.0 !in db.roots || (Supported(db.roots[row.0].format) && Decode(w, db.records[row]).Err?))
  }

  ghost predicate AnyUnusable(w: Wire, db: Db) {
    exists row :: row in db.records && Unusable(w, db, row)
  }

  lemma RepackedExactly(w: Wire, db: Db)
    ensures Repacked(w, db.roots, db.records).Err? <==> AnyUnusable(w, db)
  {
    forall row | row in db.records ensures RepackRow(w, db.roots, row.0, db.records[row]).Err? <==> Unusable(w, db, row) {
    }
    hide RepackRow, Unusable;
  }

  /** A takeover fails exactly when generations are exhausted, the instance has
      owned before, the repair's estimate overflows, or a selected row is missing
      its root or undecodable; then every table is as it was. */
  lemma TakeoverFailsExactly(w: Wire, db: Db, id: string, budgeted: bool)
    requires Elected(db) && ValidOwnerId(id) && Decide(db.control, id, db.roots != map[]).Advance?
    ensures Claim(w, db, id, budgeted).1.Err? <==>
            || db.control.generation == I64_MAX || Retired(db.owners, id)
            || (budgeted && RootBytes(w, Missing(db)) > USIZE_MAX) || AnyUnusable(w, db)
    ensures Claim(w, db, id, budgeted).1.Err? ==> Claim(w, db, id, budgeted).0 == db
  {
    RepackedExactly(w, db);
    hide AnyUnusable, Reconciled, RootBytes, Repacked, Retired;
    assert Claim(w, db, id, budgeted) == TakeOver(w, db, id, budgeted);
    assert Missing(Seated(db, id)) == Missing(db);
  }

  /** Rows of a store's own making are never the reason. */
  lemma ReachableRowsAreUsable(w: Wire, steps: seq<Step>)
    requires Lawful(w) && AllCooperating(w, steps)
    ensures !AnyUnusable(w, Run(w, EMPTY, steps))
  {
    JournalIsHistory(w, EMPTY, steps);
    var db := Run(w, EMPTY, steps);
    forall row | row in db.records ensures !Unusable(w, db, row) {
      RowKeepsMeaning(w, db.roots, row.0, db.records[row]);
    }
  }

  /** A second pass finds nothing to do. */
  lemma RepackIsIdempotent(w: Wire, roots: map<string, Root>, id: string, payload: string)
    requires Lawful(w) && Sound(w, payload) && id in roots
    ensures var once := RepackRow(w, roots, id, payload).value;
            RepackRow(w, roots, id, payload).Ok? && RepackRow(w, roots, id, once) == Ok(once)
  {
    RowKeepsMeaning(w, roots, id, payload);
    var text := Decode(w, payload).value;
    JsonIsUnmarked(w, RecordOf(w, payload).value);
    EncodeIsLossless(w, text);
    var once := RepackRow(w, roots, id, payload).value;
    if Candidate(w, payload) && Supported(roots[id].format) && once != payload {
      assert once == Encode(w, text);
      if Encode(w, text) != text {
        assert once[0] == PREFIX[0] && RECORD_TAG[0] == '{' && LEGACY_PREFIX[10] == '1' && once[10] == PREFIX[10];
        assert !Candidate(w, once);
      }
    }
  }
}
