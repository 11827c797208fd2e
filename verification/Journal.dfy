/** An execution's rows are the concatenation, in commit order, of its
    successful batches, whatever else happens to the store. */
module Journal {
  import opened Basics
  import opened Codec
  import opened ExecutionDb
  import opened ExecutionPages
  import opened Paging
  import opened Ownership

  function RecordOf(w: Wire, payload: string): Option<Record> {
    match Decode(w, payload)
    case Err => None
    case Ok(text) => w.parse(text)
  }

  /** The payload stores exactly one record, in plain, packed or legacy form. */
  ghost predicate Sound(w: Wire, payload: string) {
    RecordOf(w, payload).Some? && Stores(w, payload, RecordOf(w, payload).value)
  }

  ghost predicate Journaled(w: Wire, db: Db) {
    && (forall id :: id in db.roots ==> 1 <= db.roots[id].version <= I64_MAX)
    && (forall row :: row in db.records <==> row.0 in db.roots && 1 <= row.1 <= db.roots[row.0].version)
    && (forall row :: row in db.records ==> Sound(w, db.records[row]))
  }

  ghost function Version(db: Db, id: string): (v: int) {
    if id in db.roots then db.roots[id].version else 0
  }

  ghost function RecordAt(w: Wire, db: Db, id: string, n: int): Record
    requires Journaled(w, db) && 1 <= n <= Version(db, id)
  {
    assert (id, n) in db.records;
    RecordOf(w, db.records[(id, n)]).value
  }

  /** The execution's facts, independent of how rows are encoded. */
  ghost function Facts(w: Wire, db: Db, id: string): (facts: seq<Record>)
    requires Journaled(w, db)
    ensures |facts| == Version(db, id)
    ensures forall i :: 0 <= i < |facts| ==> facts[i] == RecordAt(w, db, id, i + 1)
  {
    seq(Version(db, id), i requires 0 <= i < Version(db, id) => RecordAt(w, db, id, i + 1))
  }

  // ---- Single steps ------------------------------------------------------

  lemma {:induction false} InsertRowsMeaning(records: map<(string, int), string>, id: string, expected: int, payloads: seq<string>)
    ensures InsertRows(records, id, expected, payloads).Some? <==>
            forall k :: expected < k <= expected + |payloads| ==> (id, k) !in records
    ensures InsertRows(records, id, expected, payloads).Some? ==>
              var after := InsertRows(records, id, expected, payloads).value;
              && (forall row :: row in after <==> row in records || (row.0 == id && expected < row.1 <= expected + |payloads|))
              && (forall row :: row in records ==> after[row] == records[row])
              && (forall row :: row in after && row !in records ==> after[row] == payloads[row.1 - expected - 1])
    decreases |payloads|
  {
    if payloads != [] {
      var last := |payloads| - 1;
      InsertRowsMeaning(records, id, expected, payloads[..last]);
      assert forall row: (string, int) :: row == (row.0, row.1);
      if InsertRows(records, id, expected, payloads[..last]).Some? {
        assert (id, expected + last + 1) in records <==> (id, expected + last + 1) in InsertRows(records, id, expected, payloads[..last]).value;
      }
    }
  }

  /** Repacking a row keeps the record it stores and never fails on a sound row. */
  lemma RepackStores(w: Wire, payload: string, record: Record)
    requires Lawful(w) && Stores(w, payload, record)
    ensures Repack(w, payload).Ok? && Stores(w, Repack(w, payload).value, record)
  {
    RecordRoundTrip(w, record);
  }

  lemma StoresIsSound(w: Wire, payload: string, record: Record)
    requires Lawful(w) && Stores(w, payload, record)
    ensures Sound(w, payload) && RecordOf(w, payload) == Some(record)
  {
  }

  lemma RepackRowSound(w: Wire, roots: map<string, Root>, id: string, payload: string)
    requires Lawful(w) && Sound(w, payload) && id in roots
    ensures RepackRow(w, roots, id, payload).Ok?
    ensures Sound(w, RepackRow(w, roots, id, payload).value)
    ensures RecordOf(w, RepackRow(w, roots, id, payload).value) == RecordOf(w, payload)
  {
    RepackStores(w, payload, RecordOf(w, payload).value);
    if Candidate(w, payload) && Supported(roots[id].format) {
      StoresIsSound(w, Repack(w, payload).value, RecordOf(w, payload).value);
    }
  }

  /** Same roots, same rows, same record in every row. */
  ghost predicate SameFacts(w: Wire, a: Db, b: Db)
    requires Journaled(w, a)
  {
    && a.roots == b.roots
    && a.records.Keys == b.records.Keys
    && forall row :: row in a.records ==> Sound(w, b.records[row]) && RecordOf(w, b.records[row]) == RecordOf(w, a.records[row])
  }

  lemma SameFactsKeepJournal(w: Wire, a: Db, b: Db)
    requires Journaled(w, a) && SameFacts(w, a, b)
    ensures Journaled(w, b) && forall id :: Facts(w, b, id) == Facts(w, a, id)
  {
    assert Journaled(w, b) by {
      forall row ensures row in b.records <==> row.0 in b.roots && 1 <= row.1 <= b.roots[row.0].version {
        assert row in a.records.Keys <==> row in b.records.Keys;
      }
    }
    forall id ensures Facts(w, b, id) == Facts(w, a, id) {
      forall n | 1 <= n <= Version(a, id) ensures RecordAt(w, b, id, n) == RecordAt(w, a, id, n) {
        assert (id, n) in a.records;
      }
    }
  }

  lemma SameRowsSameFacts(w: Wire, a: Db, b: Db)
    requires Journaled(w, a) && a.roots == b.roots && a.records == b.records
    ensures SameFacts(w, a, b)
  {
  }

  lemma ClaimKeepsFacts(w: Wire, db: Db, id: string, budgeted: bool)
    requires Lawful(w) && Journaled(w, db)
    ensures SameFacts(w, db, Claim(w, db, id, budgeted).0)
  {
    var after := Claim(w, db, id, budgeted).0;
    if ValidOwnerId(id) && Decide(db.control, id, db.roots != map[]).Advance? {
      TakeOverKeepsFacts(w, db, id, budgeted);
    } else {
      SameRowsSameFacts(w, db, after);
    }
  }

  lemma TakeOverKeepsFacts(w: Wire, db: Db, id: string, budgeted: bool)
    requires Lawful(w) && Journaled(w, db)
    ensures SameFacts(w, db, TakeOver(w, db, id, budgeted).0)
  {
    var seated := Seated(db, id);
    SameRowsSameFacts(w, db, db);
    SameRowsSameFacts(w, db, seated);
    SameFactsKeepJournal(w, db, seated);
    PrepareKeepsFacts(w, seated, budgeted);
  }

  lemma RepackedRows(w: Wire, roots: map<string, Root>, records: map<(string, int), string>)
    requires forall row :: row in records ==> RepackRow(w, roots, row.0, records[row]).Ok?
    ensures Repacked(w, roots, records).Ok?
    ensures Repacked(w, roots, records).value.Keys == records.Keys
    ensures forall row :: row in records ==> RepackRow(w, roots, row.0, records[row]) == Ok(Repacked(w, roots, records).value[row])
  {
  }

  lemma PrepareKeepsFacts(w: Wire, db: Db, budgeted: bool)
    requires Lawful(w) && Journaled(w, db)
    ensures Repacked(w, db.roots, db.records).Ok?
    ensures Prepare(w, db, budgeted).Ok? ==> SameFacts(w, db, Prepare(w, db, budgeted).value)
  {
    hide RepackRow, Sound, Lawful, RecordOf, Prepare, Repacked;
    forall row | row in db.records
      ensures RepackRow(w, db.roots, row.0, db.records[row]).Ok?
      ensures RepackedSound(w, db, row)
    {
      RepackRowSound(w, db.roots, row.0, db.records[row]);
    }
    RepackedRows(w, db.roots, db.records);
    PreparedRows(w, db, budgeted);
    forall row | row in db.records ensures RepackedSound(w, db, row) {
      assert RepackRow(w, db.roots, row.0, db.records[row]).Ok?;
    }
  }

  lemma PreparedRows(w: Wire, db: Db, budgeted: bool)
    ensures Prepare(w, db, budgeted).Ok? ==>
              Prepare(w, db, budgeted).value.roots == db.roots && Repacked(w, db.roots, db.records) == Ok(Prepare(w, db, budgeted).value.records)
  {
    hide Repacked, Extended;
  }

  ghost predicate RepackedSound(w: Wire, db: Db, row: (string, int))
    requires row in db.records
  {
    var r := RepackRow(w, db.roots, row.0, db.records[row]);
    r.Ok? && Sound(w, r.value) && RecordOf(w, r.value) == RecordOf(w, db.records[row])
  }

  lemma PayloadsStore(w: Wire, step: Step, i: nat)
    requires Lawful(w) && step.CommitStep? && Cooperating(w, step) && i < |step.batch|
    ensures |Payloads(w, step.writer, step.batch)| == |step.batch|
    ensures Stores(w, Payloads(w, step.writer, step.batch)[i], step.batch[i])
  {
    RecordRoundTrip(w, step.batch[i]);
  }

  /** A successful commit appends its batch and touches no other execution. */
  lemma CommitAppends(w: Wire, db: Db, step: Step)
    requires Lawful(w) && Journaled(w, db) && step.CommitStep? && Cooperating(w, step) && Commits(w, db, step)
    ensures Journaled(w, Next(w, db, step))
    ensures step.expected == Version(db, step.id)
    ensures forall id :: Facts(w, Next(w, db, step), id) == Facts(w, db, id) + (if id == step.id then step.batch else [])
  {
    var after := Next(w, db, step);
    var payloads := Payloads(w, step.writer, step.batch);
    PayloadsStore(w, step, 0);
    forall i | 0 <= i < |step.batch| ensures Sound(w, payloads[i]) && RecordOf(w, payloads[i]) == Some(step.batch[i]) {
      PayloadsStore(w, step, i);
      StoresIsSound(w, payloads[i], step.batch[i]);
    }
    AppendedRows(w, db, after, step.id, step.expected, payloads);
    forall id ensures Facts(w, after, id) == Facts(w, db, id) + (if id == step.id then step.batch else []) {
      AppendedFacts(w, db, after, step.id, step.expected, payloads, step.batch, id);
    }
  }

  /** The rows of `after` are those of `db` and the new payloads. */
  ghost predicate Appends(db: Db, after: Db, id: string, expected: nat, payloads: seq<string>) {
    && payloads != [] && expected == Version(db, id) && expected + |payloads| <= I64_MAX
    && InsertRows(db.records, id, expected, payloads) == Some(after.records)
    && after.roots.Keys == db.roots.Keys + {id} && after.roots[id].version == expected + |payloads|
    && forall x :: x in db.roots && x != id ==> after.roots[x] == db.roots[x]
  }

  lemma AppendedRows(w: Wire, db: Db, after: Db, id: string, expected: nat, payloads: seq<string>)
    requires Journaled(w, db) && Appends(db, after, id, expected, payloads)
    requires forall i :: 0 <= i < |payloads| ==> Sound(w, payloads[i])
    ensures Journaled(w, after)
  {
    InsertRowsMeaning(db.records, id, expected, payloads);
  }

  lemma AppendedFacts(w: Wire, db: Db, after: Db, id: string, expected: nat, payloads: seq<string>, batch: seq<Record>, x: string)
    requires Journaled(w, db) && Journaled(w, after) && Appends(db, after, id, expected, payloads)
    requires |payloads| == |batch| && forall i :: 0 <= i < |batch| ==> RecordOf(w, payloads[i]) == Some(batch[i])
    ensures Facts(w, after, x) == Facts(w, db, x) + (if x == id then batch else [])
  {
    var tail := if x == id then batch else [];
    forall i | 0 <= i < Version(after, x) ensures RecordAt(w, after, x, i + 1) == FactAt(w, db, x, tail, i) {
      AppendedFact(w, db, after, id, expected, payloads, batch, x, i);
    }
    ExtendedFacts(w, db, after, x, tail);
  }

  ghost function FactAt(w: Wire, db: Db, x: string, tail: seq<Record>, i: nat): Record
    requires Journaled(w, db) && i < Version(db, x) + |tail|
  {
    if i < Version(db, x) then RecordAt(w, db, x, i + 1) else tail[i - Version(db, x)]
  }

  lemma ExtendedFacts(w: Wire, db: Db, after: Db, x: string, tail: seq<Record>)
    requires Journaled(w, db) && Journaled(w, after) && Version(after, x) == Version(db, x) + |tail|
    requires forall i :: 0 <= i < Version(after, x) ==> RecordAt(w, after, x, i + 1) == FactAt(w, db, x, tail, i)
    ensures Facts(w, after, x) == Facts(w, db, x) + tail
  {
    var whole := Facts(w, db, x) + tail;
    forall i | 0 <= i < |whole| ensures Facts(w, after, x)[i] == whole[i] {
      assert FactAt(w, db, x, tail, i) == whole[i];
    }
  }

  lemma AppendedFact(w: Wire, db: Db, after: Db, id: string, expected: nat, payloads: seq<string>, batch: seq<Record>, x: string, i: nat)
    requires Journaled(w, db) && Journaled(w, after) && Appends(db, after, id, expected, payloads)
    requires |payloads| == |batch| && forall k :: 0 <= k < |batch| ==> RecordOf(w, payloads[k]) == Some(batch[k])
    requires i < Version(after, x)
    ensures Version(after, x) == Version(db, x) + (if x == id then |batch| else 0)
    ensures RecordAt(w, after, x, i + 1) == FactAt(w, db, x, if x == id then batch else [], i)
  {
    hide RecordOf, Sound;
    if i < Version(db, x) {
      KeptRecord(w, db, after, id, expected, payloads, x, i + 1);
    } else {
      NewRecord(w, db, after, id, expected, payloads, x, i + 1);
    }
  }

  lemma KeptRecord(w: Wire, db: Db, after: Db, id: string, expected: nat, payloads: seq<string>, x: string, n: int)
    requires Journaled(w, db) && Journaled(w, after) && Appends(db, after, id, expected, payloads)
    requires 1 <= n <= Version(db, x)
    ensures n <= Version(after, x) && RecordAt(w, after, x, n) == RecordAt(w, db, x, n)
  {
    InsertRowsMeaning(db.records, id, expected, payloads);
    assert (x, n) in db.records;
  }

  lemma NewRecord(w: Wire, db: Db, after: Db, id: string, expected: nat, payloads: seq<string>, x: string, n: int)
    requires Journaled(w, db) && Journaled(w, after) && Appends(db, after, id, expected, payloads)
    requires Version(db, x) < n <= Version(after, x)
    ensures x == id && n - 1 - expected < |payloads| && Some(RecordAt(w, after, x, n)) == RecordOf(w, payloads[n - 1 - expected])
  {
    InsertRowsMeaning(db.records, id, expected, payloads);
    assert (x, n) in after.records && (x, n) !in db.records;
  }

  /** What one step adds to one execution. */
  ghost function Added(w: Wire, db: Db, step: Step, id: string): seq<Record> {
    if Commits(w, db, step) && step.id == id then step.batch else []
  }

  lemma NextJournal(w: Wire, db: Db, step: Step)
    requires Lawful(w) && Journaled(w, db) && Cooperating(w, step)
    ensures Journaled(w, Next(w, db, step))
    ensures forall id :: Facts(w, Next(w, db, step), id) == Facts(w, db, id) + Added(w, db, step, id)
  {
    if Commits(w, db, step) {
      CommitAppends(w, db, step);
    } else {
      if step.ClaimStep? { ClaimKeepsFacts(w, db, step.instance, step.budgeted); }
      if step.OlderClaimStep? { OlderClaimEffect(db, step.instance); }
      if step.CommitStep? { CommitEffect(w, db, step); }
      SameFactsKeepJournal(w, db, Next(w, db, step));
    }
  }

  // ---- Whole runs --------------------------------------------------------

  /** The batches that committed to one execution, concatenated in commit order. */
  ghost function History(w: Wire, db: Db, steps: seq<Step>, id: string): seq<Record> {
    if steps == [] then []
    else
      var before := steps[..|steps| - 1];
      History(w, db, before, id) + Added(w, Run(w, db, before), steps[|steps| - 1], id)
  }

  lemma {:induction false} JournalIsHistory(w: Wire, db: Db, steps: seq<Step>)
    requires Lawful(w) && Journaled(w, db) && AllCooperating(w, steps)
    ensures Journaled(w, Run(w, db, steps))
    ensures forall id :: Facts(w, Run(w, db, steps), id) == Facts(w, db, id) + History(w, db, steps, id)
  {
    hide Journaled, Next, Cooperating, Lawful, Added;
    if steps != [] {
      var before := steps[..|steps| - 1];
      JournalIsHistory(w, db, before);
      NextJournal(w, Run(w, db, before), steps[|steps| - 1]);
    }
  }

  lemma LoadIsFacts(w: Wire, db: Db, id: string)
    requires Lawful(w) && Journaled(w, db)
    ensures id !in db.roots ==> Load(w, db, id) == Ok(None)
    ensures id in db.roots && !Supported(db.roots[id].format) ==> Load(w, db, id) == Err
    ensures id in db.roots && Supported(db.roots[id].format) ==>
              Load(w, db, id) == Ok(Some(StoredExecution(db.roots[id].format, Version(db, id), Facts(w, db, id))))
  {
    if id in db.roots {
      ItemsAreFacts(w, db, id, 0, Version(db, id));
      var items := RecordItems(w, db.records, id, 0, Version(db, id));
      assert forall n :: 1 <= n <= Version(db, id) ==> RecordItem(w, db.records, id, n) == items[n - 1];
      assert Prefix(items, Version(db, id)) == Facts(w, db, id);
    }
  }

  /** Whatever happened since migration, a load returns the committed history
      and never a gap; only an unsupported format stops it. */
  lemma LoadReturnsHistory(w: Wire, steps: seq<Step>, id: string)
    requires Lawful(w) && AllCooperating(w, steps)
    ensures var db := Run(w, EMPTY, steps);
            var history := History(w, EMPTY, steps, id);
            && (id !in db.roots <==> history == [])
            && (id !in db.roots ==> Load(w, db, id) == Ok(None))
            && (id in db.roots && !Supported(db.roots[id].format) ==> Load(w, db, id) == Err)
            && (id in db.roots && Supported(db.roots[id].format) ==>
                  Load(w, db, id) == Ok(Some(StoredExecution(db.roots[id].format, |history|, history))))
  {
    JournalIsHistory(w, EMPTY, steps);
    LoadIsFacts(w, Run(w, EMPTY, steps), id);
    assert Facts(w, EMPTY, id) + History(w, EMPTY, steps, id) == History(w, EMPTY, steps, id);
  }

  /** Every row of a slice is readable and holds the fact of that place. */
  lemma ItemsAreFacts(w: Wire, db: Db, id: string, after: nat, end: nat)
    requires Lawful(w) && Journaled(w, db) && after <= end <= Version(db, id)
    ensures var items := RecordItems(w, db.records, id, after, end);
            && Readable(items)
            && Values(items) == Facts(w, db, id)[after..end]
            && forall i :: 0 <= i < |items| ==> items[i] == Item(Facts(w, db, id)[after + i], |w.json(Facts(w, db, id)[after + i])|)
  {
    var items := RecordItems(w, db.records, id, after, end);
    forall i | 0 <= i < |items|
      ensures items[i] == Item(Facts(w, db, id)[after + i], |w.json(Facts(w, db, id)[after + i])|)
    {
      assert (id, after + 1 + i) in db.records;
      assert Facts(w, db, id)[after + i] == RecordAt(w, db, id, after + i + 1);
    }
  }

  lemma {:induction false} FactsGrow(w: Wire, db: Db, steps: seq<Step>, i: nat, j: nat)
    requires Lawful(w) && Journaled(w, db) && AllCooperating(w, steps) && i <= j <= |steps|
    ensures Journaled(w, At(w, db, steps, i)) && Journaled(w, At(w, db, steps, j))
    ensures forall id :: Facts(w, At(w, db, steps, i), id) <= Facts(w, At(w, db, steps, j), id)
    decreases j
  {
    hide Journaled, Run, Next, Cooperating, Lawful, History;
    JournalIsHistory(w, db, steps[..i]);
    JournalIsHistory(w, db, steps[..j]);
    if i < j {
      FactsGrow(w, db, steps, i, j - 1);
      AtNext(w, db, steps, j - 1);
      NextJournal(w, At(w, db, steps, j - 1), steps[j - 1]);
    }
  }

  /** Of all commits presenting the same execution and version, one wins. */
  lemma VersionIsUsedOnce(w: Wire, db: Db, steps: seq<Step>, i: nat, j: nat)
    requires Lawful(w) && Journaled(w, db) && AllCooperating(w, steps) && i < j < |steps|
    requires Commits(w, At(w, db, steps, i), steps[i]) && steps[j].CommitStep?
    requires steps[j].id == steps[i].id && steps[j].expected == steps[i].expected
    ensures !Commits(w, At(w, db, steps, j), steps[j])
  {
    FactsGrow(w, db, steps, i, i);
    CommitAppends(w, At(w, db, steps, i), steps[i]);
    AtNext(w, db, steps, i);
    FactsGrow(w, db, steps, i + 1, j);
    var id := steps[i].id;
    assert |Facts(w, At(w, db, steps, i + 1), id)| == steps[i].expected + |steps[i].batch|;
    assert |Facts(w, At(w, db, steps, i + 1), id)| <= |Facts(w, At(w, db, steps, j), id)|;
    if Commits(w, At(w, db, steps, j), steps[j]) {
      CommitAppends(w, At(w, db, steps, j), steps[j]);
      assert false;
    }
  }

  /** Facts already read never change: later states only extend them. */
  lemma ReachedFacts(w: Wire, a: Db, b: Db)
    requires Lawful(w) && Journaled(w, a) && Reaches(w, a, b)
    ensures Journaled(w, b) && forall id :: Facts(w, a, id) <= Facts(w, b, id)
  {
    var steps :| AllCooperating(w, steps) && Run(w, a, steps) == b;
    JournalIsHistory(w, a, steps);
  }
}
