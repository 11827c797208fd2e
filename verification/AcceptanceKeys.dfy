/** The acceptance-key table is a projection of the journals. */
module AcceptanceKeys {
  import opened Basics
  import opened Codec
  import opened ExecutionDb
  import opened ExecutionPages
  import opened Ownership
  import opened Journal

  /** Fact i of an execution accepts a key. */
  ghost predicate AcceptedAt(w: Wire, db: Db, id: string, i: nat, entry: AcceptedKey)
    requires Journaled(w, db)
  {
    i < Version(db, id) && Facts(w, db, id)[i] == Accepted(entry)
  }

  /** Each table entry is recorded in a journal, each recorded key is in the
      table and names its own journal, and no key is recorded twice. */
  ghost predicate Projected(w: Wire, db: Db) {
    && Journaled(w, db)
    && (forall k :: k in db.keys ==> KeyOf(db.keys[k]) == k && exists i :: AcceptedAt(w, db, db.keys[k].threadId, i, db.keys[k]))
    && (forall id, i, entry :: AcceptedAt(w, db, id, i, entry) ==>
          KeyOf(entry) in db.keys && db.keys[KeyOf(entry)] == entry && entry.threadId == id)
    && (forall id, i, j, entry :: AcceptedAt(w, db, id, i, entry) && AcceptedAt(w, db, id, j, entry) ==> i == j)
  }

  /** No conflict inside the batch, with the table, or with another thread. */
  ghost predicate KeysFree(keys: map<(string, string), AcceptedKey>, id: string, batch: seq<Record>) {
    && (forall i :: 0 <= i < |batch| && batch[i].Accepted? ==> batch[i].entry.threadId == id && KeyOf(batch[i].entry) !in keys)
    && (forall i, j :: 0 <= i < j < |batch| && batch[i].Accepted? && batch[j].Accepted? ==> KeyOf(batch[i].entry) != KeyOf(batch[j].entry))
  }

  ghost predicate Carries(batch: seq<Record>, k: (string, string)) {
    exists i :: 0 <= i < |batch| && AcceptsKey(batch[i], k)
  }

  predicate AcceptsKey(record: Record, k: (string, string)) {
    record.Accepted? && KeyOf(record.entry) == k
  }

  /** The table after a batch: the old entries and the batch's, nothing else. */
  ghost predicate Inserted(keys: map<(string, string), AcceptedKey>, after: map<(string, string), AcceptedKey>, batch: seq<Record>) {
    && (forall k :: k in after <==> k in keys || Carries(batch, k))
    && (forall k :: k in keys ==> after[k] == keys[k])
    && (forall i :: 0 <= i < |batch| && batch[i].Accepted? ==>
          KeyOf(batch[i].entry) in after && after[KeyOf(batch[i].entry)] == batch[i].entry)
  }

  lemma CarriesLast(batch: seq<Record>, k: (string, string))
    requires batch != []
    ensures Carries(batch, k) <==> Carries(batch[..|batch| - 1], k) || AcceptsKey(batch[|batch| - 1], k)
  {
    var before := batch[..|batch| - 1];
    if i :| 0 <= i < |batch| && AcceptsKey(batch[i], k) {
      assert i < |before| ==> before[i] == batch[i];
    }
    if i :| 0 <= i < |before| && AcceptsKey(before[i], k) {
      assert batch[i] == before[i];
    }
  }

  lemma KeysFreeLast(keys: map<(string, string), AcceptedKey>, id: string, batch: seq<Record>)
    requires batch != []
    ensures var (before, last) := (batch[..|batch| - 1], batch[|batch| - 1]);
            KeysFree(keys, id, batch) <==>
            && KeysFree(keys, id, before)
            && (last.Accepted? ==> last.entry.threadId == id && KeyOf(last.entry) !in keys && !Carries(before, KeyOf(last.entry)))
  {
    var (before, last) := (batch[..|batch| - 1], batch[|batch| - 1]);
    assert forall i :: 0 <= i < |before| ==> batch[i] == before[i];
    if last.Accepted? {
      assert Carries(before, KeyOf(last.entry)) <==>
             exists i :: 0 <= i < |before| && batch[i].Accepted? && KeyOf(batch[i].entry) == KeyOf(last.entry) by {
        if i :| 0 <= i < |before| && batch[i].Accepted? && KeyOf(batch[i].entry) == KeyOf(last.entry) {
          assert AcceptsKey(before[i], KeyOf(last.entry));
        }
      }
    }
  }

  lemma {:induction false} InsertKeysMeaning(keys: map<(string, string), AcceptedKey>, id: string, batch: seq<Record>)
    ensures InsertKeys(keys, id, batch).Some? <==> KeysFree(keys, id, batch)
    ensures InsertKeys(keys, id, batch).Some? ==> Inserted(keys, InsertKeys(keys, id, batch).value, batch)
    decreases |batch|
  {
    if batch != [] {
      var (before, last) := (batch[..|batch| - 1], batch[|batch| - 1]);
      InsertKeysMeaning(keys, id, before);
      KeysFreeLast(keys, id, batch);
      if InsertKeys(keys, id, batch).Some? {
        InsertedLast(keys, InsertKeys(keys, id, before).value, InsertKeys(keys, id, batch).value, batch);
      }
    }
  }

  lemma InsertedLast(keys: map<(string, string), AcceptedKey>, middle: map<(string, string), AcceptedKey>,
                     after: map<(string, string), AcceptedKey>, batch: seq<Record>)
    requires batch != [] && Inserted(keys, middle, batch[..|batch| - 1])
    requires var last := batch[|batch| - 1];
             if last.Accepted? then KeyOf(last.entry) !in middle && after == middle[KeyOf(last.entry) := last.entry] else after == middle
    ensures Inserted(keys, after, batch)
  {
    var (before, last) := (batch[..|batch| - 1], batch[|batch| - 1]);
    forall k ensures k in after <==> k in keys || Carries(batch, k) { CarriesLast(batch, k); }
    forall i | 0 <= i < |batch| && batch[i].Accepted?
      ensures KeyOf(batch[i].entry) in after && after[KeyOf(batch[i].entry)] == batch[i].entry
    {
      if i < |before| { assert before[i] == batch[i]; }
    }
  }

  /** An acceptance after an append is an old one or one of the batch. */
  lemma AcceptedAppend(w: Wire, db: Db, after: Db, id: string, batch: seq<Record>, x: string, i: nat, entry: AcceptedKey)
    requires Journaled(w, db) && Journaled(w, after)
    requires Facts(w, after, x) == Facts(w, db, x) + (if x == id then batch else [])
    ensures AcceptedAt(w, after, x, i, entry) <==>
            || AcceptedAt(w, db, x, i, entry)
            || (x == id && Version(db, x) <= i < Version(db, x) + |batch| && batch[i - Version(db, x)] == Accepted(entry))
  {
    assert |Facts(w, after, x)| == Version(after, x);
  }

  /** What ties an append to the batch it adds. */
  ghost predicate Appended(w: Wire, db: Db, after: Db, id: string, batch: seq<Record>) {
    && Projected(w, db) && Journaled(w, after)
    && (forall x :: Facts(w, after, x) == Facts(w, db, x) + (if x == id then batch else []))
    && KeysFree(db.keys, id, batch) && Inserted(db.keys, after.keys, batch)
  }

  lemma EntryRecorded(w: Wire, db: Db, after: Db, id: string, batch: seq<Record>, k: (string, string))
    requires Appended(w, db, after, id, batch) && k in after.keys
    ensures KeyOf(after.keys[k]) == k && exists i :: AcceptedAt(w, after, after.keys[k].threadId, i, after.keys[k])
  {
    hide AcceptedAt, Journaled;
    if k in db.keys {
      var i :| AcceptedAt(w, db, db.keys[k].threadId, i, db.keys[k]);
      AcceptedAppend(w, db, after, id, batch, db.keys[k].threadId, i, db.keys[k]);
    } else {
      assert Carries(batch, k) && |Facts(w, db, id)| == Version(db, id);
      var i :| 0 <= i < |batch| && AcceptsKey(batch[i], k);
      AcceptedAppend(w, db, after, id, batch, id, Version(db, id) + i, batch[i].entry);
    }
  }

  lemma RecordedEntry(w: Wire, db: Db, after: Db, id: string, batch: seq<Record>, x: string, i: nat, entry: AcceptedKey)
    requires Appended(w, db, after, id, batch) && AcceptedAt(w, after, x, i, entry)
    ensures KeyOf(entry) in after.keys && after.keys[KeyOf(entry)] == entry && entry.threadId == x
  {
    hide AcceptedAt, Journaled;
    AcceptedAppend(w, db, after, id, batch, x, i, entry);
  }

  lemma RecordedOnce(w: Wire, db: Db, after: Db, id: string, batch: seq<Record>, x: string, i: nat, j: nat, entry: AcceptedKey)
    requires Appended(w, db, after, id, batch) && AcceptedAt(w, after, x, i, entry) && AcceptedAt(w, after, x, j, entry)
    ensures i == j
  {
    hide AcceptedAt, Journaled;
    AcceptedAppend(w, db, after, id, batch, x, i, entry);
    AcceptedAppend(w, db, after, id, batch, x, j, entry);
  }

  lemma ProjectedAppend(w: Wire, db: Db, after: Db, id: string, batch: seq<Record>)
    requires Appended(w, db, after, id, batch)
    ensures Projected(w, after)
  {
    assert Journaled(w, after);
    hide Appended, AcceptedAt, Journaled;
    forall k | k in after.keys
      ensures KeyOf(after.keys[k]) == k && exists i :: AcceptedAt(w, after, after.keys[k].threadId, i, after.keys[k])
    {
      EntryRecorded(w, db, after, id, batch, k);
    }
    forall x, i, entry | AcceptedAt(w, after, x, i, entry)
      ensures KeyOf(entry) in after.keys && after.keys[KeyOf(entry)] == entry && entry.threadId == x
    {
      RecordedEntry(w, db, after, id, batch, x, i, entry);
    }
    forall x, i, j, entry | AcceptedAt(w, after, x, i, entry) && AcceptedAt(w, after, x, j, entry) ensures i == j {
      RecordedOnce(w, db, after, id, batch, x, i, j, entry);
    }
  }

  lemma NextProjected(w: Wire, db: Db, step: Step)
    requires Lawful(w) && Projected(w, db) && Cooperating(w, step)
    ensures Projected(w, Next(w, db, step))
    ensures forall k :: k in db.keys ==> k in Next(w, db, step).keys && Next(w, db, step).keys[k] == db.keys[k]
  {
    hide AcceptedAt, Journaled, Cooperating, Lawful, Next;
    var after := Next(w, db, step);
    NextJournal(w, db, step);
    if Commits(w, db, step) {
      CommitKeys(w, db, step);
      ProjectedAppend(w, db, after, step.id, step.batch);
    } else {
      OthersKeepKeys(w, db, step);
      forall x ensures Facts(w, after, x) == Facts(w, db, x) + (if x == "" then [] else []) {
        assert Added(w, db, step, x) == [];
      }
      ProjectedAppend(w, db, after, "", []);
    }
  }

  lemma OthersKeepKeys(w: Wire, db: Db, step: Step)
    requires !Commits(w, db, step)
    ensures Next(w, db, step).keys == db.keys && Inserted(db.keys, Next(w, db, step).keys, [])
  {
    if step.ClaimStep? { ClaimEffect(w, db, step.instance, step.budgeted); }
    if step.OlderClaimStep? { OlderClaimEffect(db, step.instance); }
    if step.CommitStep? { CommitEffect(w, db, step); }
  }

  lemma CommitKeys(w: Wire, db: Db, step: Step)
    requires Commits(w, db, step)
    ensures KeysFree(db.keys, step.id, step.batch) && Inserted(db.keys, Next(w, db, step).keys, step.batch)
  {
    InsertKeysMeaning(db.keys, step.id, step.batch);
  }

  /** In every state reached from migration the table is exactly the set of
      recorded acceptances, and an entry once found is found the same for ever. */
  lemma {:induction false} KeysAreProjection(w: Wire, db: Db, steps: seq<Step>)
    requires Lawful(w) && Projected(w, db) && AllCooperating(w, steps)
    ensures Projected(w, Run(w, db, steps))
    ensures forall scope, key :: FindKey(db, scope, key).Some? ==> FindKey(Run(w, db, steps), scope, key) == FindKey(db, scope, key)
  {
    if steps != [] {
      var before := steps[..|steps| - 1];
      KeysAreProjection(w, db, before);
      NextProjected(w, Run(w, db, before), steps[|steps| - 1]);
    }
  }

  lemma EmptyProjected(w: Wire)
    ensures Projected(w, EMPTY)
  {
  }

  /** A lookup answers from the journals: it finds an entry exactly when some
      execution's committed history accepted that key. */
  lemma FindKeyReadsHistory(w: Wire, steps: seq<Step>, scope: string, key: string)
    requires Lawful(w) && AllCooperating(w, steps)
    ensures FindKey(Run(w, EMPTY, steps), scope, key).Some? <==>
            exists id, entry :: Accepted(entry) in History(w, EMPTY, steps, id) && entry.scope == scope && entry.key == key
    ensures forall id, entry :: Accepted(entry) in History(w, EMPTY, steps, id) && entry.scope == scope && entry.key == key ==>
              FindKey(Run(w, EMPTY, steps), scope, key) == Some(entry) && entry.threadId == id
  {
    hide Projected, Journaled, FindKey, Run, History, Lawful, AllCooperating;
    var db := Run(w, EMPTY, steps);
    EmptyProjected(w);
    KeysAreProjection(w, EMPTY, steps);
    EmptyJournal(w);
    JournalIsHistory(w, EMPTY, steps);
    forall id ensures Facts(w, db, id) == History(w, EMPTY, steps, id) {
      assert Facts(w, EMPTY, id) + History(w, EMPTY, steps, id) == History(w, EMPTY, steps, id);
    }
    FindKeyReadsFacts(w, db, scope, key);
    if FindKey(db, scope, key).Some? {
      var id, entry :| Accepted(entry) in Facts(w, db, id) && entry.scope == scope && entry.key == key;
      assert Accepted(entry) in History(w, EMPTY, steps, id);
    }
  }

  lemma EmptyJournal(w: Wire)
    ensures Journaled(w, EMPTY) && forall id :: Facts(w, EMPTY, id) == []
  {
  }

  lemma FindKeyReadsFacts(w: Wire, db: Db, scope: string, key: string)
    requires Projected(w, db) && Journaled(w, db)
    ensures FindKey(db, scope, key).Some? ==>
              exists id, entry :: Accepted(entry) in Facts(w, db, id) && entry.scope == scope && entry.key == key
    ensures forall id, entry :: Accepted(entry) in Facts(w, db, id) && entry.scope == scope && entry.key == key ==>
              FindKey(db, scope, key) == Some(entry) && entry.threadId == id
  {
    forall id, entry | Accepted(entry) in Facts(w, db, id) && entry.scope == scope && entry.key == key
      ensures FindKey(db, scope, key) == Some(entry) && entry.threadId == id
    {
      var i :| 0 <= i < |Facts(w, db, id)| && Facts(w, db, id)[i] == Accepted(entry);
      assert AcceptedAt(w, db, id, i, entry);
    }
    if (scope, key) in db.keys {
      var entry := db.keys[(scope, key)];
      var i :| AcceptedAt(w, db, entry.threadId, i, entry);
      assert Accepted(entry) in Facts(w, db, entry.threadId);
    }
  }

  /** A conflicting key, even with another record of the same batch, undoes the
      whole commit: no table changes. */
  lemma KeyConflictUndoesCommit(w: Wire, db: Db, step: Step)
    requires step.CommitStep? && !KeysFree(db.keys, step.id, step.batch)
    ensures !Commits(w, db, step) && Next(w, db, step) == db
  {
    InsertKeysMeaning(db.keys, step.id, step.batch);
  }
}
