/** The discovery index: one stable position per root, repaired by each new owner. */
module Discovery {
  import opened Basics
  import opened Codec
  import opened ExecutionDb
  import opened ExecutionPages
  import opened Ownership
  import opened Journal
  import opened AcceptanceKeys

  ghost predicate Indexed(db: Db) {
    && (forall p :: p in db.index ==> 0 < p < db.nextPosition && db.index[p] in db.roots)
    && (forall p, q :: p in db.index && q in db.index && db.index[p] == db.index[q] ==> p == q)
    && 0 < db.nextPosition
  }

  ghost predicate FullyIndexed(db: Db) {
    forall id :: id in db.roots ==> HasEntry(db, id)
  }

  ghost predicate HasEntry(db: Db, id: string) {
    exists p :: p in db.index && db.index[p] == id
  }

  /** Entries are never moved or dropped; new ones are above every position used. */
  ghost predicate IndexGrows(a: Db, b: Db) {
    && (forall p :: p in a.index ==> p in b.index && b.index[p] == a.index[p])
    && (forall p :: p in b.index && p !in a.index ==> a.nextPosition <= p)
    && a.nextPosition <= b.nextPosition
  }

  /** `added` gives each missing root one position from `next` on, in id order. */
  ghost predicate Assigns(missing: set<string>, next: int, added: map<int, string>) {
    && (forall p :: p in added <==> next <= p < next + |missing|)
    && (forall p :: p in added ==> added[p] in missing)
    && (forall id :: id in missing ==> HasValue(added, id))
    && (forall p, q :: p in added && q in added && p < q ==> Before(added[p], added[q]))
  }

  ghost predicate HasValue(added: map<int, string>, id: string) {
    exists p :: p in added && added[p] == id
  }

  lemma {:induction false} AssignMeaning(missing: set<string>, next: int)
    ensures Assigns(missing, next, Assign(missing, next))
    decreases |missing|
  {
    if missing != {} {
      var id := LeastId(missing);
      AssignMeaning(missing - {id}, next + 1);
      AssignsFirst(missing, next, id, Assign(missing - {id}, next + 1));
    }
  }

  lemma AssignsFirst(missing: set<string>, next: int, id: string, rest: map<int, string>)
    requires id in missing && forall x :: x in missing && x != id ==> Before(id, x)
    requires Assigns(missing - {id}, next + 1, rest)
    ensures Assigns(missing, next, rest[next := id])
  {
    hide Before;
    var added := rest[next := id];
    forall x | x in missing ensures HasValue(added, x) {
      if x != id {
        assert x in missing - {id} && HasValue(rest, x);
        var p :| p in rest && rest[p] == x;
        assert added[p] == x;
      } else {
        assert added[next] == id;
      }
    }
  }

  /** Only the index, its counter and the roots matter to the index invariants. */
  predicate SameIndex(a: Db, b: Db) {
    a.index == b.index && a.nextPosition == b.nextPosition && a.roots == b.roots
  }

  lemma RepairEffect(db: Db)
    requires Indexed(db)
    ensures Indexed(Reconciled(db)) && FullyIndexed(Reconciled(db)) && IndexGrows(db, Reconciled(db))
    ensures forall p, q :: p in Reconciled(db).index && q in Reconciled(db).index && p !in db.index && q !in db.index && p < q ==>
              Before(Reconciled(db).index[p], Reconciled(db).index[q])
  {
    AssignMeaning(Missing(db), db.nextPosition);
    AddedEffect(db, Reconciled(db), Assign(Missing(db), db.nextPosition));
  }

  lemma AddedEffect(db: Db, after: Db, added: map<int, string>)
    requires Indexed(db) && Assigns(Missing(db), db.nextPosition, added)
    requires after.index == db.index + added && after.nextPosition == db.nextPosition + |Missing(db)| && after.roots == db.roots
    ensures Indexed(after) && FullyIndexed(after) && IndexGrows(db, after)
    ensures forall p, q :: p in after.index && q in after.index && p !in db.index && q !in db.index && p < q ==>
              Before(after.index[p], after.index[q])
  {
    hide Before, Assigns, Missing, IndexGrows, FullyIndexed;
    AddedGrows(db, after, added);
    AddedCoversAll(db, after, added);
    AddedOrder(db, after, added);
    hide Indexed;
    AddedIndexed(db, after, added);
  }

  lemma AddedOrder(db: Db, after: Db, added: map<int, string>)
    requires Assigns(Missing(db), db.nextPosition, added) && after.index == db.index + added
    ensures forall p, q :: p in after.index && q in after.index && p !in db.index && q !in db.index && p < q ==>
              Before(after.index[p], after.index[q])
  {
    hide Before, Missing;
  }

  lemma AddedIndexed(db: Db, after: Db, added: map<int, string>)
    requires Indexed(db) && Assigns(Missing(db), db.nextPosition, added)
    requires after.index == db.index + added && after.nextPosition == db.nextPosition + |Missing(db)| && after.roots == db.roots
    ensures Indexed(after)
  {
    hide Assigns, Missing, IndexGrows;
    AddedGrows(db, after, added);
    AddedAllUnique(db, after, added);
  }

  lemma AddedAllUnique(db: Db, after: Db, added: map<int, string>)
    requires Indexed(db) && Assigns(Missing(db), db.nextPosition, added) && after.index == db.index + added
    ensures forall p, q :: p in after.index && q in after.index && after.index[p] == after.index[q] ==> p == q
  {
    hide Indexed, Assigns, Missing;
    forall p, q | p in after.index && q in after.index && after.index[p] == after.index[q] ensures p == q {
      AddedUnique(db, added, p, q);
    }
  }

  lemma AddedGrows(db: Db, after: Db, added: map<int, string>)
    requires Indexed(db) && Assigns(Missing(db), db.nextPosition, added)
    requires after.index == db.index + added && after.nextPosition == db.nextPosition + |Missing(db)| && after.roots == db.roots
    ensures IndexGrows(db, after) && 0 < after.nextPosition
    ensures forall p :: p in after.index ==> 0 < p < after.nextPosition && after.index[p] in after.roots
  {
    hide Before;
  }

  lemma AddedCoversAll(db: Db, after: Db, added: map<int, string>)
    requires Indexed(db) && Assigns(Missing(db), db.nextPosition, added)
    requires after.index == db.index + added && after.roots == db.roots
    ensures FullyIndexed(after)
  {
    hide Indexed, Assigns, Missing;
    forall id | id in after.roots ensures HasEntry(after, id) {
      AddedCovers(db, added, id);
      var p :| p in db.index + added && (db.index + added)[p] == id;
      assert after.index[p] == id;
    }
  }

  lemma AddedUnique(db: Db, added: map<int, string>, p: int, q: int)
    requires Indexed(db) && Assigns(Missing(db), db.nextPosition, added)
    requires p in db.index + added && q in db.index + added && (db.index + added)[p] == (db.index + added)[q]
    ensures p == q
  {
    var id := (db.index + added)[p];
    BeforeIrreflexive(id);
    assert p in db.index ==> db.index[p] in IndexedIds(db.index);
    assert q in db.index ==> db.index[q] in IndexedIds(db.index);
  }

  lemma AddedCovers(db: Db, added: map<int, string>, id: string)
    requires Indexed(db) && Assigns(Missing(db), db.nextPosition, added) && id in db.roots
    ensures exists p :: p in db.index + added && (db.index + added)[p] == id
  {
    if id in Missing(db) {
      var p :| p in added && added[p] == id;
      assert (db.index + added)[p] == id;
    } else {
      assert id in IndexedIds(db.index);
      var p :| p in db.index && db.index[p] == id;
      assert p !in added && (db.index + added)[p] == id;
    }
  }

  lemma ClaimIndex(w: Wire, db: Db, id: string, budgeted: bool)
    requires Indexed(db)
    ensures var (after, r) := Claim(w, db, id, budgeted);
            && Indexed(after) && IndexGrows(db, after) && after.roots == db.roots
            && (r.Ok? && r.value.Acquired? ==> FullyIndexed(after) && SameIndex(after, Reconciled(db)))
            && (FullyIndexed(db) ==> FullyIndexed(after))
  {
    var after := Claim(w, db, id, budgeted).0;
    ClaimIndexTables(w, db, id, budgeted);
    RepairEffect(db);
    if SameIndex(after, db) {
      SameIndexTransfers(db, db, after);
    } else {
      SameIndexTransfers(db, Reconciled(db), after);
    }
    if SameIndex(after, Reconciled(db)) {
      SameIndexTransfers(db, Reconciled(db), after);
    }
  }

  lemma SameIndexTransfers(db: Db, a: Db, b: Db)
    requires Indexed(a) && IndexGrows(db, a) && SameIndex(a, b)
    ensures Indexed(b) && IndexGrows(db, b) && (FullyIndexed(a) ==> FullyIndexed(b))
  {
    if FullyIndexed(a) {
      forall id | id in b.roots ensures HasEntry(b, id) {
        var p :| p in a.index && a.index[p] == id;
        assert b.index[p] == id;
      }
    }
  }

  lemma ClaimIndexTables(w: Wire, db: Db, id: string, budgeted: bool)
    ensures var (after, r) := Claim(w, db, id, budgeted);
            && (SameIndex(after, db) || SameIndex(after, Reconciled(db)))
            && (r.Ok? && r.value.Acquired? ==> SameIndex(after, Reconciled(db)))
  {
    if ValidOwnerId(id) && Decide(db.control, id, db.roots != map[]).Advance? {
      TakeOverIndexTables(w, db, id, budgeted);
      assert Claim(w, db, id, budgeted) == TakeOver(w, db, id, budgeted);
    } else {
      RenewTables(w, db, id, budgeted);
    }
  }

  lemma TakeOverIndexTables(w: Wire, db: Db, id: string, budgeted: bool)
    ensures var (after, r) := TakeOver(w, db, id, budgeted);
            if r.Err? then after == db else SameIndex(after, Reconciled(db))
  {
    PrepareIndex(w, db, Seated(db, id), budgeted);
  }

  lemma PrepareIndex(w: Wire, db: Db, seated: Db, budgeted: bool)
    requires SameIndex(db, seated)
    ensures Prepare(w, seated, budgeted).Ok? ==> SameIndex(Prepare(w, seated, budgeted).value, Reconciled(db))
  {
    assert Missing(seated) == Missing(db);
    if Prepare(w, seated, budgeted).Ok? {
      var ready := Prepare(w, seated, budgeted).value;
      assert ready.index == Extended(db.index, Missing(db), db.nextPosition);
    }
  }

  lemma CommitIndex(w: Wire, db: Db, step: Step)
    requires Indexed(db) && step.CommitStep?
    ensures var after := Next(w, db, step); Indexed(after) && IndexGrows(db, after)
    ensures FullyIndexed(db) && (step.writer.Current? || step.expected > 0) ==> FullyIndexed(Next(w, db, step))
  {
    var after := Next(w, db, step);
    CommitEffect(w, db, step);
    if FullyIndexed(db) && Commits(w, db, step) && (step.writer.Current? || step.expected > 0) {
      forall id | id in after.roots ensures HasEntry(after, id) {
        if id in db.roots {
          var p :| p in db.index && db.index[p] == id;
          assert after.index[p] == id;
        } else {
          assert after.index[db.nextPosition] == id;
        }
      }
    }
  }

  lemma NextIndexed(w: Wire, db: Db, step: Step)
    requires Indexed(db)
    ensures Indexed(Next(w, db, step)) && IndexGrows(db, Next(w, db, step))
  {
    if step.ClaimStep? { ClaimIndex(w, db, step.instance, step.budgeted); }
    if step.OlderClaimStep? { OlderClaimEffect(db, step.instance); }
    if step.CommitStep? { CommitIndex(w, db, step); }
  }

  /** In every reachable state positions are unique per root and below the
      counter, and nothing indexed ever moves. */
  lemma {:induction false} RunIndexed(w: Wire, db: Db, steps: seq<Step>)
    requires Indexed(db)
    ensures Indexed(Run(w, db, steps)) && IndexGrows(db, Run(w, db, steps))
  {
    if steps != [] {
      var before := steps[..|steps| - 1];
      RunIndexed(w, db, before);
      NextIndexed(w, Run(w, db, before), steps[|steps| - 1]);
    }
  }

  /** No older binary creates a root in this step. */
  predicate KnowsIndex(step: Step) {
    step.CommitStep? ==> step.writer.Current? || step.expected > 0
  }

  /** Current writers keep exactly one entry per root. */
  lemma {:induction false} CurrentWritersIndexEveryRoot(w: Wire, db: Db, steps: seq<Step>)
    requires Indexed(db) && FullyIndexed(db)
    requires forall i :: 0 <= i < |steps| ==> KnowsIndex(steps[i])
    ensures FullyIndexed(Run(w, db, steps))
  {
    if steps != [] {
      var before := steps[..|steps| - 1];
      var step := steps[|steps| - 1];
      RunIndexed(w, db, before);
      CurrentWritersIndexEveryRoot(w, db, before);
      var last := Run(w, db, before);
      if step.CommitStep? { CommitIndex(w, last, step); }
      if step.ClaimStep? { ClaimIndex(w, last, step.instance, step.budgeted); }
      if step.OlderClaimStep? { OlderClaimEffect(last, step.instance); }
      if step.StopStep? || step.Burn? || step.OlderClaimStep? {
        forall id | id in last.roots ensures HasEntry(Next(w, last, step), id) {
          var p :| p in last.index && last.index[p] == id;
          assert Next(w, last, step).index[p] == id;
        }
      }
    }
  }

  /** After any run, however many roots older writers left out, a won claim
      indexes every root, moves no entry and adds only above the old head. */
  lemma AcquiredClaimRepairsIndex(w: Wire, steps: seq<Step>, id: string, budgeted: bool)
    requires var r := Claim(w, Run(w, EMPTY, steps), id, budgeted).1; r.Ok? && r.value.Acquired?
    ensures var before := Run(w, EMPTY, steps);
            var after := Claim(w, before, id, budgeted).0;
            && Indexed(after) && FullyIndexed(after) && IndexGrows(before, after)
            && (forall p :: p in after.index && p !in before.index ==> p > IndexHead(before.index))
  {
    RunIndexed(w, EMPTY, steps);
    var before := Run(w, EMPTY, steps);
    ClaimIndex(w, before, id, budgeted);
    assert IndexHead(before.index) < before.nextPosition;
  }

  // ---- The commit rule, stated on facts ----------------------------------

  /** In every reachable state the current writer's commit succeeds exactly for
      a nonempty batch signed by the live owner (or by nobody before any owner),
      presenting the current length of a supported journal, with free keys. */
  lemma CommitSucceedsExactly(w: Wire, steps: seq<Step>, step: Step)
    requires Lawful(w) && AllCooperating(w, steps) && step.CommitStep? && step.writer.Current?
    ensures var db := Run(w, EMPTY, steps);
            Commits(w, db, step) <==>
            && step.batch != [] && step.expected + |step.batch| <= I64_MAX
            && Admits(db.control, step.signer)
            && step.expected == |History(w, EMPTY, steps, step.id)|
            && (step.id in db.roots ==> Supported(db.roots[step.id].format))
            && KeysFree(db.keys, step.id, step.batch)
  {
    var db := Run(w, EMPTY, steps);
    JournalIsHistory(w, EMPTY, steps);
    assert Facts(w, EMPTY, step.id) + History(w, EMPTY, steps, step.id) == History(w, EMPTY, steps, step.id);
    RunIndexed(w, EMPTY, steps);
    CommitGuards(w, db, step);
  }

  /** A successful commit leaves the journal readable at the current format, with
      exactly the batch added. */
  lemma CommitExtendsHistory(w: Wire, steps: seq<Step>, step: Step)
    requires Lawful(w) && AllCooperating(w, steps) && step.CommitStep? && step.writer.Current?
    requires Commits(w, Run(w, EMPTY, steps), step)
    ensures Load(w, Run(w, EMPTY, steps + [step]), step.id) ==
            Ok(Some(StoredExecution(FORMAT, step.expected + |step.batch|, History(w, EMPTY, steps, step.id) + step.batch)))
  {
    var all := steps + [step];
    assert all[..|all| - 1] == steps;
    JournalIsHistory(w, EMPTY, steps);
    JournalIsHistory(w, EMPTY, all);
    CommitReadsBack(w, Run(w, EMPTY, steps), step);
    assert Facts(w, EMPTY, step.id) + History(w, EMPTY, steps, step.id) == History(w, EMPTY, steps, step.id);
  }

  lemma CommitReadsBack(w: Wire, db: Db, step: Step)
    requires Lawful(w) && Journaled(w, db) && Cooperating(w, step)
    requires step.CommitStep? && step.writer.Current? && Commits(w, db, step)
    ensures Load(w, Next(w, db, step), step.id) ==
            Ok(Some(StoredExecution(FORMAT, step.expected + |step.batch|, Facts(w, db, step.id) + step.batch)))
  {
    hide Load, Next, Journaled, Cooperating, Lawful;
    CommitAppends(w, db, step);
    CommitFormat(w, db, step);
    LoadIsFacts(w, Next(w, db, step), step.id);
    assert |Facts(w, Next(w, db, step), step.id)| == step.expected + |step.batch|;
  }

  lemma CommitFormat(w: Wire, db: Db, step: Step)
    requires Commits(w, db, step) && step.writer.Current?
    ensures step.id in Next(w, db, step).roots && Next(w, db, step).roots[step.id].format == FORMAT
  {
  }

  lemma CommitGuards(w: Wire, db: Db, step: Step)
    requires Lawful(w) && Journaled(w, db) && Indexed(db) && step.CommitStep? && step.writer.Current?
    ensures Commits(w, db, step) <==>
            && step.batch != [] && step.expected + |step.batch| <= I64_MAX
            && Admits(db.control, step.signer)
            && step.expected == Version(db, step.id)
            && (step.id in db.roots ==> Supported(db.roots[step.id].format))
            && KeysFree(db.keys, step.id, step.batch)
  {
    CommitDefinition(w, db, step);
    InsertKeysMeaning(db.keys, step.id, step.batch);
    RootAcceptsExactly(db, step.id, step.expected);
    if step.expected == Version(db, step.id) {
      RowsFree(w, db, step.id, Payloads(w, step.writer, step.batch));
    }
  }

  lemma RowsFree(w: Wire, db: Db, id: string, payloads: seq<string>)
    requires Journaled(w, db)
    ensures InsertRows(db.records, id, Version(db, id), payloads).Some?
  {
    InsertRowsMeaning(db.records, id, Version(db, id), payloads);
  }

  lemma CommitDefinition(w: Wire, db: Db, step: Step)
    requires step.CommitStep?
    ensures Commits(w, db, step) <==>
            && step.batch != [] && step.expected + |step.batch| <= I64_MAX
            && Admits(db.control, step.signer) && RootAccepts(db, step.writer, step.id, step.expected)
            && InsertKeys(db.keys, step.id, step.batch).Some?
            && InsertRows(db.records, step.id, step.expected, Payloads(w, step.writer, step.batch)).Some?
  {
  }

  lemma RootAcceptsExactly(db: Db, id: string, expected: nat)
    requires forall x :: x in db.roots ==> 1 <= db.roots[x].version
    requires id !in db.roots ==> id !in IndexedIds(db.index)
    ensures RootAccepts(db, Current, id, expected) <==>
            expected == Version(db, id) && (id in db.roots ==> Supported(db.roots[id].format))
  {
  }
}
