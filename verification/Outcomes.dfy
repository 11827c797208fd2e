/** What each operation answers, told from the tables alone. */
module Outcomes {
  import opened Basics
  import opened Codec
  import opened ExecutionDb
  import opened ExecutionPages
  import opened Ownership
  import opened Journal
  import opened AcceptanceKeys
  import opened Discovery
  import opened Repacking
  import opened Readers

  // ---- Claims ------------------------------------------------------------

  /** The tables after `id` is seated as generation g: control row and proof say so,
      and no other proof changes. */
  ghost predicate SeatedAs(db: Db, after: Db, id: string, g: int) {
    && after.control == ControlRow(g, Some(id), None)
    && after.owners == db.owners[g := OwnerRow(id, None)]
    && after.roots == db.roots && after.keys == db.keys
  }

  ghost predicate Overflows(w: Wire, db: Db, budgeted: bool) {
    budgeted && RootBytes(w, Missing(db)) > USIZE_MAX
  }

  /** Without an owner: a fresh store gives generation 1, a store with roots refuses
      every owner. */
  lemma UnownedClaim(w: Wire, db: Db, id: string, budgeted: bool)
    requires Elected(db) && db.control.generation == 0 && 1 <= |id| <= 128
    ensures var (after, r) := Claim(w, db, id, budgeted);
            && (db.roots != map[] ==> r == Ok(Unfenced) && after == db)
            && (db.roots == map[] && AnyUnusable(w, db) ==> r == Err && after == db)
            && (db.roots == map[] && !AnyUnusable(w, db) ==>
                  r == Ok(Acquired(Owner(id, 1, None))) && SeatedAs(db, after, id, 1))
  {
    if db.roots == map[] {
      NoMissing(w, db);
      TakeoverFailsExactly(w, db, id, budgeted);
      WonTakeover(w, db, id, budgeted);
    }
  }

  lemma NoMissing(w: Wire, db: Db)
    requires db.roots == map[]
    ensures RootBytes(w, Missing(db)) == 0
  {
    assert Missing(db) == {};
  }

  lemma WonTakeover(w: Wire, db: Db, id: string, budgeted: bool)
    requires ValidOwnerId(id) && Decide(db.control, id, db.roots != map[]).Advance?
    ensures var (after, r) := Claim(w, db, id, budgeted);
            r.Ok? ==> r == Ok(Acquired(Owner(id, db.control.generation + 1, None))) && SeatedAs(db, after, id, db.control.generation + 1)
  {
    hide TakeOver;
    TakeOverEffect(w, db, id, budgeted);
    assert Claim(w, db, id, budgeted) == TakeOver(w, db, id, budgeted);
  }

  /** With an owner: it is renewed while it lives, blocks its own instance once
      stopped, blocks every other instance while it lives, and gives way to a fresh
      one once stopped. */
  lemma OwnedClaim(w: Wire, db: Db, id: string, budgeted: bool)
    requires Elected(db) && db.control.generation > 0 && 1 <= |id| <= 128
    ensures var (after, r) := Claim(w, db, id, budgeted);
            var (g, instance, stopped) := (db.control.generation, db.control.instance.value, db.control.stopped);
            var current := Owner(instance, g, stopped);
            && (stopped.None? && id == instance && !Overflows(w, db, budgeted) ==> r == Ok(Acquired(current)) && SameOwners(after, db))
            && (stopped.None? && id == instance && Overflows(w, db, budgeted) ==> r == Err && after == db)
            && (stopped.None? && id != instance ==> r == Ok(Blocked(current)) && after == db)
            && (stopped.Some? && id == instance ==> r == Ok(Blocked(current)) && after == db)
            && (stopped.Some? && id != instance ==>
                  if g == I64_MAX || (exists h :: h in db.owners && db.owners[h].instance == id) || Overflows(w, db, budgeted) || AnyUnusable(w, db)
                  then r == Err && after == db
                  else r == Ok(Acquired(Owner(id, g + 1, None))) && SeatedAs(db, after, id, g + 1))
  {
    hide TakeOver, RootBytes, AnyUnusable;
    assert db.control.generation in db.owners;
    if db.control.stopped.Some? && db.control.instance != Some(id) {
      TakeoverFailsExactly(w, db, id, budgeted);
      WonTakeover(w, db, id, budgeted);
    } else {
      ReconciledKeeps(db);
    }
  }

  lemma InvalidClaim(w: Wire, db: Db, id: string, budgeted: bool)
    requires !(1 <= |id| <= 128)
    ensures Claim(w, db, id, budgeted) == (db, Err)
  {
  }

  /** In every reachable state whose owner has stopped, an instance that never owned
      before takes over with the next generation, while generations last. */
  lemma FreshInstanceTakesOver(w: Wire, steps: seq<Step>, id: string)
    requires Lawful(w) && AllCooperating(w, steps) && 1 <= |id| <= 128
    requires var db := Run(w, EMPTY, steps);
             && db.control.stopped.Some? && db.control.generation < I64_MAX
             && forall g :: g in db.owners ==> db.owners[g].instance != id
    ensures var db := Run(w, EMPTY, steps);
            var (after, r) := Claim(w, db, id, false);
            r == Ok(Acquired(Owner(id, db.control.generation + 1, None))) && SeatedAs(db, after, id, db.control.generation + 1)
  {
    hide Claim, AnyUnusable;
    var db := Run(w, EMPTY, steps);
    RunElected(w, EMPTY, steps);
    ReachableRowsAreUsable(w, steps);
    assert db.control.generation in db.owners;
    OwnedClaim(w, db, id, false);
  }

  /** In particular right after the current owner's stop. */
  lemma StopHandsOver(w: Wire, steps: seq<Step>, stop: Step, id: string)
    requires Lawful(w) && AllCooperating(w, steps) && 1 <= |id| <= 128
    requires Stops(Run(w, EMPTY, steps), stop) && stop.owner.generation < I64_MAX
    requires forall g :: g in Run(w, EMPTY, steps).owners ==> Run(w, EMPTY, steps).owners[g].instance != id
    ensures Claim(w, Run(w, EMPTY, steps + [stop]), id, false).1 == Ok(Acquired(Owner(id, stop.owner.generation + 1, None)))
  {
    hide Claim, Stop;
    var (db, all) := (Run(w, EMPTY, steps), steps + [stop]);
    RunOneMore(w, steps, stop);
    RunElected(w, EMPTY, steps);
    hide Run;
    StoppedState(w, db, stop);
    FreshInstanceTakesOver(w, all, id);
  }

  lemma RunOneMore(w: Wire, steps: seq<Step>, step: Step)
    ensures Run(w, EMPTY, steps + [step]) == Next(w, Run(w, EMPTY, steps), step)
    ensures AllCooperating(w, steps) && Cooperating(w, step) ==> AllCooperating(w, steps + [step])
    ensures forall id :: History(w, EMPTY, steps + [step], id) == History(w, EMPTY, steps, id) + Added(w, Run(w, EMPTY, steps), step, id)
  {
    hide Cooperating, Added, Next;
    var all := steps + [step];
    assert all[..|all| - 1] == steps;
  }

  lemma StoppedState(w: Wire, db: Db, stop: Step)
    requires Elected(db) && Stops(db, stop)
    ensures var after := Next(w, db, stop);
            && after.control.stopped.Some? && after.control.generation == stop.owner.generation
            && forall g :: g in after.owners ==> g in db.owners && after.owners[g].instance == db.owners[g].instance
  {
    hide Stop;
    FirstOrRepeatedStop(db, stop.owner, stop.now);
    assert db.control.generation in db.owners;
  }

  // ---- Stops -------------------------------------------------------------

  /** A stop succeeds if and only if it names the current owner and, for the first
      stop, its time can be stored. The first records and returns its time in control
      row and proof; a repeated one returns the first and changes nothing. */
  lemma FirstOrRepeatedStop(db: Db, owner: Owner, now: nat)
    requires Elected(db)
    ensures var (after, r) := Stop(db, owner, now);
            var names := db.control.instance == Some(owner.instance) && db.control.generation == owner.generation;
            var g := db.control.generation;
            && (r.Ok? <==> names && (db.control.stopped.Some? || now <= I64_MAX))
            && (r.Err? ==> after == db)
            && (names && db.control.stopped.None? && now <= I64_MAX ==>
                  && r == Ok(Owner(owner.instance, g, Some(now)))
                  && after.control == ControlRow(g, Some(owner.instance), Some(now))
                  && after.owners == db.owners[g := OwnerRow(owner.instance, Some(now))]
                  && after == db.(control := after.control, owners := after.owners))
            && (names && db.control.stopped.Some? ==> r == Ok(Owner(owner.instance, g, db.control.stopped)) && after == db)
  {
    if db.control.instance == Some(owner.instance) {
      assert db.control.generation in db.owners;
      if db.control.stopped.Some? {
        var g := db.control.generation;
        assert db.owners[g := OwnerRow(owner.instance, db.control.stopped)] == db.owners;
      }
    }
  }

  /** A proof reads back as it is in the table: live or stopped, under its instance. */
  lemma OwnerReadsBack(db: Db, id: string, r: Result<Option<Owner>>)
    requires Elected(db) && OwnerRead(db, id, r)
    ensures !(1 <= |id| <= 128) ==> r == Err
    ensures forall g :: g in db.owners && db.owners[g].instance == id ==> r == Ok(Some(Owner(id, g, db.owners[g].stopped)))
    ensures 1 <= |id| <= 128 && (forall g :: g in db.owners ==> db.owners[g].instance != id) ==> r == Ok(None)
  {
  }

  // ---- Commits -----------------------------------------------------------

  /** The signer is the live owner exactly as the control row has it, or nobody
      before any owner. */
  ghost predicate MaySign(db: Db, signer: Option<Owner>) {
    match signer
    case None => db.control == ControlRow(0, None, None)
    case Some(owner) => owner.stopped.None? && owner.generation <= I64_MAX && db.control == ControlRow(owner.generation, Some(owner.instance), None)
  }

  /** Every acceptance of the batch is for this execution, under a key no lookup
      finds, and no two share a scope and key. */
  ghost predicate FreshKeys(db: Db, id: string, batch: seq<Record>) {
    && (forall i :: 0 <= i < |batch| && batch[i].Accepted? ==> IsFresh(db, id, batch[i].entry))
    && (forall i, j :: 0 <= i < j < |batch| && batch[i].Accepted? && batch[j].Accepted? ==>
          batch[i].entry.scope != batch[j].entry.scope || batch[i].entry.key != batch[j].entry.key)
  }

  predicate IsFresh(db: Db, id: string, entry: AcceptedKey) {
    entry.threadId == id && FindKey(db, entry.scope, entry.key).None?
  }

  lemma FreshIsFree(db: Db, id: string, batch: seq<Record>)
    ensures FreshKeys(db, id, batch) <==> KeysFree(db.keys, id, batch)
  {
    if FreshKeys(db, id, batch) {
      forall i | 0 <= i < |batch| && batch[i].Accepted? ensures batch[i].entry.threadId == id && KeyOf(batch[i].entry) !in db.keys {
        assert IsFresh(db, id, batch[i].entry);
      }
    }
  }

  /** In every reachable state the current writer's commit returns the length the
      execution's history then has, if and only if batch, signer, expected version,
      stored format and keys are all right; otherwise it changes nothing. */
  lemma CommitAnswers(w: Wire, steps: seq<Step>, step: Step)
    requires Lawful(w) && AllCooperating(w, steps) && step.CommitStep? && step.writer.Current?
    ensures var db := Run(w, EMPTY, steps);
            var (after, r) := Commit(w, db, Current, step.signer, step.id, step.expected, step.batch);
            && (r.Ok? <==>
                  && step.batch != [] && step.expected + |step.batch| <= I64_MAX && MaySign(db, step.signer)
                  && step.expected == |History(w, EMPTY, steps, step.id)|
                  && (step.id in db.roots ==> 2 <= db.roots[step.id].format <= 7)
                  && FreshKeys(db, step.id, step.batch))
            && (r.Ok? ==> r == Ok(|History(w, EMPTY, steps + [step], step.id)|) == Ok(step.expected + |step.batch|))
            && (r.Err? ==> after == db)
  {
    hide KeysFree, FreshKeys, Admits, MaySign, History, Commit, AllCooperating, Lawful, Run;
    var db := Run(w, EMPTY, steps);
    CommitSucceedsExactly(w, steps, step);
    FreshIsFree(db, step.id, step.batch);
    SignersAdmitted(db, step.signer);
    CommitReturns(w, db, step);
    HistoryOneMore(w, steps, step);
  }

  lemma HistoryOneMore(w: Wire, steps: seq<Step>, step: Step)
    requires step.CommitStep?
    ensures Commits(w, Run(w, EMPTY, steps), step) ==>
              |History(w, EMPTY, steps + [step], step.id)| == |History(w, EMPTY, steps, step.id)| + |step.batch|
  {
    hide Commits, Run, Next;
    RunOneMore(w, steps, step);
  }

  lemma SignersAdmitted(db: Db, signer: Option<Owner>)
    ensures Admits(db.control, signer) <==> MaySign(db, signer)
  {
  }

  lemma CommitReturns(w: Wire, db: Db, step: Step)
    requires step.CommitStep?
    ensures var (after, r) := Commit(w, db, step.writer, step.signer, step.id, step.expected, step.batch);
            (r.Ok? ==> r == Ok(step.expected + |step.batch|)) && (r.Err? ==> after == db)
  {
  }

  /** Whoever has just acquired can commit, and the returned version is what the
      next commit must present. */
  lemma OwnerCommitsInSequence(w: Wire, steps: seq<Step>, first: Step, next: Step)
    requires Lawful(w) && AllCooperating(w, steps) && first.CommitStep? && next.CommitStep?
    requires first.writer.Current? && next.writer.Current? && first.id == next.id && first.signer == next.signer
    requires Commits(w, Run(w, EMPTY, steps), first)
    requires next.batch != [] && next.expected + |next.batch| <= I64_MAX && FreshKeys(Run(w, EMPTY, steps + [first]), next.id, next.batch)
    ensures Commits(w, Run(w, EMPTY, steps + [first]), next) <==>
            Ok(next.expected) == Commit(w, Run(w, EMPTY, steps), Current, first.signer, first.id, first.expected, first.batch).1
  {
    hide FreshKeys, History, Commit, Run, Next;
    var (db, all) := (Run(w, EMPTY, steps), steps + [first]);
    RunOneMore(w, steps, first);
    CommitAnswers(w, steps, first);
    CommitAnswers(w, all, next);
    CommitFormat(w, db, first);
    CommitEffect(w, db, first);
  }

  /** The owner a claim returned may sign in the state the claim leaves. */
  lemma AcquiredOwnerMaySign(w: Wire, db: Db, step: Step, owner: Owner)
    requires Elected(db) && Acquires(w, db, step, owner)
    ensures MaySign(Next(w, db, step), Some(owner))
  {
    AcquiresEffect(w, db, step, owner);
    NextElected(w, db, step);
  }

  // ---- Journal pages -----------------------------------------------------

  /** When a page request is refused before any record is looked at. */
  predicate RefusesPage(db: Db, id: string, after: nat, end: int) {
    id in db.roots && (!(2 <= db.roots[id].format <= 7) || after > end || end > db.roots[id].version)
  }

  predicate PageBounds(limit: nat, maxBytes: nat) {
    1 <= limit <= 128 && 1 <= maxBytes <= 4194304
  }

  /** The journal reader's answer to every request, with or without a cutoff: bounds
      first, then nothing for an unknown execution, then the guards, then the page of
      the slice; without a cutoff the slice ends where the journal does. */
  lemma RecordPageAnswers(w: Wire, db: Db, id: string, after: nat, cutoff: Option<nat>, limit: nat, maxBytes: nat)
    requires Lawful(w) && Journaled(w, db)
    ensures var r := ReadRecords(w, db, id, after, cutoff, limit, maxBytes);
            var end: int := if cutoff.Some? then cutoff.value else |Facts(w, db, id)|;
            && (!PageBounds(limit, maxBytes) ==> r == Err)
            && (PageBounds(limit, maxBytes) && id !in db.roots ==> r == Ok(None))
            && (PageBounds(limit, maxBytes) && RefusesPage(db, id, after, end) ==> r == Err)
            && (PageBounds(limit, maxBytes) && id in db.roots && !RefusesPage(db, id, after, end) ==>
                  after <= end <= |Facts(w, db, id)| && SlicePage(w, Facts(w, db, id)[after..end], after, limit, maxBytes, r))
  {
    var end: int := if cutoff.Some? then cutoff.value else |Facts(w, db, id)|;
    hide SlicePage, RecordsPage, Journaled;
    if PageBounds(limit, maxBytes) && id in db.roots && !RefusesPage(db, id, after, end) {
      PinnedPage(w, db, id, after, cutoff, limit, maxBytes);
      RecordPageIsSlice(w, db, id, after, end, limit, maxBytes);
    }
  }

  /** A page without a cutoff is the page pinned at the version. */
  lemma PinnedPage(w: Wire, db: Db, id: string, after: nat, cutoff: Option<nat>, limit: nat, maxBytes: nat)
    requires id in db.roots && db.roots[id].version >= 0
    ensures cutoff.None? ==>
              ReadRecords(w, db, id, after, None, limit, maxBytes) == ReadRecords(w, db, id, after, Some(db.roots[id].version), limit, maxBytes)
  {
  }

  /** A walk whose first page names no cutoff, and whose others name the one that
      page pinned. */
  ghost function FollowFromStart(w: Wire, id: string, after: nat, requests: seq<Request>): Option<seq<Record>> {
    if requests == [] then None
    else
      match ReadRecords(w, requests[0].db, id, after, None, requests[0].limit, requests[0].maxBytes)
      case Ok(Some(page)) =>
        if page.next.None? then Some(page.records)
        else if page.next.value < 0 || page.cutoff < 0 then None
        else
          (match FollowRecords(w, id, page.next.value, page.cutoff, requests[1..])
           case None => None
           case Some(rest) => Some(page.records + rest))
      case _ => None
  }

  /** Such a walk, once finished, has everything the journal held past the start
      when it began, with any steps in between. */
  lemma WalkFromStartIsJournal(w: Wire, base: Db, id: string, after: nat, requests: seq<Request>)
    requires Lawful(w) && Journaled(w, base) && Evolves(w, base, requests)
    requires FollowFromStart(w, id, after, requests).Some?
    ensures var db := requests[0].db;
            && Journaled(w, db) && after <= |Facts(w, db, id)|
            && FollowFromStart(w, id, after, requests).value == Facts(w, db, id)[after..]
  {
    hide ReadRecords, Journaled, Reaches, Lawful, Facts;
    var first := requests[0];
    ReachedFacts(w, base, first.db);
    var facts := Facts(w, first.db, id);
    RecordPageAnswers(w, first.db, id, after, None, first.limit, first.maxBytes);
    var page := ReadRecords(w, first.db, id, after, None, first.limit, first.maxBytes).value.value;
    assert facts[after..|facts|] == facts[after..];
    if page.next.Some? {
      RecordWalkIsSlice(w, first.db, id, page.next.value, page.cutoff, requests[1..]);
      SliceSplits(facts, after, page.next.value, |facts|);
    }
  }

  /** A load answers by the same formats, and says which the journal has. */
  lemma LoadAnswers(w: Wire, db: Db, id: string)
    requires Lawful(w) && Journaled(w, db)
    ensures var r := Load(w, db, id);
            && (id !in db.roots ==> r == Ok(None))
            && (id in db.roots && 2 <= db.roots[id].format <= 7 ==>
                  r == Ok(Some(StoredExecution(db.roots[id].format, |Facts(w, db, id)|, Facts(w, db, id)))))
            && (id in db.roots && !(2 <= db.roots[id].format <= 7) ==> r == Err)
  {
    hide Load, Journaled, Facts;
    LoadIsFacts(w, db, id);
  }

  // ---- Other readers -----------------------------------------------------

  /** The history reader refuses, before looking at any row, exactly a request out of
      bounds, of an unknown execution, of an unsupported format or past its version. */
  lemma HistoryRefuses(w: Wire, db: Db, id: string, after: nat, cutoff: nat, limit: nat, maxBytes: nat)
    requires Lawful(w) && Journaled(w, db)
    ensures !(1 <= limit <= 1000) || maxBytes == 0 || after > cutoff ==>
              ThreadHistory(w, db, id, after, cutoff, limit, maxBytes, true) == Err
    ensures id !in db.roots || !(2 <= db.roots[id].format <= 7) || cutoff > |Facts(w, db, id)| ==>
              ThreadHistory(w, db, id, after, cutoff, limit, maxBytes, true) == Err
    ensures after == cutoff <= |Facts(w, db, id)| && 1 <= limit <= 1000 && maxBytes > 0 && id in db.roots && 2 <= db.roots[id].format <= 7 ==>
              ThreadHistory(w, db, id, after, cutoff, limit, maxBytes, true) == Ok(HistoryChunk([], false))
  {
  }

  /** The index reader refuses exactly a request out of bounds or a cutoff out of
      range; at the cutoff its page is empty and final. */
  lemma IndexRefuses(w: Wire, db: Db, after: nat, cutoff: nat, limit: nat, maxBytes: nat)
    ensures !(1 <= limit <= 128) || !(1 <= maxBytes <= 4194304) || after > cutoff || cutoff > IndexHead(db.index) ==>
              ReadIndex(w, db, after, Some(cutoff), limit, maxBytes) == Err
    ensures 1 <= limit <= 128 && 1 <= maxBytes <= 4194304 && after == cutoff <= IndexHead(db.index) ==>
              ReadIndex(w, db, after, Some(cutoff), limit, maxBytes) == Ok(IndexPage(cutoff, [], None))
  {
  }
}
