/** Election and fencing over whole runs, by any number of instances. */
module Ownership {
  import opened Basics
  import opened Codec
  import opened ExecutionDb
  import opened ExecutionPages

  /** Proofs exist for exactly the generations so far, the control row is the
      last proof, every earlier proof is stopped, and instances are distinct. */
  ghost predicate Elected(db: Db) {
    var last := db.control.generation;
    && 0 <= last <= I64_MAX
    && (forall g :: g in db.owners <==> 1 <= g <= last)
    && (last == 0 ==> db.control == ControlRow(0, None, None))
    && (last > 0 ==> db.control.instance.Some? && db.owners[last] == OwnerRow(db.control.instance.value, db.control.stopped))
    && (forall g :: 1 <= g < last ==> db.owners[g].stopped.Some?)
    && (forall g, h :: g in db.owners && h in db.owners && db.owners[g].instance == db.owners[h].instance ==> g == h)
    && (forall g :: g in db.owners ==> ValidOwnerId(db.owners[g].instance))
    && (forall g :: g in db.owners && db.owners[g].stopped.Some? ==> 0 <= db.owners[g].stopped.value <= I64_MAX)
  }

  ghost predicate SameOwners(a: Db, b: Db) {
    a.control == b.control && a.owners == b.owners
  }

  ghost predicate CanSeat(db: Db, id: string) {
    && Decide(db.control, id, db.roots != map[]).Advance?
    && ValidOwnerId(id)
    && db.control.generation < I64_MAX
    && !Retired(db.owners, id)
    && db.control.generation + 1 !in db.owners
  }

  lemma ReconciledKeeps(db: Db)
    ensures var after := Reconciled(db);
            SameOwners(after, db) && after.roots == db.roots && after.keys == db.keys && after.records == db.records
  {
  }

  /** A claim that seats nobody at most repairs the index. */
  lemma RenewTables(w: Wire, db: Db, id: string, budgeted: bool)
    requires !ValidOwnerId(id) || !Decide(db.control, id, db.roots != map[]).Advance?
    ensures var (after, r) := Claim(w, db, id, budgeted);
            if r.Ok? && r.value.Acquired? then after == Reconciled(db) else after == db
  {
    hide Reconciled, RootBytes, TakeOver, ConvertOwner;
    if ValidOwnerId(id) {
      match Decide(db.control, id, db.roots != map[])
      case Renew(_) =>
      case Refuse(claim) =>
      case Fail =>
    }
  }

  lemma ClaimEffect(w: Wire, db: Db, id: string, budgeted: bool)
    ensures var (after, r) := Claim(w, db, id, budgeted);
            && after.roots == db.roots && after.keys == db.keys
            && (SameOwners(after, db) || (CanSeat(db, id) && SameOwners(after, Seated(db, id))))
            && (r.Ok? && r.value.Acquired? ==>
                  after.control == ControlRow(r.value.owner.generation, Some(r.value.owner.instance), None)
                  && r.value.owner.instance == id && r.value.owner.stopped.None? && r.value.owner.generation > 0)
            && (r.Err? || !r.value.Acquired? ==> after == db)
  {
    hide Reconciled, RootBytes, TakeOver;
    if ValidOwnerId(id) && Decide(db.control, id, db.roots != map[]).Advance? {
      TakeOverEffect(w, db, id, budgeted);
      assert Claim(w, db, id, budgeted) == TakeOver(w, db, id, budgeted);
    } else {
      RenewTables(w, db, id, budgeted);
      ReconciledKeeps(db);
    }
  }

  lemma OlderClaimEffect(db: Db, id: string)
    ensures var (after, r) := OlderClaim(db, id);
            && (after == db || (CanSeat(db, id) && after == Seated(db, id)))
            && (r.Ok? && r.value.Acquired? ==>
                  after.control == ControlRow(r.value.owner.generation, Some(r.value.owner.instance), None)
                  && r.value.owner.instance == id && r.value.owner.stopped.None? && r.value.owner.generation > 0)
            && (r.Err? || !r.value.Acquired? ==> after == db)
  {
  }

  /** Any won claim seats its owner, and only on its own instance. */
  lemma AcquiresEffect(w: Wire, db: Db, step: Step, owner: Owner)
    requires Acquires(w, db, step, owner)
    ensures Next(w, db, step).control == ControlRow(owner.generation, Some(owner.instance), None)
    ensures owner.generation > 0 && owner.stopped.None? && Claims(step, owner.instance)
  {
    if step.ClaimStep? { ClaimEffect(w, db, step.instance, step.budgeted); }
    if step.OlderClaimStep? { OlderClaimEffect(db, step.instance); }
  }

  lemma TakeOverEffect(w: Wire, db: Db, id: string, budgeted: bool)
    requires ValidOwnerId(id) && Decide(db.control, id, db.roots != map[]).Advance?
    ensures var (after, r) := TakeOver(w, db, id, budgeted);
            && after.roots == db.roots && after.keys == db.keys
            && (r.Err? ==> after == db)
            && (r.Ok? ==> CanSeat(db, id) && SameOwners(after, Seated(db, id)) && db.control.generation >= 0)
            && (r.Ok? ==> r == Ok(Acquired(Owner(id, db.control.generation + 1, None))))
  {
    PrepareEffect(w, Seated(db, id), budgeted);
  }

  lemma PrepareEffect(w: Wire, db: Db, budgeted: bool)
    ensures Prepare(w, db, budgeted).Ok? ==>
              var ready := Prepare(w, db, budgeted).value;
              ready.control == db.control && ready.owners == db.owners && ready.roots == db.roots && ready.keys == db.keys
  {
  }

  lemma CommitEffect(w: Wire, db: Db, step: Step)
    requires step.CommitStep?
    ensures var after := Next(w, db, step);
            && after.control == db.control && after.owners == db.owners
            && (Commits(w, db, step) ==> Admits(db.control, step.signer) && after.roots.Keys == db.roots.Keys + {step.id})
            && (!Commits(w, db, step) ==> after == db)
  {
  }

  lemma NextElected(w: Wire, db: Db, step: Step)
    requires Elected(db)
    ensures Elected(Next(w, db, step)) && Retains(db, Next(w, db, step))
  {
    match step
    case ClaimStep(id, budgeted) =>
      ClaimEffect(w, db, id, budgeted);
      if CanSeat(db, id) { SeatedElected(db, id); }
    case OlderClaimStep(id) =>
      OlderClaimEffect(db, id);
      if CanSeat(db, id) { SeatedElected(db, id); }
    case CommitStep(_, _, _, _, _) => CommitEffect(w, db, step);
    case StopStep(owner, now) => StopElected(db, owner, now);
    case Burn(_) =>
  }

  lemma StopElected(db: Db, owner: Owner, now: nat)
    requires Elected(db)
    ensures Elected(Stop(db, owner, now).0) && Retains(db, Stop(db, owner, now).0)
  {
  }

  lemma SeatedElected(db: Db, id: string)
    requires Elected(db) && CanSeat(db, id)
    ensures Elected(Seated(db, id)) && Retains(db, Seated(db, id))
  {
  }

  lemma {:induction false} RunElected(w: Wire, db: Db, steps: seq<Step>)
    requires Elected(db)
    ensures Elected(Run(w, db, steps))
  {
    if steps != [] {
      RunElected(w, db, steps[..|steps| - 1]);
      NextElected(w, Run(w, db, steps[..|steps| - 1]), steps[|steps| - 1]);
    }
  }

  lemma AtMostOneLiveOwner(w: Wire, steps: seq<Step>, g: int, h: int)
    requires var db := Run(w, EMPTY, steps);
             g in db.owners && h in db.owners && db.owners[g].stopped.None? && db.owners[h].stopped.None?
    ensures g == h == Run(w, EMPTY, steps).control.generation
  {
    RunElected(w, EMPTY, steps);
  }

  /** Proofs are only added, and a recorded stop time never changes. */
  ghost predicate Retains(a: Db, b: Db) {
    && a.control.generation <= b.control.generation
    && (forall g :: g in a.owners ==> g in b.owners && b.owners[g].instance == a.owners[g].instance)
    && (forall g :: g in a.owners && a.owners[g].stopped.Some? ==> b.owners[g] == a.owners[g])
    && a.roots.Keys <= b.roots.Keys
  }

  /** The state before step i. */
  ghost function At(w: Wire, db: Db, steps: seq<Step>, i: nat): Db
    requires i <= |steps|
  {
    Run(w, db, steps[..i])
  }

  lemma AtNext(w: Wire, db: Db, steps: seq<Step>, i: nat)
    requires i < |steps|
    ensures At(w, db, steps, i + 1) == Next(w, At(w, db, steps, i), steps[i])
  {
    assert steps[..i + 1][..i] == steps[..i];
  }

  lemma {:induction false} RunRetains(w: Wire, db: Db, steps: seq<Step>, i: nat, j: nat)
    requires Elected(db) && i <= j <= |steps|
    ensures Elected(At(w, db, steps, i)) && Elected(At(w, db, steps, j))
    ensures Retains(At(w, db, steps, i), At(w, db, steps, j))
    decreases j
  {
    hide Retains, Elected, Run, Next;
    RunElected(w, db, steps[..i]);
    RunElected(w, db, steps[..j]);
    if i < j {
      RunRetains(w, db, steps, i, j - 1);
      AtNext(w, db, steps, j - 1);
      NextElected(w, At(w, db, steps, j - 1), steps[j - 1]);
      RetainsTransitive(At(w, db, steps, i), At(w, db, steps, j - 1), At(w, db, steps, j));
    } else {
      RetainsReflexive(At(w, db, steps, i));
    }
  }

  lemma RetainsReflexive(a: Db)
    ensures Retains(a, a)
  {
  }

  lemma RetainsTransitive(a: Db, b: Db, c: Db)
    requires Retains(a, b) && Retains(b, c)
    ensures Retains(a, c)
  {
  }

  // ---- Outcomes of single steps ------------------------------------------

  ghost predicate Commits(w: Wire, db: Db, step: Step) {
    step.CommitStep? && Commit(w, db, step.writer, step.signer, step.id, step.expected, step.batch).1.Ok?
  }

  ghost predicate Stops(db: Db, step: Step) {
    step.StopStep? && Stop(db, step.owner, step.now).1.Ok?
  }

  ghost predicate Acquires(w: Wire, db: Db, step: Step, owner: Owner) {
    || (step.ClaimStep? && Claim(w, db, step.instance, step.budgeted).1 == Ok(Acquired(owner)))
    || (step.OlderClaimStep? && OlderClaim(db, step.instance).1 == Ok(Acquired(owner)))
  }

  predicate Claims(step: Step, id: string) {
    (step.ClaimStep? || step.OlderClaimStep?) && step.instance == id
  }

  // ---- Fencing -----------------------------------------------------------

  /** Generations of successful owned commits never decrease. */
  lemma CommitGenerationsNeverDecrease(w: Wire, db: Db, steps: seq<Step>, i: nat, j: nat)
    requires Elected(db) && i <= j < |steps|
    requires Commits(w, At(w, db, steps, i), steps[i]) && steps[i].signer.Some?
    requires Commits(w, At(w, db, steps, j), steps[j]) && steps[j].signer.Some?
    ensures steps[i].signer.value.generation <= steps[j].signer.value.generation
  {
    RunRetains(w, db, steps, i, j);
  }

  /** After an owner's stop no commit that names its generation succeeds. */
  lemma NoCommitAfterStop(w: Wire, db: Db, steps: seq<Step>, i: nat, j: nat)
    requires Elected(db) && i < j < |steps|
    requires Stops(At(w, db, steps, i), steps[i])
    requires steps[j].CommitStep? && steps[j].signer.Some?
    requires steps[j].signer.value.generation == steps[i].owner.generation
    ensures !Commits(w, At(w, db, steps, j), steps[j])
  {
    AtNext(w, db, steps, i);
    RunRetains(w, db, steps, i + 1, j);
    var stopped := At(w, db, steps, i + 1);
    assert stopped.owners[steps[i].owner.generation].stopped.Some?;
  }

  /** After a claim is won no commit of an earlier generation succeeds. */
  lemma NoCommitAfterTakeover(w: Wire, db: Db, steps: seq<Step>, i: nat, j: nat, owner: Owner)
    requires Elected(db) && i < j < |steps|
    requires Acquires(w, At(w, db, steps, i), steps[i], owner)
    requires steps[j].CommitStep? && steps[j].signer.Some? && steps[j].signer.value.generation < owner.generation
    ensures !Commits(w, At(w, db, steps, j), steps[j])
  {
    AtNext(w, db, steps, i);
    AcquiresEffect(w, At(w, db, steps, i), steps[i], owner);
    RunRetains(w, db, steps, i + 1, j);
  }

  /** While an owner lives, only a stop that names exactly it can change the
      ownership tables; every other claimant is told who blocks it. */
  lemma {:induction false} LiveOwnerExcludesOthers(w: Wire, db: Db, steps: seq<Step>, i: nat, j: nat, owner: Owner)
    requires Elected(db) && i <= j <= |steps|
    requires owner.stopped.None? && owner.generation > 0
    requires At(w, db, steps, i).control == ControlRow(owner.generation, Some(owner.instance), None)
    requires forall k :: i <= k < j && steps[k].StopStep? ==>
               steps[k].owner.instance != owner.instance || steps[k].owner.generation != owner.generation
    ensures At(w, db, steps, j).control == At(w, db, steps, i).control
    ensures At(w, db, steps, j).owners == At(w, db, steps, i).owners
    ensures forall other, budgeted :: ValidOwnerId(other) && other != owner.instance ==>
              Claim(w, At(w, db, steps, j), other, budgeted) == (At(w, db, steps, j), Ok(Blocked(owner)))
    ensures forall other :: ValidOwnerId(other) && other != owner.instance ==>
              OlderClaim(At(w, db, steps, j), other) == (At(w, db, steps, j), Ok(Blocked(owner)))
    decreases j
  {
    hide Elected, Run, Next, Claim, OlderClaim;
    RunElected(w, db, steps[..i]);
    if i < j {
      LiveOwnerExcludesOthers(w, db, steps, i, j - 1, owner);
      AtNext(w, db, steps, j - 1);
      LiveOwnerStays(w, At(w, db, steps, j - 1), steps[j - 1], owner);
    }
    forall other, budgeted | ValidOwnerId(other) && other != owner.instance
      ensures Claim(w, At(w, db, steps, j), other, budgeted) == (At(w, db, steps, j), Ok(Blocked(owner)))
    {
      LiveOwnerBlocks(w, At(w, db, steps, i), At(w, db, steps, j), owner, other, budgeted);
    }
    forall other | ValidOwnerId(other) && other != owner.instance
      ensures OlderClaim(At(w, db, steps, j), other) == (At(w, db, steps, j), Ok(Blocked(owner)))
    {
      LiveOwnerBlocks(w, At(w, db, steps, i), At(w, db, steps, j), owner, other, false);
    }
  }

  lemma LiveOwnerStays(w: Wire, db: Db, step: Step, owner: Owner)
    requires owner.stopped.None? && db.control == ControlRow(owner.generation, Some(owner.instance), None)
    requires step.StopStep? ==> step.owner.instance != owner.instance || step.owner.generation != owner.generation
    ensures SameOwners(db, Next(w, db, step))
  {
    match step
    case ClaimStep(id, budgeted) => ClaimEffect(w, db, id, budgeted);
    case OlderClaimStep(id) => OlderClaimEffect(db, id);
    case CommitStep(_, _, _, _, _) => CommitEffect(w, db, step);
    case StopStep(_, _) =>
    case Burn(_) =>
  }

  lemma LiveOwnerBlocks(w: Wire, db: Db, later: Db, owner: Owner, other: string, budgeted: bool)
    requires Elected(db) && later.control == db.control == ControlRow(owner.generation, Some(owner.instance), None)
    requires owner.stopped.None? && owner.generation > 0 && ValidOwnerId(other) && other != owner.instance
    ensures Claim(w, later, other, budgeted) == (later, Ok(Blocked(owner)))
    ensures OlderClaim(later, other) == (later, Ok(Blocked(owner)))
  {
    hide TakeOver, Reconciled;
    assert ValidOwnerId(owner.instance) by {
      assert owner.generation in db.owners;
    }
  }

  /** A repeated stop returns the first stop, for ever. */
  lemma RepeatedStopReturnsFirst(w: Wire, db: Db, steps: seq<Step>, i: nat, j: nat)
    requires Elected(db) && i < j < |steps|
    requires Stops(At(w, db, steps, i), steps[i]) && steps[j].StopStep? && steps[j].owner == steps[i].owner
    ensures Stops(At(w, db, steps, j), steps[j]) <==> At(w, db, steps, j).control.generation == steps[i].owner.generation
    ensures Stops(At(w, db, steps, j), steps[j]) ==>
              Stop(At(w, db, steps, j), steps[j].owner, steps[j].now).1 == Stop(At(w, db, steps, i), steps[i].owner, steps[i].now).1
  {
    hide At, Run;
    AtNext(w, db, steps, i);
    RunRetains(w, db, steps, i, i + 1);
    RunRetains(w, db, steps, i + 1, j);
    StopAgain(w, At(w, db, steps, i), At(w, db, steps, j), steps[i], steps[j]);
  }

  lemma StopAgain(w: Wire, db: Db, later: Db, first: Step, second: Step)
    requires Elected(db) && Elected(later) && Stops(db, first) && Retains(Next(w, db, first), later)
    requires second.StopStep? && second.owner == first.owner
    ensures Stops(later, second) <==> later.control.generation == first.owner.generation
    ensures Stops(later, second) ==> Stop(later, second.owner, second.now).1 == Stop(db, first.owner, first.now).1
  {
  }

  /** The retained proof reads back as it was returned, whatever happens later. */
  lemma StopProofReadsBack(w: Wire, db: Db, steps: seq<Step>, i: nat, j: nat, r: Result<Option<Owner>>)
    requires Elected(db) && i < j <= |steps|
    requires Stops(At(w, db, steps, i), steps[i])
    requires OwnerRead(At(w, db, steps, j), steps[i].owner.instance, r)
    ensures r == Ok(Some(Stop(At(w, db, steps, i), steps[i].owner, steps[i].now).1.value))
  {
    AtNext(w, db, steps, i);
    RunRetains(w, db, steps, i, i + 1);
    RunRetains(w, db, steps, i + 1, j);
    var generation := steps[i].owner.generation;
    assert At(w, db, steps, i + 1).owners[generation].instance == steps[i].owner.instance;
  }

  /** An instance that has been stopped can never own again. */
  lemma RetiredInstanceNeverReturns(w: Wire, db: Db, steps: seq<Step>, i: nat, j: nat, owner: Owner)
    requires Elected(db) && i < j < |steps|
    requires Stops(At(w, db, steps, i), steps[i])
    requires Claims(steps[j], steps[i].owner.instance)
    ensures !Acquires(w, At(w, db, steps, j), steps[j], owner)
  {
    hide At, Run;
    AtNext(w, db, steps, i);
    RunRetains(w, db, steps, i, i + 1);
    RunRetains(w, db, steps, i + 1, j);
    StoppedIsRecorded(w, At(w, db, steps, i), steps[i]);
    RecordedNeverAcquires(w, At(w, db, steps, j), steps[j], steps[i].owner.generation, owner);
  }

  lemma StoppedIsRecorded(w: Wire, db: Db, step: Step)
    requires Elected(db) && Stops(db, step)
    ensures var after := Next(w, db, step); var g := step.owner.generation;
            g in after.owners && after.owners[g].instance == step.owner.instance && after.owners[g].stopped.Some?
  {
  }

  lemma RecordedNeverAcquires(w: Wire, db: Db, step: Step, g: int, owner: Owner)
    requires Elected(db) && (step.ClaimStep? || step.OlderClaimStep?)
    requires g in db.owners && db.owners[g].instance == step.instance && db.owners[g].stopped.Some?
    ensures !Acquires(w, db, step, owner)
  {
    hide TakeOver;
    assert Retired(db.owners, step.instance);
    if step.ClaimStep? && ValidOwnerId(step.instance) && Decide(db.control, step.instance, db.roots != map[]).Advance? {
      TakeOverEffect(w, db, step.instance, step.budgeted);
      assert Claim(w, db, step.instance, step.budgeted) == TakeOver(w, db, step.instance, step.budgeted);
    }
  }

  // ---- Fenced and unfenced modes -----------------------------------------

  ghost predicate Bootstrapped(db: Db) {
    db.control == ControlRow(0, None, None) && db.roots != map[]
  }

  lemma {:induction false} BootstrapIsForever(w: Wire, db: Db, steps: seq<Step>, i: nat, j: nat)
    requires Elected(db) && i <= j <= |steps| && Bootstrapped(At(w, db, steps, i))
    ensures Bootstrapped(At(w, db, steps, j))
    decreases j
  {
    hide At, Run, Next;
    if i < j {
      BootstrapIsForever(w, db, steps, i, j - 1);
      AtNext(w, db, steps, j - 1);
      RunRetains(w, db, steps, j - 1, j);
      NextBootstrapped(w, At(w, db, steps, j - 1), steps[j - 1]);
    }
  }

  lemma NextBootstrapped(w: Wire, db: Db, step: Step)
    requires Elected(db) && Bootstrapped(db)
    ensures Bootstrapped(Next(w, db, step))
  {
    NextElected(w, db, step);
    var id :| id in db.roots;
    assert id in Next(w, db, step).roots;
    match step
    case ClaimStep(id, budgeted) => ClaimEffect(w, db, id, budgeted);
    case OlderClaimStep(id) => OlderClaimEffect(db, id);
    case CommitStep(_, _, _, _, _) => CommitEffect(w, db, step);
    case StopStep(_, _) =>
    case Burn(_) =>
  }

  /** No run has both a successful unowned commit and a won claim. */
  lemma ModesExcludeEachOther(w: Wire, db: Db, steps: seq<Step>, i: nat, j: nat, owner: Owner)
    requires Elected(db) && i < |steps| && j < |steps|
    requires Commits(w, At(w, db, steps, i), steps[i]) && steps[i].signer.None?
    ensures !Acquires(w, At(w, db, steps, j), steps[j], owner)
  {
    if i < j {
      AtNext(w, db, steps, i);
      CommitEffect(w, At(w, db, steps, i), steps[i]);
      assert steps[i].id in At(w, db, steps, i + 1).roots;
      BootstrapIsForever(w, db, steps, i + 1, j);
    } else if j < i && Acquires(w, At(w, db, steps, j), steps[j], owner) {
      AtNext(w, db, steps, j);
      AcquiresEffect(w, At(w, db, steps, j), steps[j], owner);
      RunRetains(w, db, steps, j + 1, i);
      assert false;
    }
  }
}
