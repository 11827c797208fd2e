/** The tables of the execution store, and what one transaction of each writer
    does to all of them. A transaction that fails leaves every table alone. */
module ExecutionDb {
  import opened Basics
  import opened Codec

  datatype ControlRow = ControlRow(generation: int, instance: Option<string>, stopped: Option<int>)
  datatype OwnerRow = OwnerRow(instance: string, stopped: Option<int>)
  datatype Root = Root(version: int, format: int)

  datatype Db = Db(
    control: ControlRow,
    owners: map<int, OwnerRow>,
    roots: map<string, Root>,
    records: map<(string, int), string>,
    keys: map<(string, string), AcceptedKey>,
    index: map<int, string>,
    nextPosition: int)

  /** The freshly migrated store. */
  const EMPTY: Db := Db(ControlRow(0, None, None), map[], map[], map[], map[], map[], 1)

  datatype Owner = Owner(instance: string, generation: int, stopped: Option<int>)
  datatype OwnerClaim = Acquired(owner: Owner) | Blocked(owner: Owner) | Unfenced

  const FORMAT: int := 7

  predicate Supported(format: int) {
    2 <= format <= FORMAT
  }

  predicate ValidOwnerId(id: string) {
    0 < |id| <= 128
  }

  function ConvertOwner(instance: string, generation: int, stopped: Option<int>): Result<Owner> {
    if !ValidOwnerId(instance) || generation <= 0 || (stopped.Some? && stopped.value < 0) then Err
    else Ok(Owner(instance, generation, stopped))
  }

  // ---- Discovery index repair -------------------------------------------

  function IndexedIds(index: map<int, string>): set<string> {
    set p | p in index :: index[p]
  }

  function Missing(db: Db): set<string> {
    db.roots.Keys - IndexedIds(db.index)
  }

  /** Positions handed out in execution id order, counting up from `next`. */
  ghost function Assign(missing: set<string>, next: int): map<int, string>
    decreases |missing|
  {
    if missing == {} then map[]
    else
      var id := LeastId(missing);
      Assign(missing - {id}, next + 1)[next := id]
  }

  ghost function Extended(index: map<int, string>, missing: set<string>, next: int): map<int, string> {
    index + Assign(missing, next)
  }

  ghost function Reconciled(db: Db): Db {
    db.(index := Extended(db.index, Missing(db), db.nextPosition),
        nextPosition := db.nextPosition + |Missing(db)|)
  }

  /** What the storage budget is charged for a repair. */
  ghost function RootBytes(w: Wire, ids: set<string>): nat
    decreases |ids|
  {
    if ids == {} then 0
    else
      var id := LeastId(ids);
      w.rootSize(id) + RootBytes(w, ids - {id})
  }

  /** The charge is the sum over the roots, in whatever order they are taken. */
  lemma {:induction false} RootBytesIsSum(w: Wire, ids: set<string>, id: string)
    requires id in ids
    ensures RootBytes(w, ids) == w.rootSize(id) + RootBytes(w, ids - {id})
    ensures RootBytes(w, {}) == 0
    decreases |ids|
  {
    var first := LeastId(ids);
    if id != first {
      RootBytesIsSum(w, ids - {first}, id);
      RootBytesIsSum(w, ids - {id}, first);
      assert ids - {first} - {id} == ids - {id} - {first};
    }
  }

  // ---- Legacy repacking --------------------------------------------------

  /** The rows the repacking query selects. */
  predicate Candidate(w: Wire, payload: string) {
    || StartsWith(payload, LEGACY_PREFIX)
    || (StartsWith(payload, RECORD_TAG) && !StartsWith(payload, EVENT_TAG) && w.chars(payload) >= PACK_FROM)
  }

  function Repack(w: Wire, payload: string): Result<string> {
    match Decode(w, payload)
    case Err => Err
    case Ok(text) =>
      var packed := Encode(w, text);
      Ok(if StartsWith(payload, LEGACY_PREFIX) || |packed| < |payload| then packed else payload)
  }

  function RepackRow(w: Wire, roots: map<string, Root>, id: string, payload: string): Result<string> {
    if !Candidate(w, payload) then Ok(payload)
    else if id !in roots then Err
    else if !Supported(roots[id].format) then Ok(payload)
    else Repack(w, payload)
  }

  ghost function Repacked(w: Wire, roots: map<string, Root>, records: map<(string, int), string>)
    : Result<map<(string, int), string>>
  {
    if forall row :: row in records ==> RepackRow(w, roots, row.0, records[row]).Ok?
    then Ok(map row | row in records :: RepackRow(w, roots, row.0, records[row]).value)
    else Err
  }

  // ---- Ownership ---------------------------------------------------------

  datatype Decision = Renew(owner: Owner) | Refuse(claim: OwnerClaim) | Advance | Fail

  function Decide(control: ControlRow, id: string, anyRoot: bool): Decision {
    match control.instance
    case Some(instance) =>
      (match ConvertOwner(instance, control.generation, control.stopped)
       case Err => Fail
       case Ok(owner) =>
         if instance == id && owner.stopped.None? then Renew(owner)
         else if instance == id || owner.stopped.None? then Refuse(Blocked(owner))
         else Advance)
    case None =>
      if control.generation != 0 || control.stopped.Some? then Fail
      else if anyRoot then Refuse(Unfenced)
      else Advance
  }

  predicate Retired(owners: map<int, OwnerRow>, id: string) {
    exists g :: g in owners && owners[g].instance == id
  }

  ghost function Claim(w: Wire, db: Db, id: string, budgeted: bool): (Db, Result<OwnerClaim>) {
    if !ValidOwnerId(id) then (db, Err)
    else match Decide(db.control, id, db.roots != map[])
      case Fail => (db, Err)
      case Refuse(claim) => (db, Ok(claim))
      case Renew(owner) =>
        if budgeted && RootBytes(w, Missing(db)) > USIZE_MAX then (db, Err)
        else (Reconciled(db), Ok(Acquired(owner)))
      case Advance => TakeOver(w, db, id, budgeted)
  }

  /** What a new owner does before it is admitted: index repair, then repacking. */
  ghost function Prepare(w: Wire, db: Db, budgeted: bool): Result<Db> {
    if budgeted && RootBytes(w, Missing(db)) > USIZE_MAX then Err
    else
      match Repacked(w, db.roots, db.records)
      case Err => Err
      case Ok(records) => Ok(Reconciled(db).(records := records))
  }

  function Seated(db: Db, id: string): Db {
    var generation := db.control.generation + 1;
    db.(owners := db.owners[generation := OwnerRow(id, None)],
        control := ControlRow(generation, Some(id), None))
  }

  ghost function TakeOver(w: Wire, db: Db, id: string, budgeted: bool): (Db, Result<OwnerClaim>) {
    var generation := db.control.generation + 1;
    if generation > I64_MAX || generation in db.owners || Retired(db.owners, id) then (db, Err)
    else if ConvertOwner(id, generation, None).Err? then (db, Err)
    else
      match Prepare(w, Seated(db, id), budgeted)
      case Err => (db, Err)
      case Ok(ready) => (ready, Ok(Acquired(Owner(id, generation, None))))
  }

  /** The same election by an older binary, which neither repairs the index nor
      repacks: it seats itself and nothing more. */
  function OlderClaim(db: Db, id: string): (Db, Result<OwnerClaim>) {
    if !ValidOwnerId(id) then (db, Err)
    else match Decide(db.control, id, db.roots != map[])
      case Fail => (db, Err)
      case Refuse(claim) => (db, Ok(claim))
      case Renew(owner) => (db, Ok(Acquired(owner)))
      case Advance =>
        var generation := db.control.generation + 1;
        if generation > I64_MAX || generation in db.owners || Retired(db.owners, id) || ConvertOwner(id, generation, None).Err? then (db, Err)
        else (Seated(db, id), Ok(Acquired(Owner(id, generation, None))))
  }

  predicate Names(control: ControlRow, owner: Owner) {
    control.instance == Some(owner.instance) && control.generation >= 0 && control.generation == owner.generation
  }

  function Stop(db: Db, owner: Owner, now: nat): (Db, Result<Owner>) {
    if !Names(db.control, owner) then (db, Err)
    else if db.control.stopped.None? && now > I64_MAX then (db, Err)
    else
      var generation := db.control.generation;
      var stopped := if db.control.stopped.Some? then db.control.stopped.value else now;
      if generation !in db.owners || db.owners[generation].instance != owner.instance then (db, Err)
      else match ConvertOwner(owner.instance, generation, Some(stopped))
        case Err => (db, Err)
        case Ok(proof) =>
          (db.(control := db.control.(stopped := Some(stopped)),
               owners := db.owners[generation := OwnerRow(owner.instance, Some(stopped))]),
           Ok(proof))
  }

  // ---- Commits -----------------------------------------------------------

  /** The write fence: the live owner named exactly, or no owner ever. */
  predicate Admits(control: ControlRow, owner: Option<Owner>) {
    match owner
    case Some(o) =>
      && control.instance == Some(o.instance)
      && control.generation == o.generation <= I64_MAX
      && control.stopped.None?
      && o.stopped.None?
    case None => control == ControlRow(0, None, None)
  }

  function KeyOf(entry: AcceptedKey): (string, string) {
    (entry.scope, entry.key)
  }

  /** Inserts the batch's acceptance keys in order; None on the first conflict. */
  function InsertKeys(keys: map<(string, string), AcceptedKey>, id: string, batch: seq<Record>)
    : Option<map<(string, string), AcceptedKey>>
  {
    if batch == [] then Some(keys)
    else
      var last := |batch| - 1;
      match InsertKeys(keys, id, batch[..last])
      case None => None
      case Some(before) =>
        if !batch[last].Accepted? then Some(before)
        else if batch[last].entry.threadId != id || KeyOf(batch[last].entry) in before then None
        else Some(before[KeyOf(batch[last].entry) := batch[last].entry])
  }

  /** Inserts payloads at the sequences after `expected`; None when one is taken. */
  function InsertRows(records: map<(string, int), string>, id: string, expected: int, payloads: seq<string>)
    : Option<map<(string, int), string>>
  {
    if payloads == [] then Some(records)
    else
      var last := |payloads| - 1;
      match InsertRows(records, id, expected, payloads[..last])
      case None => None
      case Some(before) =>
        if (id, expected + last + 1) in before then None
        else Some(before[(id, expected + last + 1) := payloads[last]])
  }

  /** Which binary writes: the current one, or an older one that keeps the same
      fence, versions and keys but has its own row encoding and format number,
      and does not know the discovery index. */
  datatype Writer = Current | Older(format: int, payloads: seq<string>)

  function Payloads(w: Wire, writer: Writer, batch: seq<Record>): seq<string> {
    match writer
    case Current => seq(|batch|, i requires 0 <= i < |batch| => Encode(w, w.json(batch[i])))
    case Older(_, payloads) => payloads
  }

  predicate RootAccepts(db: Db, writer: Writer, id: string, expected: int) {
    && (writer.Current? && id in db.roots ==> Supported(db.roots[id].format))
    && (if expected == 0
        then id !in db.roots && (writer.Current? ==> id !in IndexedIds(db.index))
        else id in db.roots && db.roots[id].version == expected)
  }

  function Commit(w: Wire, db: Db, writer: Writer, owner: Option<Owner>, id: string, expected: nat, batch: seq<Record>)
    : (Db, Result<int>)
  {
    var version := expected + |batch|;
    if batch == [] || version > I64_MAX || !Admits(db.control, owner) || !RootAccepts(db, writer, id, expected) then (db, Err)
    else
      match (InsertKeys(db.keys, id, batch), InsertRows(db.records, id, expected, Payloads(w, writer, batch)))
      case (Some(keys), Some(records)) =>
        var indexed := writer.Current? && expected == 0;
        (db.(roots := db.roots[id := Root(version, if writer.Current? then FORMAT else writer.format)],
             index := if indexed then db.index[db.nextPosition := id] else db.index,
             nextPosition := if indexed then db.nextPosition + 1 else db.nextPosition,
             keys := keys,
             records := records),
         Ok(version))
      case _ => (db, Err)
  }

  // ---- Runs --------------------------------------------------------------

  /** One transaction by any process, or positions burned by a rolled-back insert. */
  datatype Step =
    | ClaimStep(instance: string, budgeted: bool)
    | OlderClaimStep(instance: string)
    | StopStep(owner: Owner, now: nat)
    | CommitStep(writer: Writer, signer: Option<Owner>, id: string, expected: nat, batch: seq<Record>)
    | Burn(positions: nat)

  ghost function Next(w: Wire, db: Db, step: Step): Db {
    match step
    case ClaimStep(instance, budgeted) => Claim(w, db, instance, budgeted).0
    case OlderClaimStep(instance) => OlderClaim(db, instance).0
    case StopStep(owner, now) => Stop(db, owner, now).0
    case CommitStep(writer, signer, id, expected, batch) => Commit(w, db, writer, signer, id, expected, batch).0
    case Burn(positions) => db.(nextPosition := db.nextPosition + positions)
  }

  ghost function Run(w: Wire, db: Db, steps: seq<Step>): Db {
    if steps == [] then db else Next(w, Run(w, db, steps[..|steps| - 1]), steps[|steps| - 1])
  }

  /** An older writer stores the same facts: each payload decodes to its record's
      JSON, is bounded, and a public event stays readable by its tag. */
  ghost predicate Cooperating(w: Wire, step: Step) {
    step.CommitStep? && step.writer.Older? ==>
      && |step.writer.payloads| == |step.batch|
      && forall i :: 0 <= i < |step.batch| ==> Stores(w, step.writer.payloads[i], step.batch[i])
  }

  ghost predicate Stores(w: Wire, payload: string, record: Record) {
    && Decode(w, payload) == Ok(w.json(record))
    && (StartsWith(payload, EVENT_TAG) <==> record.ThreadEvent?)
  }

  ghost predicate AllCooperating(w: Wire, steps: seq<Step>) {
    forall i :: 0 <= i < |steps| ==> Cooperating(w, steps[i])
  }

  ghost predicate Reaches(w: Wire, a: Db, b: Db) {
    exists steps :: AllCooperating(w, steps) && Run(w, a, steps) == b
  }
}
