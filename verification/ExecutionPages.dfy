/** What each bounded reader returns for one state of the tables. */
module ExecutionPages {
  import opened Basics
  import opened Codec
  import opened ExecutionDb
  import opened Paging

  datatype ExecutionPage = ExecutionPage(cutoff: int, records: seq<Record>, next: Option<int>)
  datatype HistoryChunk = HistoryChunk(events: seq<Event>, more: bool)
  datatype IndexPage = IndexPage(cutoff: int, entries: seq<Head>, next: Option<int>)
  datatype StoredExecution = StoredExecution(format: int, version: int, records: seq<Record>)

  // ---- Authoritative journal ---------------------------------------------

  function RecordItem(w: Wire, records: map<(string, int), string>, id: string, sequence: int): Item<Record> {
    if (id, sequence) !in records then Broken
    else match Decode(w, records[(id, sequence)])
      case Err => Broken
      case Ok(text) =>
        match w.parse(text)
        case None => Garbled(|text|)
        case Some(record) => Item(record, |text|)
  }

  function RecordItems(w: Wire, records: map<(string, int), string>, id: string, after: int, end: int)
    : (items: seq<Item<Record>>)
    requires after <= end
    ensures |items| == end - after
    ensures forall i :: 0 <= i < |items| ==> items[i] == RecordItem(w, records, id, after + 1 + i)
  {
    seq(end - after, i requires 0 <= i < end - after => RecordItem(w, records, id, after + 1 + i))
  }

  function ReadRecords(w: Wire, db: Db, id: string, after: nat, cutoff: Option<nat>, limit: nat, maxBytes: nat)
    : Result<Option<ExecutionPage>>
  {
    if limit == 0 || limit > 128 || maxBytes == 0 || maxBytes > MAX_BYTES then Err
    else if id !in db.roots then Ok(None)
    else if !Supported(db.roots[id].format) || db.roots[id].version < 0 then Err
    else
      var version := db.roots[id].version;
      var end := if cutoff.Some? then cutoff.value else version;
      if after > end || end > version then Err
      else RecordsPage(RecordItems(w, db.records, id, after, end), after, end, limit, maxBytes)
  }

  function RecordsPage(items: seq<Item<Record>>, after: int, end: int, limit: nat, maxBytes: nat): Result<Option<ExecutionPage>> {
    match Page(items, limit, maxBytes, false)
    case None => Err
    case Some(n) => Ok(Some(ExecutionPage(end, Prefix(items, n), if after + n < end then Some(after + n) else None)))
  }

  // ---- Public history ----------------------------------------------------

  predicate EventRow(records: map<(string, int), string>, id: string, sequence: int) {
    (id, sequence) in records && StartsWith(records[(id, sequence)], EVENT_TAG)
  }

  /** Sequences in (after, end] whose row carries the public tag, ascending. */
  function EventRows(records: map<(string, int), string>, id: string, after: int, end: int): seq<int>
    decreases end - after
  {
    if after >= end then []
    else if EventRow(records, id, after + 1) then [after + 1] + EventRows(records, id, after + 1, end)
    else EventRows(records, id, after + 1, end)
  }

  lemma {:induction false} EventRowsMeaning(records: map<(string, int), string>, id: string, after: int, end: int)
    ensures var rows := EventRows(records, id, after, end);
            && (forall n :: n in rows <==> after < n <= end && EventRow(records, id, n))
            && (forall i :: 0 <= i < |rows| ==> after < rows[i] <= end && EventRow(records, id, rows[i]))
            && (forall i, j :: 0 <= i < j < |rows| ==> rows[i] < rows[j])
    decreases end - after
  {
    if after < end {
      EventRowsMeaning(records, id, after + 1, end);
    }
  }

  lemma {:induction false} EventRowsTail(records: map<(string, int), string>, id: string, after: int, end: int)
    requires EventRows(records, id, after, end) != []
    ensures var rows := EventRows(records, id, after, end); EventRows(records, id, rows[0], end) == rows[1..]
    decreases end - after
  {
    if !EventRow(records, id, after + 1) {
      EventRowsTail(records, id, after + 1, end);
    }
  }

  function HistoryItem(w: Wire, payload: string, id: string, sequence: int, maxBytes: nat): Item<Event> {
    if |payload| > SaturatingAdd(maxBytes, 128) then Oversized
    else EventItem(w, payload, id, sequence)
  }

  /** The same row without the early test on its raw size. */
  function EventItem(w: Wire, payload: string, id: string, sequence: int): Item<Event> {
    match w.parse(payload)
    case Some(ThreadEvent(event)) =>
      if event.seqNo == sequence && event.threadId == id then Item(event, w.eventSize(event)) else Broken
    case _ => Broken
  }

  function HistoryItems(w: Wire, records: map<(string, int), string>, id: string, rows: seq<int>, maxBytes: nat, early: bool)
    : (items: seq<Item<Event>>)
    ensures |items| == |rows|
    ensures forall i :: 0 <= i < |items| ==> items[i] == StoredEventItem(w, records, id, rows[i], maxBytes, early)
  {
    seq(|rows|, i requires 0 <= i < |rows| => StoredEventItem(w, records, id, rows[i], maxBytes, early))
  }

  function StoredEventItem(w: Wire, records: map<(string, int), string>, id: string, row: int, maxBytes: nat, early: bool): Item<Event> {
    if (id, row) !in records then Broken
    else if early then HistoryItem(w, records[(id, row)], id, row, maxBytes)
    else EventItem(w, records[(id, row)], id, row)
  }

  function ThreadHistory(w: Wire, db: Db, id: string, after: nat, cutoff: nat, limit: nat, maxBytes: nat, early: bool)
    : Result<HistoryChunk>
  {
    if limit == 0 || limit > 1000 || maxBytes == 0 || after > cutoff || cutoff > I64_MAX then Err
    else if id !in db.roots || !Supported(db.roots[id].format) || cutoff > db.roots[id].version then Err
    else HistoryPage(HistoryItems(w, db.records, id, EventRows(db.records, id, after, cutoff), maxBytes, early), limit, maxBytes)
  }

  function HistoryPage(items: seq<Item<Event>>, limit: nat, maxBytes: nat): Result<HistoryChunk> {
    match Page(items, limit, maxBytes, true)
    case None => Err
    case Some(n) => Ok(HistoryChunk(Prefix(items, n), n < |items|))
  }

  lemma HistoryDone(items: seq<Item<Event>>, limit: nat, maxBytes: nat, events: seq<Event>, used: nat)
    requires Progress(items, limit, maxBytes, true, events, used) && limit > 0 && |events| == |items|
    ensures HistoryPage(items, limit, maxBytes) == Ok(HistoryChunk(events, false))
  {
    ProgressDone(items, limit, maxBytes, true, events, used);
  }

  lemma HistoryStop(items: seq<Item<Event>>, limit: nat, maxBytes: nat, events: seq<Event>, used: nat)
    requires Progress(items, limit, maxBytes, true, events, used) && limit > 0 && |events| < |items|
    ensures var item := items[|events|];
            && (item.Broken? ==> HistoryPage(items, limit, maxBytes) == Err)
            && (item.Oversized? || (item.Item? && (|events| == limit || SaturatingAdd(used, item.size) > maxBytes)) ==>
                  HistoryPage(items, limit, maxBytes) == if events == [] then Err else Ok(HistoryChunk(events, true)))
  {
    ProgressStop(items, limit, maxBytes, true, events, used);
  }

  // ---- Discovery index ---------------------------------------------------

  /** Positions in (after, end] that hold an entry, ascending. */
  function Positions(index: map<int, string>, after: int, end: int): (rows: seq<int>)
    ensures forall n :: n in rows <==> after < n <= end && n in index
    ensures forall i :: 0 <= i < |rows| ==> after < rows[i] <= end && rows[i] in index
    ensures forall i, j :: 0 <= i < j < |rows| ==> rows[i] < rows[j]
    decreases end - after
  {
    if after >= end then []
    else if after + 1 in index then [after + 1] + Positions(index, after + 1, end)
    else Positions(index, after + 1, end)
  }

  lemma {:induction false} PositionsTail(index: map<int, string>, after: int, end: int)
    requires Positions(index, after, end) != []
    ensures var rows := Positions(index, after, end); Positions(index, rows[0], end) == rows[1..]
    decreases end - after
  {
    if after + 1 !in index {
      PositionsTail(index, after + 1, end);
    }
  }

  lemma PositionsFirst(index: map<int, string>, after: int, end: int)
    ensures var rows := Positions(index, after, end);
            if rows == [] then forall p :: p in index ==> !(after < p <= end)
            else rows[0] in index && after < rows[0] <= end && forall p :: p in index && after < p <= end ==> rows[0] <= p
  {
    var rows := Positions(index, after, end);
    forall p | p in index && after < p <= end ensures rows != [] && rows[0] <= p {
      assert p in rows;
    }
  }

  ghost predicate IsHead(index: map<int, string>, head: int) {
    if index == map[] then head == 0 else head in index && forall p :: p in index ==> p <= head
  }

  lemma GreatestExists(s: set<int>)
    requires s != {}
    ensures exists m :: m in s && forall x :: x in s ==> x <= m
  {
    var above := (a: int, b: int) => a > b;
    var m := Least(s, above);
    assert IsLeast(m, s, above);
    assert forall x :: x in s && x != m ==> above(m, x);
  }

  /** The largest position in use; zero when nothing is indexed. */
  ghost function IndexHead(index: map<int, string>): (head: int)
    ensures IsHead(index, head)
  {
    if index == map[] then 0
    else
      GreatestExists(index.Keys);
      var m :| m in index.Keys && forall x :: x in index.Keys ==> x <= m;
      m
  }

  function HeadItem(w: Wire, roots: map<string, Root>, position: int, id: string): Item<Head> {
    if id !in roots || roots[id].version < 0 then Broken
    else
      var head := Head(if roots[id].format < 0 then 0 else roots[id].format, position, id, roots[id].version);
      Item(head, w.headSize(head))
  }

  function HeadItems(w: Wire, roots: map<string, Root>, index: map<int, string>, rows: seq<int>): (items: seq<Item<Head>>)
    requires forall i :: 0 <= i < |rows| ==> rows[i] in index
    ensures |items| == |rows|
    ensures forall i :: 0 <= i < |rows| ==> items[i] == HeadItem(w, roots, rows[i], index[rows[i]])
  {
    seq(|rows|, i requires 0 <= i < |rows| => HeadItem(w, roots, rows[i], index[rows[i]]))
  }

  ghost function ReadIndex(w: Wire, db: Db, after: nat, cutoff: Option<nat>, limit: nat, maxBytes: nat): Result<IndexPage> {
    var head := IndexHead(db.index);
    if limit == 0 || limit > 128 || maxBytes == 0 || maxBytes > MAX_BYTES || head < 0 then Err
    else
      var end := if cutoff.Some? then cutoff.value else head;
      if after > end || end > head then Err
      else
        var rows := Positions(db.index, after, end);
        HeadsPage(HeadItems(w, db.roots, db.index, rows), rows, end, limit, maxBytes)
  }

  function HeadsPage(items: seq<Item<Head>>, rows: seq<int>, end: nat, limit: nat, maxBytes: nat): Result<IndexPage>
    requires |items| == |rows|
  {
    match Page(items, limit, maxBytes, true)
    case None => Err
    case Some(n) => Ok(IndexPage(end, Prefix(items, n), if 0 < n < |rows| then Some(rows[n - 1]) else None))
  }

  lemma HeadsDone(items: seq<Item<Head>>, rows: seq<int>, end: nat, limit: nat, maxBytes: nat, entries: seq<Head>, used: nat)
    requires Progress(items, limit, maxBytes, true, entries, used) && limit > 0 && |entries| == |items| == |rows|
    ensures HeadsPage(items, rows, end, limit, maxBytes) == Ok(IndexPage(end, entries, None))
  {
    ProgressDone(items, limit, maxBytes, true, entries, used);
  }

  lemma HeadsStop(items: seq<Item<Head>>, rows: seq<int>, end: nat, limit: nat, maxBytes: nat, entries: seq<Head>, used: nat)
    requires Progress(items, limit, maxBytes, true, entries, used) && limit > 0 && |entries| < |items| == |rows|
    ensures var item := items[|entries|];
            && (item.Broken? ==> HeadsPage(items, rows, end, limit, maxBytes) == Err)
            && (item.Item? && (|entries| == limit || SaturatingAdd(used, item.size) > maxBytes) ==>
                  HeadsPage(items, rows, end, limit, maxBytes) ==
                  if entries == [] then Err else Ok(IndexPage(end, entries, Some(rows[|entries| - 1]))))
  {
    ProgressStop(items, limit, maxBytes, true, entries, used);
  }

  // ---- Whole execution, keys, owners -------------------------------------

  /** The rows of one execution are exactly 1..version, and all are readable. */
  predicate Complete(w: Wire, db: Db, id: string, version: int) {
    && (forall row :: row in db.records && row.0 == id ==> 1 <= row.1 <= version)
    && (forall n :: 1 <= n <= version ==> RecordItem(w, db.records, id, n).Item?)
  }

  function Load(w: Wire, db: Db, id: string): Result<Option<StoredExecution>> {
    if id !in db.roots then Ok(None)
    else if !Supported(db.roots[id].format) || db.roots[id].version < 0 then Err
    else if !Complete(w, db, id, db.roots[id].version) then Err
    else
      var root := db.roots[id];
      Ok(Some(StoredExecution(root.format, root.version, Prefix(RecordItems(w, db.records, id, 0, root.version), root.version))))
  }

  function FindKey(db: Db, scope: string, key: string): Option<AcceptedKey> {
    if (scope, key) in db.keys then Some(db.keys[(scope, key)]) else None
  }

  /** The retained proof of one server instance. */
  ghost predicate OwnerRead(db: Db, id: string, r: Result<Option<Owner>>) {
    if !ValidOwnerId(id) then r.Err?
    else if !Retired(db.owners, id) then r == Ok(None)
    else exists g :: g in db.owners && db.owners[g].instance == id && r == ProofOf(db.owners, g)
  }

  function ProofOf(owners: map<int, OwnerRow>, generation: int): Result<Option<Owner>>
    requires generation in owners
  {
    match ConvertOwner(owners[generation].instance, generation, owners[generation].stopped)
    case Err => Err
    case Ok(owner) => Ok(Some(owner))
  }
}
