/** The store's own statements, in the order the source issues them. Each method
    is proved against the table-level meaning of its transaction. */
module ExecutionStore {
  import opened Basics
  import opened Codec
  import opened ExecutionDb
  import opened ExecutionPages
  import Pages = ExecutionPages
  import opened Keyset
  import opened Paging

  class Database {
    const wire: Wire
    const budgeted: bool
    var control: ControlRow
    var owners: map<int, OwnerRow>
    var roots: map<string, Root>
    var records: map<(string, int), string>
    var keys: map<(string, string), AcceptedKey>
    var index: map<int, string>
    var nextPosition: int

    constructor (wire: Wire, budgeted: bool)
      ensures this.wire == wire && this.budgeted == budgeted && View() == EMPTY
    {
      this.wire := wire;
      this.budgeted := budgeted;
      control, owners, roots, records := EMPTY.control, EMPTY.owners, EMPTY.roots, EMPTY.records;
      keys, index, nextPosition := EMPTY.keys, EMPTY.index, EMPTY.nextPosition;
    }

    function View(): Db
      reads this
    {
      Db(control, owners, roots, records, keys, index, nextPosition)
    }

    /** A transaction that ends in an error puts every table back. */
    method Rollback(saved: Db)
      modifies this
      ensures View() == saved
    {
      control, owners, roots, records := saved.control, saved.owners, saved.roots, saved.records;
      keys, index, nextPosition := saved.keys, saved.index, saved.nextPosition;
    }

    // ---- Index repair ----------------------------------------------------

    /** One keyset page of roots that have no index entry. */
    method FetchMissing(after: Option<string>, limit: nat) returns (rows: seq<string>)
      ensures KeysetPage(rows, Past(Missing(View()), after)) && |rows| <= limit
      ensures rows == [] ==> limit == 0 || Past(Missing(View()), after) == {}
    {
      var left := Past(Missing(View()), after);
      ghost var pending := left;
      rows := [];
      while |rows| < limit && left != {}
        invariant forall x :: x in left <==> x in pending && x !in rows
        invariant KeysetPage(rows, pending)
        invariant |rows| <= limit
        decreases left
      {
        var id := FirstId(left);
        KeysetExtend(rows, pending, left, id);
        rows := rows + [id];
        left := left - {id};
      }
      assert rows == [] && limit > 0 ==> left == pending;
    }

    /** The budget's estimate of a repair, 128 roots at a time; None on overflow. */
    method MeasureMissing() returns (bytes: Option<nat>)
      ensures var total := RootBytes(wire, Missing(View()));
              bytes == if total > USIZE_MAX then None else Some(total)
    {
      var after: Option<string> := None;
      var sum: nat := 0;
      ghost var missing := Missing(View());
      ghost var pending := missing;
      while true
        invariant pending == Past(missing, after)
        invariant sum <= USIZE_MAX
        invariant sum + RootBytes(wire, pending) == RootBytes(wire, missing)
        decreases pending
      {
        var rows := FetchMissing(after, 128);
        if rows == [] { break; }
        ghost var page := pending;
        for i := 0 to |rows|
          invariant Remaining(pending, page, rows, i) && pending == Past(missing, after)
          invariant sum <= USIZE_MAX
          invariant sum + RootBytes(wire, pending) == RootBytes(wire, missing)
        {
          MeasureStep(wire, rows, i, page, missing, after, pending);
          sum := sum + wire.rootSize(rows[i]);
          if sum > USIZE_MAX { return None; }
          after, pending := Some(rows[i]), pending - {rows[i]};
        }
        assert rows[0] in page && rows[0] !in pending;
      }
      return Some(sum);
    }

    /** Adds an entry for every root that has none, in execution id order. */
    method ReconcileExecutionIndex() returns (ok: bool)
      modifies this`index, this`nextPosition
      ensures ok == !(budgeted && RootBytes(wire, Missing(old(View()))) > USIZE_MAX)
      ensures View() == if ok then Reconciled(old(View())) else old(View())
    {
      if budgeted {
        var bytes := MeasureMissing();
        if bytes.None? { return false; }
      }
      ghost var start := View();
      var entries, next := InsertSelect(index, Missing(View()), nextPosition);
      ReconciledTables(start, entries, next);
      index, nextPosition := entries, next;
      return true;
    }

    // ---- Legacy repacking ------------------------------------------------

    /** Walks the matching rows by (execution id, sequence). `handled` records
        the rows in the order they were taken. */
    method CompactLegacyRecords() returns (ok: bool, ghost handled: seq<(string, int)>)
      modifies this`records
      ensures ok <==> Repacked(wire, roots, old(records)).Ok?
      ensures ok ==> records == Repacked(wire, roots, old(records)).value
      ensures forall i, j :: 0 <= i < j < |handled| ==> RowBefore(handled[i], handled[j])
      ensures forall i :: 0 <= i < |handled| ==> handled[i] in old(records) && Candidate(wire, old(records)[handled[i]])
      ensures ok ==> forall row :: row in old(records) && Candidate(wire, old(records)[row]) ==> row in handled
    {
      var cursor: Option<(string, int)> := None;
      ghost var start := records;
      handled := [];
      while true
        invariant Walked(wire, roots, start, records, cursor, handled)
        decreases Ahead(start, cursor)
      {
        var matching := set row | row in records && Follows(cursor, row) && Candidate(wire, records[row]);
        if matching == {} {
          assert forall row :: row in records && Follows(cursor, row) ==> row !in matching;
          WalkEnd(wire, roots, start, records, cursor, handled);
          break;
        }
        var row := FirstRow(matching);
        WalkStep(wire, roots, start, records, cursor, handled, row, matching);
        cursor := Some(row);
        handled := handled + [row];
        ok := RepackStored(row);
        if !ok { return false, handled; }
      }
      return true, handled;
    }

    /** The body of the walk for one selected row. */
    method RepackStored(row: (string, int)) returns (ok: bool)
      requires row in records && Candidate(wire, records[row])
      modifies this`records
      ensures ok <==> RepackRow(wire, roots, row.0, old(records)[row]).Ok?
      ensures ok ==> records == old(records)[row := RepackRow(wire, roots, row.0, old(records)[row]).value]
    {
      if row.0 !in roots { return false; }
      if !Supported(roots[row.0].format) {
        assert records == records[row := records[row]];
        return true;
      }
      var original := records[row];
      var text := Decode(wire, original);
      if text.Err? { return false; }
      var payload := Encode(wire, text.value);
      if !StartsWith(original, LEGACY_PREFIX) && |payload| >= |original| {
        assert records == records[row := original];
        return true;
      }
      records := records[row := payload];
      return true;
    }

    // ---- Ownership -------------------------------------------------------

    /** The no-op update that takes the store-wide write lock. */
    method LockOwnership() returns (current: ControlRow)
      modifies this`control
      ensures View() == old(View()) && current == control
    {
      control := control.(generation := control.generation);
      current := control;
    }

    method ClaimOwner(id: string) returns (r: Result<OwnerClaim>)
      modifies this
      ensures (View(), r) == Claim(wire, old(View()), id, budgeted)
    {
      if !ValidOwnerId(id) { return Err; }
      var saved := View();
      r := ClaimLocked(id);
      if r.Err? { Rollback(saved); }
    }

    method ClaimLocked(id: string) returns (r: Result<OwnerClaim>)
      requires ValidOwnerId(id)
      modifies this
      ensures r == Claim(wire, old(View()), id, budgeted).1
      ensures r.Ok? ==> View() == Claim(wire, old(View()), id, budgeted).0
    {
      var current := LockOwnership();
      if current.instance.Some? {
        var converted := ConvertOwner(current.instance.value, current.generation, current.stopped);
        if converted.Err? { return Err; }
        var owner := converted.value;
        if current.instance.value == id && owner.stopped.None? {
          var ok := ReconcileExecutionIndex();
          return if ok then Ok(Acquired(owner)) else Err;
        }
        if current.instance.value == id || owner.stopped.None? { return Ok(Blocked(owner)); }
      } else {
        if !(current.generation == 0 && current.stopped.None?) { return Err; }
        if roots != map[] { return Ok(Unfenced); }
      }
      r := TakeOverLocked(current, id);
    }

    method TakeOverLocked(current: ControlRow, id: string) returns (r: Result<OwnerClaim>)
      requires current == control && ValidOwnerId(id)
      modifies this
      ensures r == TakeOver(wire, old(View()), id, budgeted).1
      ensures r.Ok? ==> View() == TakeOver(wire, old(View()), id, budgeted).0
    {
      hide Prepare, Reconciled, Repacked;
      if current.generation >= I64_MAX { return Err; }
      var generation := current.generation + 1;
      if generation in owners || exists g :: g in owners && owners[g].instance == id { return Err; }
      owners := owners[generation := OwnerRow(id, None)];
      control := ControlRow(generation, Some(id), None);
      var owner := ConvertOwner(id, generation, None);
      if owner.Err? { return Err; }
      assert View() == Seated(old(View()), id);
      var ok := PrepareLocked();
      return if ok then Ok(Acquired(owner.value)) else Err;
    }

    method PrepareLocked() returns (ok: bool)
      modifies this
      ensures ok <==> Prepare(wire, old(View()), budgeted).Ok?
      ensures ok ==> View() == Prepare(wire, old(View()), budgeted).value
    {
      ok := ReconcileExecutionIndex();
      if ok {
        ghost var handled;
        ok, handled := CompactLegacyRecords();
      }
    }

    method StopOwner(owner: Owner, now: nat) returns (r: Result<Owner>)
      modifies this
      ensures (View(), r) == Stop(old(View()), owner, now)
    {
      var saved := View();
      var current := LockOwnership();
      if !(current.instance == Some(owner.instance) && current.generation >= 0 && current.generation == owner.generation) {
        return Err;
      }
      if current.stopped.None? && now > I64_MAX { return Err; }
      var stopped := if current.stopped.Some? then current.stopped.value else now;
      control := control.(stopped := Some(stopped));
      if current.generation !in owners || owners[current.generation].instance != owner.instance {
        Rollback(saved);
        return Err;
      }
      owners := owners[current.generation := owners[current.generation].(stopped := Some(stopped))];
      r := ConvertOwner(owner.instance, current.generation, Some(stopped));
      if r.Err? { Rollback(saved); }
    }

    method ReadOwner(id: string) returns (r: Result<Option<Owner>>)
      ensures OwnerRead(View(), id, r)
    {
      if !ValidOwnerId(id) { return Err; }
      if !exists g :: g in owners && owners[g].instance == id { return Ok(None); }
      var g :| g in owners && owners[g].instance == id;
      r := ProofOf(owners, g);
    }

    // ---- Commits ---------------------------------------------------------

    method CommitRecords(owner: Option<Owner>, id: string, expected: nat, batch: seq<Record>) returns (r: Result<int>)
      modifies this
      ensures (View(), r) == Commit(wire, old(View()), Current, owner, id, expected, batch)
    {
      if batch == [] || expected > I64_MAX { return Err; }
      var version := expected + |batch|;
      if version > I64_MAX { return Err; }
      var saved := View();
      var ok := CommitLocked(owner, id, expected, batch, Payloads(wire, Current, batch));
      if !ok {
        Rollback(saved);
        return Err;
      }
      return Ok(version);
    }

    method CommitLocked(owner: Option<Owner>, id: string, expected: nat, batch: seq<Record>, payloads: seq<string>)
      returns (ok: bool)
      requires batch != [] && expected + |batch| <= I64_MAX && payloads == Payloads(wire, Current, batch)
      modifies this
      ensures ok <==> Commit(wire, old(View()), Current, owner, id, expected, batch).1.Ok?
      ensures ok ==> View() == Commit(wire, old(View()), Current, owner, id, expected, batch).0
    {
      var version := expected + |batch|;
      var current := LockOwnership();
      match owner {
        case Some(o) =>
          if !(current.instance == Some(o.instance) && o.generation <= I64_MAX && current.generation == o.generation
               && current.stopped.None? && o.stopped.None?) {
            return false;
          }
        case None =>
          if !(current.instance.None? && current.generation == 0 && current.stopped.None?) { return false; }
      }
      if id in roots && !Supported(roots[id].format) { return false; }
      if expected == 0 {
        if id in roots { return false; }
        roots := roots[id := Root(version, FORMAT)];
        if id in IndexedIds(index) { return false; }
        index := index[nextPosition := id];
        nextPosition := nextPosition + 1;
      } else {
        if id !in roots || roots[id].version != expected { return false; }
        roots := roots[id := Root(version, FORMAT)];
      }
      ok := CommitKeys(id, batch);
      if !ok { return false; }
      ok := CommitRows(id, expected, payloads);
    }

    method CommitKeys(id: string, batch: seq<Record>) returns (ok: bool)
      modifies this`keys
      ensures ok <==> InsertKeys(old(keys), id, batch).Some?
      ensures ok ==> keys == InsertKeys(old(keys), id, batch).value
    {
      ghost var start := keys;
      for i := 0 to |batch|
        invariant InsertKeys(start, id, batch[..i]) == Some(keys)
      {
        assert batch[..i + 1][..i] == batch[..i];
        if batch[i].Accepted? {
          var entry := batch[i].entry;
          if entry.threadId != id || KeyOf(entry) in keys {
            InsertKeysFailed(start, id, batch, i + 1);
            return false;
          }
          keys := keys[KeyOf(entry) := entry];
        }
      }
      assert batch[..|batch|] == batch;
      return true;
    }

    static lemma {:induction false} InsertKeysFailed(start: map<(string, string), AcceptedKey>, id: string, batch: seq<Record>, i: nat)
      requires i <= |batch| && InsertKeys(start, id, batch[..i]).None?
      ensures InsertKeys(start, id, batch).None?
      decreases |batch|
    {
      if i == |batch| {
        assert batch[..i] == batch;
      } else {
        assert batch[..|batch| - 1][..i] == batch[..i];
        InsertKeysFailed(start, id, batch[..|batch| - 1], i);
      }
    }

    method CommitRows(id: string, expected: nat, payloads: seq<string>) returns (ok: bool)
      modifies this`records
      ensures ok <==> InsertRows(old(records), id, expected, payloads).Some?
      ensures ok ==> records == InsertRows(old(records), id, expected, payloads).value
    {
      ghost var start := records;
      for i := 0 to |payloads|
        invariant InsertRows(start, id, expected, payloads[..i]) == Some(records)
      {
        assert payloads[..i + 1][..i] == payloads[..i];
        if (id, expected + i + 1) in records {
          InsertRowsFailed(start, id, expected, payloads, i + 1);
          return false;
        }
        records := records[(id, expected + i + 1) := payloads[i]];
      }
      assert payloads[..|payloads|] == payloads;
      return true;
    }

    static lemma {:induction false} InsertRowsFailed(start: map<(string, int), string>, id: string, expected: int, payloads: seq<string>, i: nat)
      requires i <= |payloads| && InsertRows(start, id, expected, payloads[..i]).None?
      ensures InsertRows(start, id, expected, payloads).None?
      decreases |payloads|
    {
      if i == |payloads| {
        assert payloads[..i] == payloads;
      } else {
        assert payloads[..|payloads| - 1][..i] == payloads[..i];
        InsertRowsFailed(start, id, expected, payloads[..|payloads| - 1], i);
      }
    }

    // ---- Bounded readers -------------------------------------------------

    /** The row after `cursor`; None when it is absent or out of sequence. */
    method NextRecord(id: string, cursor: int, end: int) returns (payload: Option<string>)
      requires cursor < end
      ensures payload == if (id, cursor + 1) in records then Some(records[(id, cursor + 1)]) else None
    {
      var rows := set row | row in records && row.0 == id && cursor < row.1 <= end;
      assert (id, cursor + 1) in records ==> (id, cursor + 1) in rows;
      if rows == {} { return None; }
      var row := FirstRow(rows);
      BeforeIrreflexive(id);
      if row.1 != cursor + 1 { return None; }
      assert row == (id, cursor + 1);
      return Some(records[row]);
    }

    method ReadRecords(id: string, after: nat, cutoff: Option<nat>, limit: nat, maxBytes: nat)
      returns (r: Result<Option<ExecutionPage>>)
      ensures r == Pages.ReadRecords(wire, View(), id, after, cutoff, limit, maxBytes)
    {
      if limit == 0 || limit > 128 || maxBytes == 0 || maxBytes > MAX_BYTES { return Err; }
      if id !in roots { return Ok(None); }
      if !Supported(roots[id].format) || roots[id].version < 0 { return Err; }
      var version := roots[id].version;
      var end := if cutoff.Some? then cutoff.value else version;
      if after > end || end > version { return Err; }
      r := ReadSlice(id, after, end, limit, maxBytes);
    }

    method ReadSlice(id: string, after: nat, end: nat, limit: nat, maxBytes: nat) returns (r: Result<Option<ExecutionPage>>)
      requires 0 < limit && after <= end
      ensures r == RecordsPage(RecordItems(wire, records, id, after, end), after, end, limit, maxBytes)
    {
      var cursor: int := after;
      var page: seq<Record> := [];
      var bytes: nat := 0;
      ghost var items := RecordItems(wire, records, id, after, end);
      ProgressStart(items, limit, maxBytes, false);
      while cursor < end && |page| < limit
        invariant after <= cursor <= end && |page| == cursor - after
        invariant Progress(items, limit, maxBytes, false, page, bytes)
      {
        ProgressStop(items, limit, maxBytes, false, page, bytes);
        assert items[|page|] == RecordItem(wire, records, id, cursor + 1);
        var row := NextRecord(id, cursor, end);
        if row.None? { return Err; }
        var payload := Decode(wire, row.value);
        if payload.Err? { return Err; }
        if SaturatingAdd(bytes, |payload.value|) > maxBytes {
          if page == [] { return Err; }
          return Ok(Some(ExecutionPage(end, page, Some(cursor))));
        }
        var record := wire.parse(payload.value);
        if record.None? { return Err; }
        ProgressStep(items, limit, maxBytes, false, page, bytes);
        bytes := SaturatingAdd(bytes, |payload.value|);
        page := page + [record.value];
        cursor := cursor + 1;
      }
      ProgressDone(items, limit, maxBytes, false, page, bytes);
      return Ok(Some(ExecutionPage(end, page, if cursor < end then Some(cursor) else None)));
    }

    /** The next row of the public projection. */
    method NextEventRow(id: string, after: int, cutoff: int) returns (row: Option<int>)
      ensures var rows := EventRows(records, id, after, cutoff);
              row == if rows == [] then None else Some(rows[0])
      ensures row.Some? ==> (id, row.value) in records
    {
      var tagged := set row | row in records && row.0 == id && after < row.1 <= cutoff && StartsWith(records[row], EVENT_TAG);
      ghost var rows := EventRows(records, id, after, cutoff);
      EventRowsMeaning(records, id, after, cutoff);
      assert rows != [] ==> (id, rows[0]) in tagged;
      if tagged == {} { return None; }
      var first := FirstRow(tagged);
      BeforeIrreflexive(id);
      assert first.1 in rows;
      return Some(first.1);
    }

    method ThreadHistory(id: string, after: nat, cutoff: nat, limit: nat, maxBytes: nat) returns (r: Result<HistoryChunk>)
      ensures r == Pages.ThreadHistory(wire, View(), id, after, cutoff, limit, maxBytes, true)
    {
      if limit == 0 || limit > 1000 || maxBytes == 0 || after > cutoff || cutoff > I64_MAX { return Err; }
      if id !in roots || !Supported(roots[id].format) || cutoff > roots[id].version { return Err; }
      r := ReadEvents(id, after, cutoff, limit, maxBytes);
    }

    method ReadEvents(id: string, after: nat, cutoff: nat, limit: nat, maxBytes: nat) returns (r: Result<HistoryChunk>)
      requires 0 < limit
      ensures r == HistoryPage(HistoryItems(wire, records, id, EventRows(records, id, after, cutoff), maxBytes, true), limit, maxBytes)
    {
      var cursor: int := after;
      var events: seq<Event> := [];
      var bytes: nat := 0;
      ghost var rows := EventRows(records, id, after, cutoff);
      ghost var items := HistoryItems(wire, records, id, rows, maxBytes, true);
      ProgressStart(items, limit, maxBytes, true);
      assert rows[0..] == rows;
      while true
        invariant |events| <= |rows| && EventRows(records, id, cursor, cutoff) == rows[|events|..]
        invariant Progress(items, limit, maxBytes, true, events, bytes)
        decreases |rows| - |events|
      {
        var next := NextEventRow(id, cursor, cutoff);
        if next.None? { break; }
        assert next.value == rows[|events|];
        HistoryStop(items, limit, maxBytes, events, bytes);
        EventRowsTail(records, id, cursor, cutoff);
        var admitted := AdmitRow(records[(id, next.value)], id, next.value, events, bytes, limit, maxBytes);
        if admitted.Err? { return Err; }
        if admitted.value.None? { return Ok(HistoryChunk(events, true)); }
        ProgressStep(items, limit, maxBytes, true, events, bytes);
        cursor := next.value;
        events, bytes := admitted.value.value.0, admitted.value.value.1;
      }
      HistoryDone(items, limit, maxBytes, events, bytes);
      return Ok(HistoryChunk(events, false));
    }

    /** One selected row: the grown page, the end of the page, or an error. */
    method AdmitRow(payload: string, id: string, sequence: int, events: seq<Event>, bytes: nat, limit: nat, maxBytes: nat)
      returns (r: Result<Option<(seq<Event>, nat)>>)
      requires |events| <= limit && 0 < limit
      ensures var item := HistoryItem(wire, payload, id, sequence, maxBytes);
              r == if item.Item? && |events| < limit && SaturatingAdd(bytes, item.size) <= maxBytes
                   then Ok(Some((events + [item.value], SaturatingAdd(bytes, item.size))))
                   else if item.Broken? || events == [] then Err else Ok(None)
    {
      if |payload| > SaturatingAdd(maxBytes, 128) {
        return if events != [] then Ok(None) else Err;
      }
      var fact := wire.parse(payload);
      if fact.None? || !fact.value.ThreadEvent? { return Err; }
      var event := fact.value.event;
      if event.seqNo != sequence || event.threadId != id { return Err; }
      if |events| == limit { return Ok(None); }
      r := PushHistoryEvent(events, bytes, event, maxBytes);
    }

    /** Shared byte admission: the grown page, a refusal, or an error for a lone
        event that cannot fit. */
    method PushHistoryEvent(events: seq<Event>, bytes: nat, event: Event, maxBytes: nat)
      returns (r: Result<Option<(seq<Event>, nat)>>)
      ensures var sum := SaturatingAdd(bytes, wire.eventSize(event));
              r == if sum <= maxBytes then Ok(Some((events + [event], sum))) else if events == [] then Err else Ok(None)
    {
      var size := wire.eventSize(event);
      if SaturatingAdd(bytes, size) > maxBytes {
        return if events == [] then Err else Ok(None);
      }
      return Ok(Some((events + [event], SaturatingAdd(bytes, size))));
    }

    method NextPosition(after: int, end: int) returns (position: Option<int>)
      ensures var rows := Positions(index, after, end);
              position == if rows == [] then None else Some(rows[0])
    {
      PositionsFirst(index, after, end);
      if !exists p :: p in index && after < p <= end { return None; }
      var least :| least in index && after < least <= end && forall p :: p in index && after < p <= end ==> least <= p;
      return Some(least);
    }

    /** `WHERE position > after AND position <= end ORDER BY position LIMIT count`. */
    method FetchPositions(after: int, end: int, count: nat) returns (rows: seq<int>)
      ensures var all := Positions(index, after, end); rows == all[..if count < |all| then count else |all|]
    {
      hide Positions;
      rows := [];
      var cursor := after;
      ghost var all := Positions(index, after, end);
      assert all[0..] == all;
      while |rows| < count
        invariant |rows| <= |all| && |rows| <= count && rows == all[..|rows|]
        invariant Positions(index, cursor, end) == all[|rows|..]
      {
        var next := NextPosition(cursor, end);
        if next.None? { break; }
        PositionsTail(index, cursor, end);
        rows := rows + [next.value];
        cursor := next.value;
      }
    }

    method ReadHead() returns (head: int)
      ensures head == IndexHead(index)
    {
      if index == map[] { return 0; }
      ghost var greatest := IndexHead(index);
      assert greatest in index.Keys;
      head :| head in index.Keys && forall x :: x in index.Keys ==> x <= head;
    }

    method ReadIndex(after: nat, cutoff: Option<nat>, limit: nat, maxBytes: nat) returns (r: Result<IndexPage>)
      ensures r == Pages.ReadIndex(wire, View(), after, cutoff, limit, maxBytes)
    {
      if !(1 <= limit <= 128) || !(1 <= maxBytes <= MAX_BYTES) { return Err; }
      var head := ReadHead();
      if head < 0 { return Err; }
      var end := if cutoff.Some? then cutoff.value else head;
      if after > end || end > head { return Err; }
      r := IndexEntries(after, end, limit, maxBytes);
    }

    method IndexEntries(after: nat, end: nat, limit: nat, maxBytes: nat) returns (r: Result<IndexPage>)
      requires 1 <= limit
      ensures var all := Positions(index, after, end);
              r == HeadsPage(HeadItems(wire, roots, index, all), all, end, limit, maxBytes)
    {
      var rows := FetchPositions(after, end, limit + 1);
      var entries: seq<Head> := [];
      var bytes: nat := 0;
      ghost var all := Positions(index, after, end);
      ghost var items := HeadItems(wire, roots, index, all);
      ProgressStart(items, limit, maxBytes, true);
      for i := 0 to |rows|
        invariant i == |entries| <= |items|
        invariant Progress(items, limit, maxBytes, true, entries, bytes)
      {
        HeadsStop(items, all, end, limit, maxBytes, entries, bytes);
        assert rows[i] == all[i];
        var id := index[rows[i]];
        if id !in roots || roots[id].version < 0 { return Err; }
        var value := Head(if roots[id].format < 0 then 0 else roots[id].format, rows[i], id, roots[id].version);
        assert items[i] == Item(value, wire.headSize(value));
        var size := wire.headSize(value);
        if |entries| == limit || SaturatingAdd(bytes, size) > maxBytes {
          if entries == [] { return Err; }
          return Ok(IndexPage(end, entries, Some(entries[i - 1].position)));
        }
        ProgressStep(items, limit, maxBytes, true, entries, bytes);
        bytes := SaturatingAdd(bytes, size);
        entries := entries + [value];
      }
      HeadsDone(items, all, end, limit, maxBytes, entries, bytes);
      return Ok(IndexPage(end, entries, None));
    }

    method Load(id: string) returns (r: Result<Option<StoredExecution>>)
      ensures r == Pages.Load(wire, View(), id)
    {
      if id !in roots { return Ok(None); }
      var root := roots[id];
      if !Supported(root.format) || root.version < 0 { return Err; }
      var left := set row | row in records && row.0 == id;
      CompleteCount(wire, View(), id, root.version, left);
      if |left| != root.version { return Err; }
      var loaded: seq<Record> := [];
      while left != {}
        invariant LoadedSoFar(wire, records, id, left, loaded)
        invariant |left| == root.version - |loaded|
        decreases left
      {
        var row := FirstRow(left);
        LoadNext(wire, View(), id, root.version, left, loaded, row);
        if row.1 != |loaded| + 1 { return Err; }
        var payload := Decode(wire, records[row]);
        if payload.Err? { return Err; }
        var record := wire.parse(payload.value);
        if record.None? { return Err; }
        loaded := loaded + [record.value];
        left := left - {row};
      }
      LoadDone(wire, View(), id, root.version, loaded);
      return Ok(Some(StoredExecution(root.format, root.version, loaded)));
    }

    method FindKey(scope: string, key: string) returns (r: Option<AcceptedKey>)
      ensures r == Pages.FindKey(View(), scope, key)
    {
      r := if (scope, key) in keys then Some(keys[(scope, key)]) else None;
    }
  }
}
