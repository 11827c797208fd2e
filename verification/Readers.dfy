/** Following a reader's cursor, page by page, while the store keeps changing. */
module Readers {
  import opened Basics
  import opened Codec
  import opened ExecutionDb
  import opened ExecutionPages
  import opened Paging
  import opened Journal

  /** One page request: the state it meets and its bounds. */
  datatype Request = Request(db: Db, limit: nat, maxBytes: nat)

  /** Each request meets a state reached from the one before by any steps. */
  ghost predicate Evolves(w: Wire, base: Db, requests: seq<Request>)
    decreases |requests|
  {
    requests != [] ==> Reaches(w, base, requests[0].db) && Evolves(w, requests[0].db, requests[1..])
  }

  // ---- Journal -----------------------------------------------------------

  /** A page of a slice is the longest prefix its bounds allow; it is empty only
      at the cutoff, and a lone oversized record is an error. */
  ghost predicate SlicePage(w: Wire, slice: seq<Record>, after: nat, limit: nat, maxBytes: nat, r: Result<Option<ExecutionPage>>) {
    && (r.Err? <==> slice != [] && |w.json(slice[0])| > maxBytes)
    && (r.Ok? ==> r.value.Some? && LongestPage(w, slice, after, limit, maxBytes, r.value.value))
  }

  ghost predicate LongestPage(w: Wire, slice: seq<Record>, after: nat, limit: nat, maxBytes: nat, page: ExecutionPage) {
    var n := |page.records|;
    && page.cutoff == after + |slice|
    && n <= limit && n <= |slice| && page.records == slice[..n] && TextBytes(w, slice[..n]) <= maxBytes
    && page.next == (if n < |slice| then Some(after + n) else None)
    && (slice != [] ==> 0 < n)
    && (n < limit && n < |slice| ==> TextBytes(w, slice[..n + 1]) > maxBytes)
  }

  ghost function FactItems(w: Wire, slice: seq<Record>): (items: seq<Item<Record>>)
    ensures |items| == |slice| && forall i :: 0 <= i < |slice| ==> items[i] == Item(slice[i], |w.json(slice[i])|)
  {
    seq(|slice|, i requires 0 <= i < |slice| => Item(slice[i], |w.json(slice[i])|))
  }

  lemma PageOfSlice(w: Wire, slice: seq<Record>, after: nat, limit: nat, maxBytes: nat)
    requires 0 < limit && maxBytes <= MAX_BYTES
    ensures SlicePage(w, slice, after, limit, maxBytes, RecordsPage(FactItems(w, slice), after, after + |slice|, limit, maxBytes))
  {
    var items := FactItems(w, slice);
    ReadablePage(items, limit, maxBytes, false);
    if Page(items, limit, maxBytes, false).Some? {
      var n := Page(items, limit, maxBytes, false).value;
      FillIsLongest(items, limit, maxBytes, 0, false);
      assert Prefix(items, n) == slice[..n];
      SumIsBytes(w, items, slice, n);
      if n < limit && n < |slice| {
        SumIsBytes(w, items, slice, n + 1);
        assert !Fits(items, n + 1, limit, maxBytes, 0);
      }
    }
  }

  lemma RecordPageIsSlice(w: Wire, db: Db, id: string, after: nat, cutoff: nat, limit: nat, maxBytes: nat)
    requires Lawful(w) && Journaled(w, db) && id in db.roots && Supported(db.roots[id].format)
    requires after <= cutoff <= Version(db, id) && 0 < limit <= 128 && 0 < maxBytes <= MAX_BYTES
    ensures SlicePage(w, Facts(w, db, id)[after..cutoff], after, limit, maxBytes, ReadRecords(w, db, id, after, Some(cutoff), limit, maxBytes))
  {
    hide ReadRecords, SlicePage, RecordsPage, Supported, Lawful, Journaled, Facts;
    ItemsAreFactItems(w, db, id, after, cutoff);
    ReadRecordsIsPage(w, db, id, after, cutoff, limit, maxBytes);
    PageOfSlice(w, Facts(w, db, id)[after..cutoff], after, limit, maxBytes);
  }

  lemma ItemsAreFactItems(w: Wire, db: Db, id: string, after: nat, cutoff: nat)
    requires Lawful(w) && Journaled(w, db) && after <= cutoff <= Version(db, id)
    ensures RecordItems(w, db.records, id, after, cutoff) == FactItems(w, Facts(w, db, id)[after..cutoff])
  {
    ItemsAreFacts(w, db, id, after, cutoff);
    var slice := Facts(w, db, id)[after..cutoff];
    assert forall i :: 0 <= i < |slice| ==> slice[i] == Facts(w, db, id)[after + i];
  }

  lemma ReadRecordsIsPage(w: Wire, db: Db, id: string, after: nat, cutoff: nat, limit: nat, maxBytes: nat)
    requires id in db.roots && Supported(db.roots[id].format)
    requires after <= cutoff <= db.roots[id].version && 0 < limit <= 128 && 0 < maxBytes <= MAX_BYTES
    ensures ReadRecords(w, db, id, after, Some(cutoff), limit, maxBytes) ==
            RecordsPage(RecordItems(w, db.records, id, after, cutoff), after, cutoff, limit, maxBytes)
  {
  }

  ghost function TextBytes(w: Wire, records: seq<Record>): nat {
    if records == [] then 0 else |w.json(records[0])| + TextBytes(w, records[1..])
  }

  lemma {:induction false} SumIsBytes(w: Wire, items: seq<Item<Record>>, records: seq<Record>, n: nat)
    requires n <= |items| == |records|
    requires forall i :: 0 <= i < |items| ==> items[i] == Item(records[i], |w.json(records[i])|)
    ensures Readable(items[..n]) && Sum(items[..n]) == TextBytes(w, records[..n])
    decreases n
  {
    if n > 0 {
      SumIsBytes(w, items[1..], records[1..], n - 1);
      assert items[..n][1..] == items[1..][..n - 1] && records[..n][1..] == records[1..][..n - 1];
    }
  }

  /** Reading until there is no next cursor; None when a page fails or the
      requests run out first. */
  ghost function FollowRecords(w: Wire, id: string, after: nat, cutoff: nat, requests: seq<Request>): Option<seq<Record>>
    decreases |requests|
  {
    if requests == [] then None
    else
      match ReadRecords(w, requests[0].db, id, after, Some(cutoff), requests[0].limit, requests[0].maxBytes)
      case Ok(Some(page)) =>
        if page.next.None? then Some(page.records)
        else if page.next.value < 0 then None
        else
          (match FollowRecords(w, id, page.next.value, cutoff, requests[1..])
           case None => None
           case Some(rest) => Some(page.records + rest))
      case _ => None
  }

  lemma ReadRecordsGuards(w: Wire, db: Db, id: string, after: nat, cutoff: nat, limit: nat, maxBytes: nat)
    requires ReadRecords(w, db, id, after, Some(cutoff), limit, maxBytes).Ok?
    ensures 0 < limit <= 128 && 0 < maxBytes <= MAX_BYTES
    ensures id in db.roots ==> Supported(db.roots[id].format) && after <= cutoff <= db.roots[id].version
    ensures ReadRecords(w, db, id, after, Some(cutoff), limit, maxBytes).value.Some? ==> id in db.roots
  {
  }

  /** Whatever commits, claims, repacks and repairs run in between, a finished
      walk is exactly the slice that was there when the cutoff was pinned. */
  lemma {:induction false} RecordWalkIsSlice(w: Wire, base: Db, id: string, after: nat, cutoff: nat, requests: seq<Request>)
    requires Lawful(w) && Journaled(w, base) && Evolves(w, base, requests)
    requires after <= cutoff <= Version(base, id)
    requires FollowRecords(w, id, after, cutoff, requests).Some?
    ensures FollowRecords(w, id, after, cutoff, requests).value == Facts(w, base, id)[after..cutoff]
    decreases |requests|
  {
    hide ReadRecords, Reaches, Journaled, Lawful, Facts;
    var first := requests[0];
    ReadRecordsGuards(w, first.db, id, after, cutoff, first.limit, first.maxBytes);
    SliceIsStable(w, base, first.db, id, after, cutoff);
    RecordPageIsSlice(w, first.db, id, after, cutoff, first.limit, first.maxBytes);
    var page := ReadRecords(w, first.db, id, after, Some(cutoff), first.limit, first.maxBytes).value.value;
    if page.next.Some? {
      RecordWalkIsSlice(w, first.db, id, page.next.value, cutoff, requests[1..]);
      SliceSplits(Facts(w, first.db, id), after, page.next.value, cutoff);
    }
  }

  lemma SliceIsStable(w: Wire, base: Db, later: Db, id: string, after: nat, cutoff: nat)
    requires Lawful(w) && Journaled(w, base) && Reaches(w, base, later) && after <= cutoff <= Version(base, id)
    ensures Journaled(w, later) && cutoff <= Version(later, id)
    ensures Facts(w, later, id)[after..cutoff] == Facts(w, base, id)[after..cutoff]
  {
    hide Journaled, Reaches, Lawful;
    ReachedFacts(w, base, later);
    var facts, now := Facts(w, base, id), Facts(w, later, id);
    assert facts <= now;
  }

  lemma SliceSplits(facts: seq<Record>, after: nat, middle: nat, cutoff: nat)
    requires after <= middle <= cutoff <= |facts|
    ensures facts[after..cutoff] == facts[after..cutoff][..middle - after] + facts[middle..cutoff]
  {
  }

  /** Bounds within the protocol, a readable format, and room for every record
      of the slice. */
  ghost predicate Admitting(w: Wire, slice: seq<Record>, id: string, requests: seq<Request>) {
    forall k :: 0 <= k < |requests| ==> AdmittingRequest(w, slice, id, requests[k])
  }

  ghost predicate AdmittingRequest(w: Wire, slice: seq<Record>, id: string, request: Request) {
    && 0 < request.limit <= 128 && 0 < request.maxBytes <= MAX_BYTES
    && id in request.db.roots && Supported(request.db.roots[id].format)
    && forall i :: 0 <= i < |slice| ==> |w.json(slice[i])| <= request.maxBytes
  }

  /** Every continued page makes progress, so a walk needs at most one request
      per record, whatever the bounds. */
  lemma {:induction false} RecordWalkFinishes(w: Wire, base: Db, id: string, after: nat, cutoff: nat, requests: seq<Request>)
    requires Lawful(w) && Journaled(w, base) && Evolves(w, base, requests)
    requires after <= cutoff <= Version(base, id)
    requires Admitting(w, Facts(w, base, id)[after..cutoff], id, requests)
    requires requests != [] && |requests| >= cutoff - after
    ensures FollowRecords(w, id, after, cutoff, requests).Some?
    decreases |requests|
  {
    hide ReadRecords, Reaches, Journaled, Lawful, Facts;
    var first := requests[0];
    SliceIsStable(w, base, first.db, id, after, cutoff);
    RecordPageIsSlice(w, first.db, id, after, cutoff, first.limit, first.maxBytes);
    var slice := Facts(w, base, id)[after..cutoff];
    assert AdmittingRequest(w, slice, id, first);
    var page := ReadRecords(w, first.db, id, after, Some(cutoff), first.limit, first.maxBytes).value.value;
    if page.next.Some? {
      var rest := Facts(w, first.db, id)[page.next.value..cutoff];
      assert rest == slice[page.next.value - after..];
      forall k | 0 <= k < |requests[1..]| ensures AdmittingRequest(w, rest, id, requests[1..][k]) {
        assert AdmittingRequest(w, slice, id, requests[k + 1]);
      }
      RecordWalkFinishes(w, first.db, id, page.next.value, cutoff, requests[1..]);
    }
  }
}
