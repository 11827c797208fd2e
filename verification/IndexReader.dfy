/** Walking the discovery index under a pinned cutoff while roots keep arriving. */
module IndexReader {
  import opened Basics
  import opened Codec
  import opened ExecutionDb
  import opened ExecutionPages
  import opened Paging
  import opened Journal
  import opened AcceptanceKeys
  import opened Discovery
  import opened Readers

  /** The head a reader reports for one position. */
  ghost function HeadAt(db: Db, position: int): Head
    requires position in db.index && db.index[position] in db.roots
  {
    var root := db.roots[db.index[position]];
    Head(if root.format < 0 then 0 else root.format, position, db.index[position], if root.version < 0 then 0 else root.version)
  }

  ghost predicate AllIndexed(db: Db, rows: seq<int>) {
    forall i :: 0 <= i < |rows| ==> rows[i] in db.index && db.index[rows[i]] in db.roots && db.roots[db.index[rows[i]]].version >= 0
  }

  /** The page of a list of positions: its longest fitting prefix; the cursor is
      the last delivered position exactly when something is left. */
  ghost predicate HeadPage(w: Wire, db: Db, rows: seq<int>, end: nat, limit: nat, maxBytes: nat, r: Result<IndexPage>)
    requires AllIndexed(db, rows)
  {
    && (r.Err? <==> rows != [] && w.headSize(HeadAt(db, rows[0])) > maxBytes)
    && (r.Ok? ==>
          var n := |r.value.entries|;
          && r.value.cutoff == end && n <= limit && n <= |rows|
          && (forall i :: 0 <= i < n ==> r.value.entries[i] == HeadAt(db, rows[i]))
          && (rows != [] ==> 0 < n)
          && r.value.next == (if n < |rows| then Some(rows[n - 1]) else None)
          && HeadBytes(w, db, rows[..n]) <= maxBytes
          && (n < limit && n < |rows| ==> HeadBytes(w, db, rows[..n + 1]) > maxBytes))
  }

  ghost function HeadBytes(w: Wire, db: Db, rows: seq<int>): nat
    requires AllIndexed(db, rows)
  {
    if rows == [] then 0 else w.headSize(HeadAt(db, rows[0])) + HeadBytes(w, db, rows[1..])
  }

  lemma {:induction false} SumIsHeadBytes(w: Wire, db: Db, items: seq<Item<Head>>, rows: seq<int>, n: nat)
    requires AllIndexed(db, rows) && n <= |items| == |rows|
    requires forall i :: 0 <= i < |items| ==> items[i] == Item(HeadAt(db, rows[i]), w.headSize(HeadAt(db, rows[i])))
    ensures Readable(items[..n]) && Sum(items[..n]) == HeadBytes(w, db, rows[..n])
    decreases n
  {
    if n > 0 {
      SumIsHeadBytes(w, db, items[1..], rows[1..], n - 1);
      assert items[..n][1..] == items[1..][..n - 1] && rows[..n][1..] == rows[1..][..n - 1];
    }
  }

  lemma HeadItemsReadable(w: Wire, db: Db, rows: seq<int>)
    requires AllIndexed(db, rows)
    ensures var items := HeadItems(w, db.roots, db.index, rows);
            forall i :: 0 <= i < |rows| ==> items[i] == Item(HeadAt(db, rows[i]), w.headSize(HeadAt(db, rows[i])))
  {
  }

  lemma PageOfHeads(w: Wire, db: Db, rows: seq<int>, end: nat, limit: nat, maxBytes: nat)
    requires AllIndexed(db, rows) && 0 < limit && maxBytes <= MAX_BYTES
    ensures HeadPage(w, db, rows, end, limit, maxBytes, HeadsPage(HeadItems(w, db.roots, db.index, rows), rows, end, limit, maxBytes))
  {
    hide Fill, HeadAt, HeadItem, HeadBytes, Sum;
    var items := HeadItems(w, db.roots, db.index, rows);
    HeadItemsReadable(w, db, rows);
    assert forall i :: 0 <= i < |rows| ==> items[i] == Item(HeadAt(db, rows[i]), w.headSize(HeadAt(db, rows[i])));
    ReadablePage(items, limit, maxBytes, true);
    if Page(items, limit, maxBytes, true).Some? {
      var n := Page(items, limit, maxBytes, true).value;
      FillIsLongest(items, limit, maxBytes, 0, true);
      SumIsHeadBytes(w, db, items, rows, n);
      if n < limit && n < |rows| {
        SumIsHeadBytes(w, db, items, rows, n + 1);
        assert !Fits(items, n + 1, limit, maxBytes, 0);
      }
    }
  }

  lemma PositionsAllIndexed(w: Wire, db: Db, after: nat, end: nat)
    requires Indexed(db) && Journaled(w, db)
    ensures AllIndexed(db, Positions(db.index, after, end))
  {
  }

  /** One page of the index, in any state the store can be in. */
  lemma IndexPageIsPrefix(w: Wire, db: Db, after: nat, cutoff: nat, limit: nat, maxBytes: nat)
    requires Indexed(db) && Journaled(w, db) && after <= cutoff <= IndexHead(db.index)
    requires 0 < limit <= 128 && 0 < maxBytes <= MAX_BYTES
    ensures AllIndexed(db, Positions(db.index, after, cutoff))
    ensures HeadPage(w, db, Positions(db.index, after, cutoff), cutoff, limit, maxBytes,
                     ReadIndex(w, db, after, Some(cutoff), limit, maxBytes))
  {
    PositionsAllIndexed(w, db, after, cutoff);
    PageOfHeads(w, db, Positions(db.index, after, cutoff), cutoff, limit, maxBytes);
  }

  /** A first page without a cutoff pins the head of that moment. */
  lemma FirstPagePinsHead(w: Wire, db: Db, after: nat, limit: nat, maxBytes: nat)
    requires IndexHead(db.index) >= 0
    ensures ReadIndex(w, db, after, None, limit, maxBytes) == ReadIndex(w, db, after, Some(IndexHead(db.index)), limit, maxBytes)
    ensures ReadIndex(w, db, after, None, limit, maxBytes).Ok? ==>
              ReadIndex(w, db, after, None, limit, maxBytes).value.cutoff == IndexHead(db.index)
  {
  }

  /** Positions at or below a cutoff that was in use never change. */
  lemma {:induction false} PositionsAreStable(a: Db, b: Db, after: int, cutoff: int)
    requires IndexGrows(a, b) && cutoff < a.nextPosition
    ensures Positions(b.index, after, cutoff) == Positions(a.index, after, cutoff)
    decreases cutoff - after
  {
    if after < cutoff {
      PositionsAreStable(a, b, after + 1, cutoff);
    }
  }

  lemma {:induction false} PositionsRest(index: map<int, string>, after: int, cutoff: int, n: nat)
    requires 0 < n <= |Positions(index, after, cutoff)|
    ensures Positions(index, Positions(index, after, cutoff)[n - 1], cutoff) == Positions(index, after, cutoff)[n..]
    decreases n
  {
    var rows := Positions(index, after, cutoff);
    PositionsTail(index, after, cutoff);
    if n > 1 {
      PositionsRest(index, rows[0], cutoff, n - 1);
    }
  }

  lemma ReachedIndex(w: Wire, a: Db, b: Db)
    requires Indexed(a) && Reaches(w, a, b)
    ensures Indexed(b) && IndexGrows(a, b)
    ensures IndexHead(a.index) <= IndexHead(b.index) && IndexHead(a.index) < a.nextPosition
  {
    var steps :| AllCooperating(w, steps) && Run(w, a, steps) == b;
    RunIndexed(w, a, steps);
  }

  ghost function FollowIndex(w: Wire, after: nat, cutoff: nat, requests: seq<Request>): Option<seq<Head>>
    decreases |requests|
  {
    if requests == [] then None
    else
      match ReadIndex(w, requests[0].db, after, Some(cutoff), requests[0].limit, requests[0].maxBytes)
      case Err => None
      case Ok(page) =>
        if page.next.None? then Some(page.entries)
        else if page.next.value < 0 then None
        else
          (match FollowIndex(w, page.next.value, cutoff, requests[1..])
           case None => None
           case Some(rest) => Some(page.entries + rest))
  }

  /** The entry names the root that held the position from the start, at a version
      at least as new. */
  ghost predicate Lists(w: Wire, base: Db, head: Head, position: int) {
    && position in base.index && head.position == position && head.id == base.index[position]
    && Version(base, head.id) <= head.version
  }

  ghost predicate ListsAll(w: Wire, base: Db, heads: seq<Head>, rows: seq<int>) {
    |heads| == |rows| && forall i :: 0 <= i < |rows| ==> Lists(w, base, heads[i], rows[i])
  }

  lemma ReadIndexGuards(w: Wire, db: Db, after: nat, cutoff: Option<nat>, limit: nat, maxBytes: nat)
    requires ReadIndex(w, db, after, cutoff, limit, maxBytes).Ok?
    ensures 0 < limit <= 128 && 0 < maxBytes <= MAX_BYTES
  {
  }

  /** What one page of a later state delivers, in terms of the starting state. */
  lemma LaterIndexPage(w: Wire, base: Db, request: Request, after: nat, cutoff: nat)
    requires Lawful(w) && Indexed(base) && Journaled(w, base) && Reaches(w, base, request.db)
    requires after <= cutoff <= IndexHead(base.index)
    requires ReadIndex(w, request.db, after, Some(cutoff), request.limit, request.maxBytes).Ok?
    ensures Indexed(request.db) && Journaled(w, request.db) && cutoff <= IndexHead(request.db.index)
    ensures Positions(request.db.index, after, cutoff) == Positions(base.index, after, cutoff)
    ensures var page := ReadIndex(w, request.db, after, Some(cutoff), request.limit, request.maxBytes).value;
            var rows := Positions(base.index, after, cutoff);
            var n := |page.entries|;
            && n <= |rows| && ListsAll(w, base, page.entries, rows[..n]) && (rows != [] ==> 0 < n)
            && page.next == (if n < |rows| then Some(rows[n - 1]) else None)
  {
    hide ReadIndex, Reaches, Lawful, IndexHead, Positions;
    var later := request.db;
    ReadIndexGuards(w, later, after, Some(cutoff), request.limit, request.maxBytes);
    ReachedIndex(w, base, later);
    ReachedFacts(w, base, later);
    PositionsAreStable(base, later, after, cutoff);
    IndexPageIsPrefix(w, later, after, cutoff, request.limit, request.maxBytes);
    var rows := Positions(base.index, after, cutoff);
    var page := ReadIndex(w, later, after, Some(cutoff), request.limit, request.maxBytes).value;
    forall i | 0 <= i < |page.entries| ensures Lists(w, base, page.entries[i], rows[i]) {
      var id := base.index[rows[i]];
      assert Facts(w, base, id) <= Facts(w, later, id);
      assert |Facts(w, base, id)| <= |Facts(w, later, id)|;
    }
  }

  /** A finished walk lists every root indexed at or below the cutoff exactly
      once, in position order, whatever commits and repairs run in between. */
  lemma {:induction false} IndexWalkListsEveryRoot(w: Wire, base: Db, after: nat, cutoff: nat, requests: seq<Request>)
    requires Lawful(w) && Indexed(base) && Journaled(w, base) && Evolves(w, base, requests)
    requires after <= cutoff <= IndexHead(base.index)
    requires FollowIndex(w, after, cutoff, requests).Some?
    ensures var heads := FollowIndex(w, after, cutoff, requests).value;
            var rows := Positions(base.index, after, cutoff);
            ListsAll(w, base, heads, rows)
    decreases |requests|
  {
    hide ReadIndex, Reaches, Journaled, Indexed, ListsAll, Lawful, IndexHead, Positions;
    var first := requests[0];
    LaterIndexPage(w, base, first, after, cutoff);
    var page := ReadIndex(w, first.db, after, Some(cutoff), first.limit, first.maxBytes).value;
    var rows, n := Positions(base.index, after, cutoff), |page.entries|;
    if page.next.Some? {
      PositionsRest(first.db.index, after, cutoff, n);
      IndexWalkListsEveryRoot(w, first.db, page.next.value, cutoff, requests[1..]);
      var rest := FollowIndex(w, page.next.value, cutoff, requests[1..]).value;
      ListsEarlier(w, base, first.db, rest, rows[n..]);
      ListsJoin(w, base, page.entries, rest, rows, n);
    } else {
      assert rows[..n] == rows;
    }
  }

  lemma ListsJoin(w: Wire, base: Db, heads: seq<Head>, rest: seq<Head>, rows: seq<int>, n: nat)
    requires n <= |rows| && ListsAll(w, base, heads, rows[..n]) && ListsAll(w, base, rest, rows[n..])
    ensures ListsAll(w, base, heads + rest, rows)
  {
    forall i | 0 <= i < |rows| ensures Lists(w, base, (heads + rest)[i], rows[i]) {
      if i < n {
        assert rows[..n][i] == rows[i];
      } else {
        assert rows[n..][i - n] == rows[i];
      }
    }
  }

  /** What a later state lists under old positions, the base state lists too. */
  lemma ListsEarlier(w: Wire, base: Db, later: Db, heads: seq<Head>, rows: seq<int>)
    requires Lawful(w) && Indexed(base) && Journaled(w, base) && Reaches(w, base, later)
    requires ListsAll(w, later, heads, rows) && forall i :: 0 <= i < |rows| ==> rows[i] in base.index
    ensures ListsAll(w, base, heads, rows)
  {
    ReachedIndex(w, base, later);
    ReachedFacts(w, base, later);
    forall i | 0 <= i < |rows| ensures Lists(w, base, heads[i], rows[i]) {
      var id := heads[i].id;
      assert Lists(w, later, heads[i], rows[i]);
      assert Facts(w, base, id) <= Facts(w, later, id);
      assert |Facts(w, base, id)| <= |Facts(w, later, id)|;
    }
  }

  /** Bounds within the protocol, and room for each of the positions as reported. */
  ghost predicate IndexAdmits(w: Wire, rows: seq<int>, request: Request) {
    && 0 < request.limit <= 128 && 0 < request.maxBytes <= MAX_BYTES
    && forall i :: 0 <= i < |rows| ==> RoomFor(w, request, rows[i])
  }

  ghost predicate RoomFor(w: Wire, request: Request, position: int) {
    position in request.db.index && request.db.index[position] in request.db.roots ==>
      w.headSize(HeadAt(request.db, position)) <= request.maxBytes
  }

  lemma AdmittedIndexPage(w: Wire, base: Db, request: Request, after: nat, cutoff: nat)
    requires Lawful(w) && Indexed(base) && Journaled(w, base) && Reaches(w, base, request.db)
    requires after <= cutoff <= IndexHead(base.index) && IndexAdmits(w, Positions(base.index, after, cutoff), request)
    ensures ReadIndex(w, request.db, after, Some(cutoff), request.limit, request.maxBytes).Ok?
  {
    hide ReadIndex, Reaches, Lawful, IndexHead, Positions;
    ReachedIndex(w, base, request.db);
    ReachedFacts(w, base, request.db);
    PositionsAreStable(base, request.db, after, cutoff);
    IndexPageIsPrefix(w, request.db, after, cutoff, request.limit, request.maxBytes);
    var rows := Positions(base.index, after, cutoff);
    assert rows != [] ==> RoomFor(w, request, rows[0]);
  }

  /** Every continued page makes progress: a walk needs at most one request per
      position, whatever the bounds. */
  lemma {:induction false} IndexWalkFinishes(w: Wire, base: Db, after: nat, cutoff: nat, requests: seq<Request>)
    requires Lawful(w) && Indexed(base) && Journaled(w, base) && Evolves(w, base, requests)
    requires after <= cutoff <= IndexHead(base.index)
    requires forall k :: 0 <= k < |requests| ==> IndexAdmits(w, Positions(base.index, after, cutoff), requests[k])
    requires requests != [] && |requests| >= |Positions(base.index, after, cutoff)|
    ensures FollowIndex(w, after, cutoff, requests).Some?
    decreases |requests|
  {
    hide ReadIndex, Reaches, Journaled, Indexed, ListsAll, Lawful, IndexHead, Positions, RoomFor;
    var first := requests[0];
    var rows := Positions(base.index, after, cutoff);
    assert IndexAdmits(w, rows, first);
    AdmittedIndexPage(w, base, first, after, cutoff);
    LaterIndexPage(w, base, first, after, cutoff);
    var page := ReadIndex(w, first.db, after, Some(cutoff), first.limit, first.maxBytes).value;
    var n := |page.entries|;
    if page.next.Some? {
      PositionsRest(first.db.index, after, cutoff, n);
      forall k | 0 <= k < |requests[1..]| ensures IndexAdmits(w, rows[n..], requests[1..][k]) {
        var next := k + 1;
        assert IndexAdmits(w, rows, requests[next]);
      }
      IndexWalkFinishes(w, first.db, page.next.value, cutoff, requests[1..]);
    }
  }

  /** A new owner's state: every root has its one entry, and journals are intact. */
  lemma ClaimedStateIsIndexed(w: Wire, steps: seq<Step>, id: string, budgeted: bool)
    requires Lawful(w) && AllCooperating(w, steps)
    requires var r := Claim(w, Run(w, EMPTY, steps), id, budgeted).1; r.Ok? && r.value.Acquired?
    ensures var db := Claim(w, Run(w, EMPTY, steps), id, budgeted).0; Indexed(db) && FullyIndexed(db) && Journaled(w, db)
  {
    hide Lawful, Journaled, Indexed, FullyIndexed, Claim;
    var before := Run(w, EMPTY, steps);
    AcquiredClaimRepairsIndex(w, steps, id, budgeted);
    EmptyJournal(w);
    JournalIsHistory(w, EMPTY, steps);
    ClaimKeepsFacts(w, before, id, budgeted);
    SameFactsKeepJournal(w, before, Claim(w, before, id, budgeted).0);
  }

  /** Listing every position in use names every root once. */
  lemma PositionsNameRoots(w: Wire, db: Db, heads: seq<Head>)
    requires Indexed(db) && FullyIndexed(db) && ListsAll(w, db, heads, Positions(db.index, 0, IndexHead(db.index)))
    ensures NamesEveryRoot(db, heads)
  {
    hide Positions;
    var rows := Positions(db.index, 0, IndexHead(db.index));
    forall i, j | 0 <= i < j < |heads| ensures heads[i].id != heads[j].id {
      assert Lists(w, db, heads[i], rows[i]) && Lists(w, db, heads[j], rows[j]);
    }
    forall i | 0 <= i < |heads| ensures heads[i].id in db.roots {
      assert Lists(w, db, heads[i], rows[i]);
    }
    forall root | root in db.roots ensures Named(heads, root) {
      assert HasEntry(db, root);
      var p :| p in db.index && db.index[p] == root;
      assert p in rows;
      var i :| 0 <= i < |rows| && rows[i] == p;
      assert Lists(w, db, heads[i], rows[i]);
    }
  }

  ghost predicate Named(heads: seq<Head>, root: string) {
    exists i :: 0 <= i < |heads| && heads[i].id == root
  }

  /** The heads name the roots of the store, each exactly once. */
  ghost predicate NamesEveryRoot(db: Db, heads: seq<Head>) {
    && (forall root :: root in db.roots ==> Named(heads, root))
    && (forall i :: 0 <= i < |heads| ==> heads[i].id in db.roots)
    && (forall i, j :: 0 <= i < j < |heads| ==> heads[i].id != heads[j].id)
  }

  /** Repair and walk together: after any run, whatever roots older writers left
      out, a finished walk pinned at the head a won claim leaves names every root of
      the store exactly once, with any steps in between. */
  lemma ClaimedWalkNamesEveryRoot(w: Wire, steps: seq<Step>, id: string, budgeted: bool, requests: seq<Request>)
    requires Lawful(w) && AllCooperating(w, steps)
    requires var r := Claim(w, Run(w, EMPTY, steps), id, budgeted).1; r.Ok? && r.value.Acquired?
    requires var db := Claim(w, Run(w, EMPTY, steps), id, budgeted).0;
             && Evolves(w, db, requests) && 0 <= IndexHead(db.index)
             && FollowIndex(w, 0, IndexHead(db.index), requests).Some?
    ensures var db := Claim(w, Run(w, EMPTY, steps), id, budgeted).0;
            NamesEveryRoot(db, FollowIndex(w, 0, IndexHead(db.index), requests).value)
  {
    hide Lawful, Journaled, Indexed, FullyIndexed, Claim, FollowIndex, Positions, ListsAll, NamesEveryRoot, IndexHead, Evolves;
    var db := Claim(w, Run(w, EMPTY, steps), id, budgeted).0;
    ClaimedStateIsIndexed(w, steps, id, budgeted);
    IndexWalkListsEveryRoot(w, db, 0, IndexHead(db.index), requests);
    PositionsNameRoots(w, db, FollowIndex(w, 0, IndexHead(db.index), requests).value);
  }

  /** The head a claim leaves can be pinned. */
  lemma HeadIsNatural(db: Db)
    requires Indexed(db)
    ensures 0 <= IndexHead(db.index)
  {
  }
}
