/** The owner-local connection listing: one page of a live sample, and a walk by
    cursor over samples that change from page to page. */
module ConnectedAgents {
  import opened Basics

  const MAX_PAGE: nat := 16
  const MAX_KEY: nat := 1024

  datatype Kind = NativeWorker | SupervisedAcp | NativeAcpAttachment | ManagedCoreChannel | ManagedNativeSession

  function Name(kind: Kind): string {
    match kind
    case NativeWorker => "native_worker"
    case SupervisedAcp => "supervised_acp"
    case NativeAcpAttachment => "native_acp_attachment"
    case ManagedCoreChannel => "managed_core_channel"
    case ManagedNativeSession => "managed_native_session"
  }

  /** A row; `detail` stands for the columns paging never reads. */
  datatype Instance = Instance(kind: Kind, id: string, detail: string)

  function Key(row: Instance): string {
    Name(row.kind) + ":" + row.id
  }

  /** A key names one kind and one id. */
  lemma KeyIsInjective(a: Instance, b: Instance)
    requires Key(a) == Key(b)
    ensures a.kind == b.kind && a.id == b.id
  {
    NameHasNoColon(a.kind);
    NameHasNoColon(b.kind);
    hide Name;
    FirstSeparator(Name(a.kind), Name(b.kind), a.id, b.id, ':');
    SameName(a.kind, b.kind);
  }

  lemma {:induction false} FirstSeparator(x: string, y: string, u: string, v: string, c: char)
    requires c !in x && c !in y && x + [c] + u == y + [c] + v
    ensures x == y && u == v
  {
    var (left, right) := (x + [c] + u, y + [c] + v);
    assert left[0] == right[0];
    if x != [] && y != [] {
      assert left[1..] == x[1..] + [c] + u && right[1..] == y[1..] + [c] + v;
      FirstSeparator(x[1..], y[1..], u, v, c);
      assert x == [x[0]] + x[1..] && y == [y[0]] + y[1..];
    } else {
      assert x == y == [] && left[1..] == u && right[1..] == v;
    }
  }

  lemma NameHasNoColon(kind: Kind)
    ensures ':' !in Name(kind)
  {
  }

  lemma SameName(a: Kind, b: Kind)
    requires Name(a) == Name(b)
    ensures a == b
  {
    assert |Name(a)| == |Name(b)|;
  }

  /** The listing groups rows by kind, in this order, whatever their ids. */
  function Rank(kind: Kind): nat {
    match kind
    case ManagedCoreChannel => 0
    case ManagedNativeSession => 1
    case NativeAcpAttachment => 2
    case NativeWorker => 3
    case SupervisedAcp => 4
  }

  lemma KindsAreGrouped(a: Instance, b: Instance)
    requires Rank(a.kind) < Rank(b.kind)
    ensures Before(Key(a), Key(b))
  {
    var i := if Rank(b.kind) == 1 then 8 else if Rank(a.kind) == 2 && Rank(b.kind) == 3 then 7 else 0;
    NamesDiffer(a.kind, b.kind, i);
    assert forall j :: 0 <= j <= i ==> Key(a)[j] == Name(a.kind)[j] && Key(b)[j] == Name(b.kind)[j];
    FirstDifference(Key(a), Key(b), i);
  }

  lemma NamesDiffer(a: Kind, b: Kind, i: nat)
    requires Rank(a) < Rank(b) && i == if Rank(b) == 1 then 8 else if Rank(a) == 2 && Rank(b) == 3 then 7 else 0
    ensures i < |Name(a)| && i < |Name(b)| && Name(a)[i] < Name(b)[i]
    ensures Name(a)[..i] == Name(b)[..i]
  {
    if i == 8 {
      assert Name(a)[..8] == "managed_" && Name(b)[..8] == "managed_";
    } else if i == 7 {
      assert Name(a)[..7] == "native_" && Name(b)[..7] == "native_";
    }
  }

  lemma {:induction false} FirstDifference(x: string, y: string, i: nat)
    requires i < |x| && i < |y| && x[..i] == y[..i] && x[i] < y[i]
    ensures Before(x, y)
  {
    if i > 0 {
      assert x[..i][0] == y[..i][0];
      assert x[1..][..i - 1] == x[..i][1..] && y[1..][..i - 1] == y[..i][1..];
      FirstDifference(x[1..], y[1..], i - 1);
    }
  }

  // ---- Cursors -----------------------------------------------------------

  function PrintCursor(instance: string, key: string): string {
    instance + "/" + key
  }

  /** The text before the first '/' and the text after it. */
  function SplitOnce(text: string): Option<(string, string)> {
    if text == [] then None
    else if text[0] == '/' then Some(("", text[1..]))
    else match SplitOnce(text[1..])
      case None => None
      case Some((before, after)) => Some(([text[0]] + before, after))
  }

  function ParseCursor(instance: string, cursor: string): Result<string> {
    match SplitOnce(cursor)
    case None => Err
    case Some((boot, key)) => if boot == instance && 0 < |key| <= MAX_KEY then Ok(key) else Err
  }

  lemma {:induction false} SplitAtFirst(before: string, after: string)
    requires '/' !in before
    ensures SplitOnce(before + "/" + after) == Some((before, after))
  {
    var text := before + "/" + after;
    if before != [] {
      SplitAtFirst(before[1..], after);
      assert text[1..] == before[1..] + "/" + after;
      assert before == [before[0]] + before[1..];
    } else {
      assert text[1..] == after;
    }
  }

  lemma {:induction false} SplitHasNoSlash(text: string)
    ensures SplitOnce(text).Some? ==> '/' !in SplitOnce(text).value.0
  {
    if text != [] && text[0] != '/' {
      SplitHasNoSlash(text[1..]);
    }
  }

  /** A printed cursor reads back as its key exactly when the boot id has no '/'
      and the key is within its bounds. */
  lemma CursorRoundTrip(instance: string, key: string)
    ensures ParseCursor(instance, PrintCursor(instance, key)) == Ok(key) <==> '/' !in instance && 0 < |key| <= MAX_KEY
  {
    SplitHasNoSlash(PrintCursor(instance, key));
    if '/' !in instance { SplitAtFirst(instance, key); }
  }

  /** A cursor of another boot is refused. */
  lemma OtherBootIsRefused(instance: string, other: string, key: string)
    requires '/' !in other && instance != other
    ensures ParseCursor(instance, PrintCursor(other, key)) == Err
  {
    SplitAtFirst(other, key);
  }

  // ---- One page ----------------------------------------------------------

  /** The rows of one key, in sample order. */
  function OfKey(rows: seq<Instance>, key: string): seq<Instance> {
    if rows == [] then []
    else
      var last := |rows| - 1;
      OfKey(rows[..last], key) + (if Key(rows[last]) == key then [rows[last]] else [])
  }

  predicate Past(after: Option<string>, key: string) {
    after.None? || Before(after.value, key)
  }

  function Retain(rows: seq<Instance>, after: Option<string>): seq<Instance> {
    if rows == [] then []
    else
      var last := |rows| - 1;
      Retain(rows[..last], after) + (if Past(after, Key(rows[last])) then [rows[last]] else [])
  }

  /** Stable: a row goes after the rows of its own key. */
  function Insert(sorted: seq<Instance>, row: Instance): seq<Instance> {
    if sorted == [] || !Before(Key(row), Key(sorted[|sorted| - 1])) then sorted + [row]
    else Insert(sorted[..|sorted| - 1], row) + [sorted[|sorted| - 1]]
  }

  function SortByKey(rows: seq<Instance>): seq<Instance> {
    if rows == [] then [] else Insert(SortByKey(rows[..|rows| - 1]), rows[|rows| - 1])
  }

  ghost predicate Ordered(rows: seq<Instance>) {
    forall i, j :: 0 <= i < j < |rows| ==> !Before(Key(rows[j]), Key(rows[i]))
  }

  /** `listing` is the sample's rows past a key, in key order; rows of one key
      keep their order and none is lost or repeated. */
  ghost predicate Lists(listing: seq<Instance>, rows: seq<Instance>, after: Option<string>) {
    && Ordered(listing)
    && forall key :: OfKey(listing, key) == if Past(after, key) then OfKey(rows, key) else []
  }

  lemma OfKeyNext(rows: seq<Instance>, row: Instance, key: string)
    ensures OfKey(rows + [row], key) == OfKey(rows, key) + (if Key(row) == key then [row] else [])
  {
    assert (rows + [row])[..|rows|] == rows;
  }

  lemma {:induction false} OfKeyMembers(rows: seq<Instance>, key: string)
    ensures forall row :: row in OfKey(rows, key) <==> row in rows && Key(row) == key
  {
    if rows != [] {
      var last := |rows| - 1;
      OfKeyMembers(rows[..last], key);
      assert rows == rows[..last] + [rows[last]];
    }
  }

  lemma {:induction false} InsertMembers(sorted: seq<Instance>, row: Instance)
    ensures forall r :: r in Insert(sorted, row) <==> r in sorted || r == row
    decreases |sorted|
  {
    hide Before, Key;
    if sorted != [] {
      var (front, last) := (sorted[..|sorted| - 1], sorted[|sorted| - 1]);
      assert sorted == front + [last];
      InsertMembers(front, row);
    }
  }

  lemma {:induction false} InsertOrdered(sorted: seq<Instance>, row: Instance)
    requires Ordered(sorted)
    ensures Ordered(Insert(sorted, row))
    decreases |sorted|
  {
    hide Before, Key;
    BeforeIsStrictOrder();
    if sorted != [] {
      var (front, last) := (sorted[..|sorted| - 1], sorted[|sorted| - 1]);
      if Before(Key(row), Key(last)) {
        InsertOrdered(front, row);
        InsertMembers(front, row);
        var earlier := Insert(front, row);
        forall i | 0 <= i < |earlier| ensures !Before(Key(last), Key(earlier[i])) {
          assert earlier[i] in earlier;
          if earlier[i] != row {
            var k :| 0 <= k < |front| && front[k] == earlier[i];
            assert sorted[k] == front[k];
          }
        }
      } else {
        forall i | 0 <= i < |sorted| ensures !Before(Key(row), Key(sorted[i])) {
          assert i < |front| ==> !Before(Key(last), Key(sorted[i]));
        }
      }
    }
  }

  lemma {:induction false} InsertOfKey(sorted: seq<Instance>, row: Instance, key: string)
    ensures OfKey(Insert(sorted, row), key) == OfKey(sorted, key) + (if Key(row) == key then [row] else [])
    decreases |sorted|
  {
    hide Before, Key;
    if sorted == [] || !Before(Key(row), Key(sorted[|sorted| - 1])) {
      OfKeyNext(sorted, row, key);
    } else {
      var (front, last) := (sorted[..|sorted| - 1], sorted[|sorted| - 1]);
      BeforeIrreflexive(Key(row));
      assert sorted == front + [last] && Key(row) != Key(last);
      InsertOfKey(front, row, key);
      OfKeyNext(front, last, key);
      OfKeyNext(Insert(front, row), last, key);
    }
  }

  lemma {:induction false} SortLists(rows: seq<Instance>)
    ensures Ordered(SortByKey(rows)) && forall key :: OfKey(SortByKey(rows), key) == OfKey(rows, key)
  {
    hide Key, Ordered;
    if rows != [] {
      var (front, last) := (rows[..|rows| - 1], rows[|rows| - 1]);
      SortLists(front);
      InsertOrdered(SortByKey(front), last);
      forall key ensures OfKey(SortByKey(rows), key) == OfKey(rows, key) {
        InsertOfKey(SortByKey(front), last, key);
      }
    } else {
      NothingOrdered();
    }
  }

  lemma NothingOrdered()
    ensures Ordered([])
  {
  }

  lemma {:induction false} RetainOrdered(rows: seq<Instance>, after: Option<string>)
    requires Ordered(rows)
    ensures Ordered(Retain(rows, after)) && forall r :: r in Retain(rows, after) ==> r in rows
  {
    hide Before, Key, Past;
    if rows != [] {
      var (front, last) := (rows[..|rows| - 1], rows[|rows| - 1]);
      RetainOrdered(front, after);
      var kept := Retain(front, after);
      forall i | 0 <= i < |kept| ensures !Before(Key(last), Key(kept[i])) {
        assert kept[i] in front;
        var k :| 0 <= k < |front| && front[k] == kept[i];
        assert rows[k] == front[k];
      }
    }
  }

  lemma {:induction false} RetainOfKey(rows: seq<Instance>, after: Option<string>, key: string)
    ensures OfKey(Retain(rows, after), key) == if Past(after, key) then OfKey(rows, key) else []
  {
    hide Key, Past;
    if rows != [] {
      var (front, last) := (rows[..|rows| - 1], rows[|rows| - 1]);
      RetainOfKey(front, after, key);
      assert rows == front + [last];
      OfKeyNext(front, last, key);
      assert Retain(rows, after) == if Past(after, Key(last)) then Retain(front, after) + [last] else Retain(front, after);
      OfKeyNext(Retain(front, after), last, key);
    }
  }

  lemma RetainLists(rows: seq<Instance>, after: Option<string>)
    ensures Lists(Retain(SortByKey(rows), after), rows, after)
  {
    hide Past, OfKey, Before, Retain, SortByKey, Ordered;
    SortLists(rows);
    RetainOrdered(SortByKey(rows), after);
    forall key ensures OfKey(Retain(SortByKey(rows), after), key) == if Past(after, key) then OfKey(rows, key) else [] {
      RetainOfKey(SortByKey(rows), after, key);
    }
  }

  datatype Report = Report(instances: Option<seq<Instance>>, next: Option<string>)

  /** What a request samples: nothing when neither owner is present. */
  function Sample(sources: Option<seq<Instance>>): seq<Instance> {
    if sources.None? then [] else sources.value
  }

  predicate CursorAccepted(instance: string, after: Option<string>) {
    after.None? || ParseCursor(instance, after.value).Ok?
  }

  function AfterKey(instance: string, after: Option<string>): Option<string>
    requires CursorAccepted(instance, after)
  {
    if after.None? then None else Some(ParseCursor(instance, after.value).value)
  }

  /** A report is the first rows of the listing; it carries a cursor, the key of
      its last row, exactly when rows were cut off. */
  ghost predicate Answers(instance: string, sources: Option<seq<Instance>>, after: Option<string>, limit: nat, report: Report) {
    && CursorAccepted(instance, after)
    && exists listing :: Lists(listing, Sample(sources), AfterKey(instance, after)) && Cuts(instance, listing, sources, limit, report)
  }

  ghost predicate Cuts(instance: string, listing: seq<Instance>, sources: Option<seq<Instance>>, limit: nat, report: Report) {
    var shown := if |listing| > limit then listing[..limit] else listing;
    && report.instances == (if sources.None? then None else Some(shown))
    && report.next == (if |listing| > limit > 0 then Some(PrintCursor(instance, Key(listing[limit - 1]))) else None)
  }

  method Snapshot(instance: string, sources: Option<seq<Instance>>, after: Option<string>, limit: nat) returns (r: Result<Report>)
    ensures r.Err? <==> limit == 0 || limit > MAX_PAGE || !CursorAccepted(instance, after)
    ensures r.Ok? ==> Answers(instance, sources, after, limit, r.value)
  {
    hide Retain, SortByKey, ParseCursor, PrintCursor, Key;
    if limit == 0 || limit > MAX_PAGE { return Err; }
    var afterKey: Option<string> := None;
    if after.Some? {
      var key := ParseCursor(instance, after.value);
      if key.Err? { return Err; }
      afterKey := Some(key.value);
    }
    var rows := Sample(sources);
    RetainLists(rows, afterKey);
    rows := SortByKey(rows);
    rows := Retain(rows, afterKey);
    ghost var listing := rows;
    hide Lists;
    assert Lists(listing, Sample(sources), AfterKey(instance, after));
    var next := None;
    if |rows| > limit {
      next := Some(PrintCursor(instance, Key(rows[limit - 1])));
      rows := rows[..limit];
    }
    r := Ok(Report(if sources.None? then None else Some(rows), next));
    assert Cuts(instance, listing, sources, limit, r.value);
  }

  // ---- A walk ------------------------------------------------------------

  /** One page request: what the daemon samples then, and the page size. */
  datatype Request = Request(sources: Option<seq<Instance>>, limit: nat)

  ghost predicate Distinct(rows: seq<Instance>) {
    forall i, j :: 0 <= i < j < |rows| ==> Key(rows[i]) != Key(rows[j])
  }

  function Rows(report: Report): seq<Instance> {
    if report.instances.None? then [] else report.instances.value
  }

  /** Each request continues from the cursor of the report before it. */
  ghost predicate Walk(instance: string, after: Option<string>, requests: seq<Request>, reports: seq<Report>)
    decreases |requests|
  {
    && |requests| == |reports|
    && (requests != [] ==>
          && 0 < requests[0].limit <= MAX_PAGE
          && Distinct(Sample(requests[0].sources))
          && Answers(instance, requests[0].sources, after, requests[0].limit, reports[0])
          && (|requests| > 1 ==> reports[0].next.Some? && Walk(instance, reports[0].next, requests[1..], reports[1..])))
  }

  function Reported(reports: seq<Report>): seq<Instance> {
    if reports == [] then [] else Rows(reports[0]) + Reported(reports[1..])
  }

  /** Keys in strictly ascending order, all past a key: none appears twice. */
  ghost predicate Climbs(rows: seq<Instance>, after: Option<string>) {
    && (forall i, j :: 0 <= i < j < |rows| ==> Before(Key(rows[i]), Key(rows[j])))
    && (forall i :: 0 <= i < |rows| ==> Past(after, Key(rows[i])))
  }

  lemma {:induction false} DistinctOfKey(rows: seq<Instance>, key: string)
    requires Distinct(rows)
    ensures |OfKey(rows, key)| <= 1
  {
    hide Key;
    if rows != [] {
      var (front, last) := (rows[..|rows| - 1], rows[|rows| - 1]);
      DistinctOfKey(front, key);
      OfKeyMembers(front, key);
      if OfKey(front, key) != [] {
        var row := OfKey(front, key)[0];
        assert row in OfKey(front, key);
        var i :| 0 <= i < |front| && front[i] == row;
        assert rows[i] == row;
      }
    }
  }

  lemma {:induction false} TwoOfKey(rows: seq<Instance>, i: nat, j: nat)
    requires i < j < |rows| && Key(rows[i]) == Key(rows[j])
    ensures |OfKey(rows, Key(rows[i]))| >= 2
  {
    hide Key;
    var (front, last) := (rows[..|rows| - 1], |rows| - 1);
    if j < last {
      TwoOfKey(front, i, j);
    } else {
      OfKeyMembers(front, Key(rows[i]));
      assert front[i] in front && front[i] in OfKey(front, Key(rows[i]));
    }
  }

  /** With distinct keys a listing climbs and holds exactly the rows past the key. */
  lemma ListingClimbs(listing: seq<Instance>, rows: seq<Instance>, after: Option<string>)
    requires Lists(listing, rows, after) && Distinct(rows)
    ensures Climbs(listing, after)
    ensures forall row :: row in listing <==> row in rows && Past(after, Key(row))
  {
    hide Key, Before, Past, OfKey;
    BeforeIsStrictOrder();
    forall row ensures row in listing <==> row in rows && Past(after, Key(row)) {
      OfKeyMembers(listing, Key(row));
      OfKeyMembers(rows, Key(row));
    }
    forall i, j | 0 <= i < j < |listing| ensures Before(Key(listing[i]), Key(listing[j])) {
      if Key(listing[i]) == Key(listing[j]) {
        TwoOfKey(listing, i, j);
        DistinctOfKey(rows, Key(listing[i]));
        assert false;
      }
    }
  }

  /** What one page of a distinct sample reports: the rows just past the cursor,
      and a cursor at its last row exactly when some row is left. */
  lemma PageMeaning(instance: string, sources: Option<seq<Instance>>, after: Option<string>, limit: nat, report: Report)
    requires Answers(instance, sources, after, limit, report) && Distinct(Sample(sources)) && limit > 0
    ensures var (sample, page, from) := (Sample(sources), Rows(report), AfterKey(instance, after));
            && Climbs(page, from)
            && (forall row :: row in page ==> row in sample)
            && (report.next.None? ==> forall row :: row in sample && Past(from, Key(row)) ==> row in page)
            && (report.next.Some? ==>
                  && |page| == limit && report.next.value == PrintCursor(instance, Key(page[limit - 1]))
                  && (forall row :: row in sample && Past(from, Key(row)) ==> row in page || Before(Key(page[limit - 1]), Key(row)))
                  && exists row :: row in sample && Before(Key(page[limit - 1]), Key(row)))
  {
    hide Key, Before, Past, PrintCursor, ParseCursor, Lists, Climbs;
    var (sample, from) := (Sample(sources), AfterKey(instance, after));
    var listing :| Lists(listing, sample, from) && Cuts(instance, listing, sources, limit, report);
    ListingClimbs(listing, sample, from);
    if sources.None? {
      NothingListed(listing);
      assert Rows(report) == listing;
    } else if |listing| > limit {
      ListingCut(listing, sample, from, limit);
    }
  }

  lemma ListingCut(listing: seq<Instance>, sample: seq<Instance>, from: Option<string>, limit: nat)
    requires Climbs(listing, from) && 0 < limit < |listing|
    requires forall row :: row in listing <==> row in sample && Past(from, Key(row))
    ensures Climbs(listing[..limit], from) && forall row :: row in listing[..limit] ==> row in sample
    ensures forall row :: row in sample && Past(from, Key(row)) ==> row in listing[..limit] || Before(Key(listing[limit - 1]), Key(row))
    ensures exists row :: row in sample && Before(Key(listing[limit - 1]), Key(row))
  {
    hide Key, Before, Past;
    var page := listing[..limit];
    assert listing == page + listing[limit..];
    forall row | row in sample && Past(from, Key(row)) ensures row in page || Before(Key(page[limit - 1]), Key(row)) {
      var k :| 0 <= k < |listing| && listing[k] == row;
      if k < limit { assert page[k] == row; }
    }
    assert listing[limit] in listing;
  }

  lemma NothingListed(listing: seq<Instance>)
    requires forall row :: row !in listing
    ensures listing == []
  {
    if listing != [] {
      HeadListed(listing);
      assert false;
    }
  }

  lemma HeadListed(listing: seq<Instance>)
    requires listing != []
    ensures listing[0] in listing
  {
  }

  /** A cursor that is accepted continues past the key it was printed from. */
  lemma NextKey(instance: string, key: string)
    requires '/' !in instance && CursorAccepted(instance, Some(PrintCursor(instance, key)))
    ensures AfterKey(instance, Some(PrintCursor(instance, key))) == Some(key)
  {
    SplitAtFirst(instance, key);
  }

  lemma ClimbsJoin(page: seq<Instance>, rest: seq<Instance>, from: Option<string>)
    requires page != [] && Climbs(page, from) && Climbs(rest, Some(Key(page[|page| - 1])))
    ensures Climbs(page + rest, from)
  {
    hide Key, Before;
    BeforeIsStrictOrder();
    var (all, last) := (page + rest, Key(page[|page| - 1]));
    forall i, j | 0 <= i < j < |all| ensures Before(Key(all[i]), Key(all[j])) {
      if i < |page| <= j {
        assert all[j] == rest[j - |page|] && Past(Some(last), Key(rest[j - |page|]));
      }
    }
    forall i | 0 <= i < |all| ensures Past(from, Key(all[i])) {
      if i >= |page| {
        assert all[i] == rest[i - |page|] && Past(Some(last), Key(rest[i - |page|])) && Past(from, Key(page[|page| - 1]));
      }
    }
  }

  /** Whatever comes and goes between pages, a walk reports its rows in strict
      key order across pages, so no key twice. */
  lemma {:induction false} WalkClimbs(instance: string, after: Option<string>, requests: seq<Request>, reports: seq<Report>)
    requires '/' !in instance && Walk(instance, after, requests, reports) && requests != []
    ensures CursorAccepted(instance, after) && Climbs(Reported(reports), AfterKey(instance, after))
    decreases |requests|
  {
    hide Distinct, Climbs, Key, Before, Past, Sample, ParseCursor, PrintCursor, Cuts, Lists;
    PageMeaning(instance, requests[0].sources, after, requests[0].limit, reports[0]);
    if |requests| > 1 {
      var page := Rows(reports[0]);
      WalkClimbs(instance, reports[0].next, requests[1..], reports[1..]);
      NextKey(instance, Key(page[|page| - 1]));
      ClimbsJoin(page, Reported(reports[1..]), AfterKey(instance, after));
    } else {
      assert Reported(reports) == Rows(reports[0]);
    }
  }

  /** It reports only rows that were sampled. */
  lemma {:induction false} WalkReportsSampled(instance: string, after: Option<string>, requests: seq<Request>, reports: seq<Report>, row: Instance)
    requires Walk(instance, after, requests, reports) && row in Reported(reports)
    ensures exists i :: 0 <= i < |requests| && row in Sample(requests[i].sources)
    decreases |requests|
  {
    hide Distinct, Climbs, Key, Before, Past, Sample, ParseCursor, PrintCursor, Answers;
    PageMeaning(instance, requests[0].sources, after, requests[0].limit, reports[0]);
    if row in Rows(reports[0]) {
      assert row in Sample(requests[0].sources);
    } else if |requests| > 1 {
      WalkReportsSampled(instance, reports[0].next, requests[1..], reports[1..], row);
      var i :| 0 <= i < |requests[1..]| && row in Sample(requests[1..][i].sources);
      var k := i + 1;
      assert requests[k] == requests[1..][i];
    }
  }

  predicate HasKey(rows: seq<Instance>, key: string) {
    exists i :: 0 <= i < |rows| && Key(rows[i]) == key
  }

  /** Once there is no next cursor, every connection that was present in all samples
      has been reported, whatever its other columns did in between. */
  lemma {:induction false} WalkMissesNothing(instance: string, after: Option<string>, requests: seq<Request>, reports: seq<Report>, key: string)
    requires '/' !in instance && Walk(instance, after, requests, reports) && requests != []
    requires reports[|reports| - 1].next.None?
    requires CursorAccepted(instance, after) && Past(AfterKey(instance, after), key)
    requires forall i :: 0 <= i < |requests| ==> HasKey(Sample(requests[i].sources), key)
    ensures HasKey(Reported(reports), key)
    decreases |requests|
  {
    hide Distinct, Climbs, Key, Before, Sample, ParseCursor, PrintCursor, Cuts, Lists;
    PageMeaning(instance, requests[0].sources, after, requests[0].limit, reports[0]);
    var (sample, page, rest) := (Sample(requests[0].sources), Rows(reports[0]), Reported(reports[1..]));
    assert HasKey(sample, key);
    var i :| 0 <= i < |sample| && Key(sample[i]) == key;
    assert Reported(reports) == page + rest;
    if sample[i] in page {
      var k :| 0 <= k < |page| && page[k] == sample[i];
      assert (page + rest)[k] == sample[i];
    } else if |requests| > 1 {
      WalkClimbs(instance, reports[0].next, requests[1..], reports[1..]);
      NextKey(instance, Key(page[|page| - 1]));
      WalkMissesNothing(instance, reports[0].next, requests[1..], reports[1..], key);
      var k :| 0 <= k < |rest| && Key(rest[k]) == key;
      assert (page + rest)[|page| + k] == rest[k];
    }
  }

  lemma {:induction false} WalkSamplesAreDistinct(instance: string, after: Option<string>, requests: seq<Request>, reports: seq<Report>, i: nat)
    requires Walk(instance, after, requests, reports) && i < |requests|
    ensures Distinct(Sample(requests[i].sources))
    decreases |requests|
  {
    hide Distinct, Answers, Sample;
    if i > 0 { WalkSamplesAreDistinct(instance, reports[0].next, requests[1..], reports[1..], i - 1); }
  }

  /** A row that did not change is reported as it was. */
  lemma WalkReportsSteadyRow(instance: string, after: Option<string>, requests: seq<Request>, reports: seq<Report>, row: Instance)
    requires '/' !in instance && Walk(instance, after, requests, reports) && requests != []
    requires reports[|reports| - 1].next.None?
    requires CursorAccepted(instance, after) && Past(AfterKey(instance, after), Key(row))
    requires forall i :: 0 <= i < |requests| ==> row in Sample(requests[i].sources)
    ensures row in Reported(reports)
  {
    hide Key, Before, Past, Sample, ParseCursor, Walk;
    forall i | 0 <= i < |requests| ensures HasKey(Sample(requests[i].sources), Key(row)) {
      var k :| 0 <= k < |Sample(requests[i].sources)| && Sample(requests[i].sources)[k] == row;
    }
    WalkMissesNothing(instance, after, requests, reports, Key(row));
    var n :| 0 <= n < |Reported(reports)| && Key(Reported(reports)[n]) == Key(row);
    var found := Reported(reports)[n];
    WalkReportsSampled(instance, after, requests, reports, found);
    var i :| 0 <= i < |requests| && found in Sample(requests[i].sources);
    WalkSamplesAreDistinct(instance, after, requests, reports, i);
    SameKeySameRow(Sample(requests[i].sources), found, row);
  }

  lemma SameKeySameRow(rows: seq<Instance>, a: Instance, b: Instance)
    requires Distinct(rows) && a in rows && b in rows && Key(a) == Key(b)
    ensures a == b
  {
  }

  /** A walk ends: while it continues every page is full and moves up, so pages are
      no more than the keys there are to see. */
  lemma {:induction false} WalkIsBounded(instance: string, after: Option<string>, requests: seq<Request>, reports: seq<Report>, keys: set<string>)
    requires '/' !in instance && Walk(instance, after, requests, reports)
    requires forall k, row :: 0 <= k < |requests| && row in Sample(requests[k].sources) ==> Key(row) in keys
    requires forall k :: 0 <= k < |reports| ==> reports[k].next.Some?
    ensures |reports| <= |keys|
  {
    if requests != [] {
      WalkClimbs(instance, after, requests, reports);
      var rows := Reported(reports);
      EachPageReports(instance, after, requests, reports);
      forall row | row in rows ensures Key(row) in keys {
        WalkReportsSampled(instance, after, requests, reports, row);
      }
      ClimbingKeys(rows, AfterKey(instance, after), keys);
    }
  }

  lemma {:induction false} EachPageReports(instance: string, after: Option<string>, requests: seq<Request>, reports: seq<Report>)
    requires Walk(instance, after, requests, reports) && forall k :: 0 <= k < |reports| ==> reports[k].next.Some?
    ensures |reports| <= |Reported(reports)|
    decreases |requests|
  {
    hide Distinct, Climbs, Key, Before, Past, Sample, ParseCursor, PrintCursor, Answers;
    if requests != [] {
      PageMeaning(instance, requests[0].sources, after, requests[0].limit, reports[0]);
      if |requests| > 1 {
        EachPageReports(instance, reports[0].next, requests[1..], reports[1..]);
      }
    }
  }

  lemma {:induction false} ClimbingKeys(rows: seq<Instance>, after: Option<string>, keys: set<string>)
    requires Climbs(rows, after) && forall row :: row in rows ==> Key(row) in keys
    ensures |rows| <= |keys|
    decreases |rows|
  {
    hide Key, Before, Past;
    BeforeIsStrictOrder();
    if rows != [] {
      var (front, last) := (rows[..|rows| - 1], rows[|rows| - 1]);
      forall row | row in front ensures Key(row) in keys - {Key(last)} {
        var i :| 0 <= i < |front| && front[i] == row;
        assert rows[i] == row && Before(Key(rows[i]), Key(last));
      }
      ClimbingKeys(front, after, keys - {Key(last)});
    }
  }

  /** The sampled rows past a key, in key order; rows of one key in sample order. */
  function Listing(sources: Option<seq<Instance>>, from: Option<string>): seq<Instance> {
    Retain(SortByKey(Sample(sources)), from)
  }

  lemma OfKeyLast(rows: seq<Instance>)
    requires rows != []
    ensures var own := OfKey(rows, Key(rows[|rows| - 1])); own != [] && own[|own| - 1] == rows[|rows| - 1]
  {
  }

  /** There is only one such listing. */
  lemma {:induction false} OneListing(a: seq<Instance>, b: seq<Instance>)
    requires Ordered(a) && Ordered(b) && forall key :: OfKey(a, key) == OfKey(b, key)
    ensures a == b
    decreases |a|
  {
    hide Key, Before;
    if a == [] || b == [] {
      if a != [] { OfKeyLast(a); }
      if b != [] { OfKeyLast(b); }
    } else {
      var (x, y) := (a[|a| - 1], b[|b| - 1]);
      LastKeys(a, b);
      LastKeys(b, a);
      BeforeTotal(Key(x), Key(y));
      OfKeyLast(a);
      OfKeyLast(b);
      var (p, q) := (a[..|a| - 1], b[..|b| - 1]);
      assert a == p + [x] && b == q + [y] && x == y;
      forall key ensures OfKey(p, key) == OfKey(q, key) {
        OfKeyNext(p, x, key);
        OfKeyNext(q, x, key);
        assert OfKey(a, key) == OfKey(b, key);
        SameFront(OfKey(p, key), OfKey(q, key), if Key(x) == key then [x] else []);
      }
      OneListing(p, q);
    }
  }

  lemma SameFront<T>(p: seq<T>, q: seq<T>, tail: seq<T>)
    requires p + tail == q + tail
    ensures p == q
  {
    assert |p| == |q|;
    assert p == (p + tail)[..|p|] && q == (q + tail)[..|q|];
  }

  /** The last row's key is among the other listing's, so it is not above its last. */
  lemma LastKeys(a: seq<Instance>, b: seq<Instance>)
    requires a != [] && b != [] && Ordered(b) && forall key :: OfKey(a, key) == OfKey(b, key)
    ensures !Before(Key(b[|b| - 1]), Key(a[|a| - 1]))
  {
    hide Key, Before;
    var x := a[|a| - 1];
    OfKeyLast(a);
    OfKeyMembers(b, Key(x));
    assert x in OfKey(a, Key(x)) && x in b;
    var i :| 0 <= i < |b| && b[i] == x;
    BeforeIrreflexive(Key(x));
  }

  /** A report is the front of the listing. */
  lemma AnswersAreListed(instance: string, sources: Option<seq<Instance>>, after: Option<string>, limit: nat, report: Report)
    requires Answers(instance, sources, after, limit, report)
    ensures Cuts(instance, Listing(sources, AfterKey(instance, after)), sources, limit, report)
  {
    hide Cuts, Past, Before, ParseCursor;
    var from := AfterKey(instance, after);
    var listing :| Lists(listing, Sample(sources), from) && Cuts(instance, listing, sources, limit, report);
    RetainLists(Sample(sources), from);
    OneListing(listing, Listing(sources, from));
  }

  /** Whether a page's own cursor is refused by the next request is decided by the
      sample: there is a cursor exactly when more rows than the limit are past the
      old one, and it is accepted if and only if the boot id has no '/' and the
      limit-th key of those, in order, is at most 1024 bytes. */
  lemma NextIsAcceptedExactly(instance: string, sources: Option<seq<Instance>>, after: Option<string>, limit: nat, report: Report)
    requires Answers(instance, sources, after, limit, report) && limit > 0
    ensures var listing := Listing(sources, AfterKey(instance, after));
            && (report.next.Some? <==> |listing| > limit)
            && (report.next.Some? ==> (CursorAccepted(instance, report.next) <==> '/' !in instance && |Key(listing[limit - 1])| <= MAX_KEY))
  {
    hide Past, Lists, Listing, Sample, ParseCursor, PrintCursor, Key;
    AnswersAreListed(instance, sources, after, limit, report);
    var listing := Listing(sources, AfterKey(instance, after));
    if |listing| > limit { PrintedIsAcceptedExactly(instance, listing[limit - 1]); }
  }

  lemma PrintedIsAcceptedExactly(instance: string, row: Instance)
    ensures ParseCursor(instance, PrintCursor(instance, Key(row))).Ok? <==> '/' !in instance && |Key(row)| <= MAX_KEY
  {
    SplitHasNoSlash(PrintCursor(instance, Key(row)));
    if '/' !in instance { SplitAtFirst(instance, Key(row)); }
  }

  lemma {:induction false} ListedIsSampled(rows: seq<Instance>, from: Option<string>, row: Instance)
    requires row in Retain(SortByKey(rows), from)
    ensures row in rows
  {
    hide Key, Past, Lists;
    OfKeyMembers(Retain(SortByKey(rows), from), Key(row));
    OfKeyMembers(rows, Key(row));
    SortLists(rows);
    RetainOfKey(SortByKey(rows), from, Key(row));
  }

  /** While every sampled key is within the bound no page refuses its own cursor. */
  lemma ShortKeysContinue(instance: string, sources: Option<seq<Instance>>, after: Option<string>, limit: nat, report: Report)
    requires Answers(instance, sources, after, limit, report) && limit > 0 && '/' !in instance
    requires forall row :: row in Sample(sources) ==> |Key(row)| <= MAX_KEY
    ensures CursorAccepted(instance, report.next)
  {
    hide Key, Past, ParseCursor;
    NextIsAcceptedExactly(instance, sources, after, limit, report);
    if report.next.Some? {
      var listing := Listing(sources, AfterKey(instance, after));
      assert listing[limit - 1] in listing;
      ListedIsSampled(Sample(sources), AfterKey(instance, after), listing[limit - 1]);
    }
  }

  const MAX_OWNED_ID: nat := 128

  /** What the owners guarantee of the rows they hand over: generated ids, digests,
      and session ids validated at 128 bytes. */
  predicate FromOwners(rows: seq<Instance>) {
    forall row :: row in rows ==> |row.id| <= MAX_OWNED_ID
  }

  /** So a page never hands out a cursor that the same daemon refuses. */
  lemma OwnedRowsContinue(instance: string, sources: Option<seq<Instance>>, after: Option<string>, limit: nat, report: Report)
    requires Answers(instance, sources, after, limit, report) && limit > 0 && '/' !in instance
    requires FromOwners(Sample(sources))
    ensures CursorAccepted(instance, report.next)
    ensures report.next.Some? ==>
              Rows(report) != [] && AfterKey(instance, report.next) == Some(Key(Rows(report)[|Rows(report)| - 1]))
  {
    hide Key, Past, Listing, Lists, FromOwners, ParseCursor, PrintCursor;
    OwnedKeysAreShort(Sample(sources));
    ShortKeysContinue(instance, sources, after, limit, report);
    AnswersAreListed(instance, sources, after, limit, report);
    if sources.None? { NothingToList(AfterKey(instance, after)); }
    if report.next.Some? { NextKey(instance, Key(Rows(report)[|Rows(report)| - 1])); }
  }

  lemma NothingToList(from: Option<string>)
    ensures Listing(None, from) == []
  {
  }

  lemma OwnedKeysAreShort(rows: seq<Instance>)
    requires FromOwners(rows)
    ensures forall row :: row in rows ==> |Key(row)| <= MAX_KEY
  {
    forall row | row in rows ensures |Key(row)| <= MAX_KEY {
      NameIsShort(row.kind);
    }
  }

  lemma NameIsShort(kind: Kind)
    ensures |Name(kind)| <= 22
  {
  }

  /** Distinct keys are needed: a row cut off behind a row of its own key is past
      no later cursor. */
  lemma CutTwinIsLost(instance: string, listing: seq<Instance>, sources: Option<seq<Instance>>, limit: nat, report: Report, k: nat)
    requires Cuts(instance, listing, sources, limit, report) && Ordered(listing) && 0 < limit <= k < |listing| && sources.Some?
    requires '/' !in instance && CursorAccepted(instance, report.next)
    ensures !Past(AfterKey(instance, report.next), Key(listing[k])) <==> Key(listing[k]) == Key(listing[limit - 1])
  {
    hide Key;
    BeforeIsStrictOrder();
    NextKey(instance, Key(listing[limit - 1]));
  }
}
