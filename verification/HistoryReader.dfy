/** Public history is the journal filtered to thread events, page by page. */
module HistoryReader {
  import opened Basics
  import opened Codec
  import opened ExecutionDb
  import opened ExecutionPages
  import opened Paging
  import opened Journal
  import opened Discovery
  import opened Readers
  import Wires

  /** The thread events among some facts, in order. */
  ghost function EventsOf(facts: seq<Record>): seq<Event> {
    if facts == [] then []
    else if facts[0].ThreadEvent? then [facts[0].event] + EventsOf(facts[1..])
    else EventsOf(facts[1..])
  }

  /** An event bears its own row: the sequence of its place and the id of its
      execution. The store does not check this on commit; readers do. */
  predicate NamesRow(event: Event, id: string, sequence: int) {
    event.seqNo == sequence && event.threadId == id
  }

  /** A public event is stored as its plain JSON, and only such a row has the tag. */
  lemma EventPayload(w: Wire, db: Db, id: string, n: int)
    requires Lawful(w) && Journaled(w, db) && 1 <= n <= Version(db, id)
    ensures EventRow(db.records, id, n) <==> RecordAt(w, db, id, n).ThreadEvent?
    ensures EventRow(db.records, id, n) ==> db.records[(id, n)] == w.json(RecordAt(w, db, id, n))
  {
    assert (id, n) in db.records;
    var payload := db.records[(id, n)];
    assert Sound(w, payload);
    if StartsWith(payload, EVENT_TAG) {
      assert payload[0] == EVENT_TAG[0];
    }
  }

  /** What the reader finds for each event of the slice, without the early test. */
  ghost function EventItems(w: Wire, events: seq<Event>, rows: seq<int>, id: string): (items: seq<Item<Event>>)
    requires |events| == |rows|
    ensures |items| == |events|
    ensures forall i :: 0 <= i < |events| ==> items[i] == JudgedItem(w, events[i], id, rows[i])
  {
    seq(|events|, i requires 0 <= i < |events| => JudgedItem(w, events[i], id, rows[i]))
  }

  function JudgedItem(w: Wire, event: Event, id: string, row: int): Item<Event> {
    if NamesRow(event, id, row) then Item(event, w.eventSize(event)) else Broken
  }

  /** Where the thread events of (after, cutoff] are, counted from one. */
  ghost function PlacesOf(facts: seq<Record>, after: nat, cutoff: nat): (places: seq<int>)
    requires after <= cutoff <= |facts|
    ensures forall i :: 0 <= i < |places| ==> after < places[i] <= cutoff
    decreases cutoff - after
  {
    if after == cutoff then []
    else if facts[after].ThreadEvent? then [after + 1] + PlacesOf(facts, after + 1, cutoff)
    else PlacesOf(facts, after + 1, cutoff)
  }

  lemma {:induction false} PlacesHoldEvents(facts: seq<Record>, after: nat, cutoff: nat)
    requires after <= cutoff <= |facts|
    ensures var (events, places) := (EventsOf(facts[after..cutoff]), PlacesOf(facts, after, cutoff));
            && |events| == |places|
            && (forall i :: 0 <= i < |places| ==> facts[places[i] - 1] == ThreadEvent(events[i]))
            && (forall n :: after < n <= cutoff && facts[n - 1].ThreadEvent? ==> n in places)
    decreases cutoff - after
  {
    if after < cutoff {
      PlacesHoldEvents(facts, after + 1, cutoff);
      assert facts[after..cutoff][1..] == facts[after + 1..cutoff];
    }
  }

  /** Past the n-th event's place exactly the later events remain. */
  lemma {:induction false} EventsAfter(facts: seq<Record>, after: nat, cutoff: nat, n: nat)
    requires after <= cutoff <= |facts| && 0 < n <= |PlacesOf(facts, after, cutoff)|
    ensures var places := PlacesOf(facts, after, cutoff);
            && PlacesOf(facts, places[n - 1], cutoff) == places[n..]
            && n <= |EventsOf(facts[after..cutoff])|
            && EventsOf(facts[places[n - 1]..cutoff]) == EventsOf(facts[after..cutoff])[n..]
    decreases cutoff - after
  {
    PlacesHoldEvents(facts, after, cutoff);
    assert facts[after..cutoff][1..] == facts[after + 1..cutoff];
    if facts[after].ThreadEvent? {
      if n > 1 {
        EventsAfter(facts, after + 1, cutoff, n - 1);
      }
    } else {
      EventsAfter(facts, after + 1, cutoff, n);
    }
  }

  /** Only the slice matters. */
  lemma {:induction false} SameSliceSamePlaces(a: seq<Record>, b: seq<Record>, after: nat, cutoff: nat)
    requires after <= cutoff <= |a| && cutoff <= |b| && a[after..cutoff] == b[after..cutoff]
    ensures PlacesOf(a, after, cutoff) == PlacesOf(b, after, cutoff)
    decreases cutoff - after
  {
    if after < cutoff {
      assert a[after] == a[after..cutoff][0] == b[after..cutoff][0] == b[after];
      assert a[after + 1..cutoff] == a[after..cutoff][1..] && b[after + 1..cutoff] == b[after..cutoff][1..];
      SameSliceSamePlaces(a, b, after + 1, cutoff);
    }
  }

  lemma {:induction false} RowsArePlaces(w: Wire, db: Db, id: string, after: nat, cutoff: nat)
    requires Lawful(w) && Journaled(w, db) && after <= cutoff <= Version(db, id)
    ensures EventRows(db.records, id, after, cutoff) == PlacesOf(Facts(w, db, id), after, cutoff)
    decreases cutoff - after
  {
    hide Lawful, Journaled, RecordAt;
    if after < cutoff {
      RowsArePlaces(w, db, id, after + 1, cutoff);
      EventPayload(w, db, id, after + 1);
      assert Facts(w, db, id)[after] == RecordAt(w, db, id, after + 1);
    }
  }

  /** The raw row exceeds the bound of the early test. */
  predicate Giant(w: Wire, event: Event, maxBytes: nat) {
    w.eventSize(event) + EVENT_OVERHEAD > SaturatingAdd(maxBytes, 128)
  }

  /** The events of the range (after, cutoff] in one state, and their places. */
  ghost function Range(w: Wire, db: Db, id: string, after: nat, cutoff: nat): seq<Event>
    requires Journaled(w, db) && after <= cutoff <= Version(db, id)
  {
    EventsOf(Facts(w, db, id)[after..cutoff])
  }

  ghost function Places(w: Wire, db: Db, id: string, after: nat, cutoff: nat): seq<int>
    requires Journaled(w, db) && after <= cutoff <= Version(db, id)
    ensures |Places(w, db, id, after, cutoff)| == |Range(w, db, id, after, cutoff)|
  {
    PlacesHoldEvents(Facts(w, db, id), after, cutoff);
    PlacesOf(Facts(w, db, id), after, cutoff)
  }

  lemma PlaceHoldsEvent(w: Wire, db: Db, id: string, after: nat, cutoff: nat, i: nat)
    requires Lawful(w) && Journaled(w, db) && after <= cutoff <= Version(db, id) && i < |Range(w, db, id, after, cutoff)|
    ensures var (event, place) := (Range(w, db, id, after, cutoff)[i], Places(w, db, id, after, cutoff)[i]);
            (id, place) in db.records && db.records[(id, place)] == w.json(ThreadEvent(event))
  {
    PlacesHoldEvents(Facts(w, db, id), after, cutoff);
    var place := Places(w, db, id, after, cutoff)[i];
    assert Facts(w, db, id)[place - 1] == RecordAt(w, db, id, place);
    EventPayload(w, db, id, place);
  }

  /** Items with and without the early size test. */
  ghost predicate Items(w: Wire, early: seq<Item<Event>>, events: seq<Event>, places: seq<int>, id: string, maxBytes: nat) {
    && |early| == |events| == |places|
    && forall i :: 0 <= i < |events| ==>
         early[i] == if Giant(w, events[i], maxBytes) then Oversized else JudgedItem(w, events[i], id, places[i])
  }

  lemma HistoryItemsAreEvents(w: Wire, db: Db, id: string, after: nat, cutoff: nat, maxBytes: nat)
    requires Lawful(w) && Journaled(w, db) && after <= cutoff <= Version(db, id)
    ensures var (events, places) := (Range(w, db, id, after, cutoff), Places(w, db, id, after, cutoff));
            && EventRows(db.records, id, after, cutoff) == places
            && HistoryItems(w, db.records, id, places, maxBytes, false) == EventItems(w, events, places, id)
            && Items(w, HistoryItems(w, db.records, id, places, maxBytes, true), events, places, id, maxBytes)
  {
    RowsArePlaces(w, db, id, after, cutoff);
    var (events, places) := (Range(w, db, id, after, cutoff), Places(w, db, id, after, cutoff));
    hide Range, Places, Journaled;
    forall i | 0 <= i < |places|
      ensures StoredEventItem(w, db.records, id, places[i], maxBytes, false) == JudgedItem(w, events[i], id, places[i])
      ensures StoredEventItem(w, db.records, id, places[i], maxBytes, true) ==
              if Giant(w, events[i], maxBytes) then Oversized else JudgedItem(w, events[i], id, places[i])
    {
      PlaceHoldsEvent(w, db, id, after, cutoff, i);
      assert |w.json(ThreadEvent(events[i]))| == w.eventSize(events[i]) + EVENT_OVERHEAD;
    }
  }

  // ---- The early test on the raw row -------------------------------------

  /** `early` hides some items of `late`: only ones larger than a whole page, or
      ones whose identity is wrong. */
  ghost predicate Hides<T>(early: seq<Item<T>>, late: seq<Item<T>>, max: nat) {
    && |early| == |late|
    && forall i :: 0 <= i < |late| ==>
         early[i] == late[i] || (early[i].Oversized? && (late[i].Broken? || (late[i].Item? && late[i].size > max)))
  }

  /** The scan reaches, with something already taken, a hidden row whose identity
      is wrong: the guard of the only branch in which the early test matters. */
  ghost predicate HidesBrokenAt<T>(early: seq<Item<T>>, late: seq<Item<T>>, k: nat, limit: nat, max: nat, used: nat) {
    k < |early| == |late| && Fits(late, k, limit, max, used) && early[k].Oversized? && late[k].Broken?
  }

  lemma HidesBrokenShift<T>(early: seq<Item<T>>, late: seq<Item<T>>, k: nat, limit: nat, max: nat, used: nat)
    requires |early| == |late| && late != [] && late[0].Item? && limit > 0
    requires used <= max <= USIZE_MAX && SaturatingAdd(used, late[0].size) <= max
    ensures HidesBrokenAt(early, late, k + 1, limit, max, used) <==>
            HidesBrokenAt(early[1..], late[1..], k, limit - 1, max, SaturatingAdd(used, late[0].size))
  {
    if k + 1 < |late| {
      assert late[1..][k] == late[k + 1] && early[1..][k] == early[k + 1];
      var whole, rest := late[..k + 1], late[1..][..k];
      assert whole[0] == late[0] && whole[1..] == rest;
      assert forall i :: 0 <= i < k ==> rest[i] == whole[i + 1];
      assert forall i :: 1 <= i < k + 1 ==> whole[i] == rest[i - 1];
    }
  }

  /** With a hidden broken row the early scan ends a page where the late one
      fails; everywhere else they agree. */
  lemma {:induction false} EarlyFill<T>(early: seq<Item<T>>, late: seq<Item<T>>, limit: nat, max: nat, used: nat)
    requires Hides(early, late, max) && used <= max < USIZE_MAX
    ensures (exists k: nat :: HidesBrokenAt(early, late, k, limit, max, used)) ==>
              Fill(early, limit, max, used, true).Some? && Fill(late, limit, max, used, true).None?
    ensures !(exists k: nat :: HidesBrokenAt(early, late, k, limit, max, used)) ==>
              Fill(early, limit, max, used, true) == Fill(late, limit, max, used, true)
    decreases |late|
  {
    if late != [] {
      assert Fits(late, 0, limit, max, used);
      if late[0].Item? && limit > 0 && SaturatingAdd(used, late[0].size) <= max {
        var next := SaturatingAdd(used, late[0].size);
        var restEarly, restLate, fewer: nat := early[1..], late[1..], limit - 1;
        EarlyFill(restEarly, restLate, fewer, max, next);
        if k: nat :| HidesBrokenAt(early, late, k, limit, max, used) {
          HidesBrokenShift(early, late, k - 1, limit, max, used);
        }
        if k: nat :| HidesBrokenAt(restEarly, restLate, k, fewer, max, next) {
          HidesBrokenShift(early, late, k, limit, max, used);
        }
      } else {
        forall k: nat | HidesBrokenAt(early, late, k, limit, max, used) ensures k == 0 {
          if k > 0 { SumOfPrefix(late, k); }
        }
        assert early[0].Oversized? && late[0].Broken? <==> HidesBrokenAt(early, late, 0, limit, max, used);
      }
    }
  }

  /** On item lists: the answers differ exactly when the scan reaches, with a page
      already begun, a hidden broken item. */
  lemma HidingMattersExactly(early: seq<Item<Event>>, late: seq<Item<Event>>, limit: nat, max: nat)
    requires Hides(early, late, max) && max < USIZE_MAX && 0 < limit
    ensures HistoryPage(early, limit, max) != HistoryPage(late, limit, max) <==>
            exists k: nat :: 0 < k && HidesBrokenAt(early, late, k, limit, max, 0)
  {
    EarlyFill(early, late, limit, max, 0);
    if k: nat :| HidesBrokenAt(early, late, k, limit, max, 0) {
      FillStopsAtHidden(early, late, k, limit, max, 0);
    } else {
      var n := Fill(early, limit, max, 0, true);
      if n.Some? {
        assert forall i :: 0 <= i < n.value ==> early[i] == late[i];
        assert Prefix(early, n.value) == Prefix(late, n.value);
      }
    }
  }

  lemma {:induction false} FillStopsAtHidden<T>(early: seq<Item<T>>, late: seq<Item<T>>, k: nat, limit: nat, max: nat, used: nat)
    requires Hides(early, late, max) && used <= max < USIZE_MAX
    requires HidesBrokenAt(early, late, k, limit, max, used)
    ensures Fill(early, limit, max, used, true) == Some(k)
    decreases k
  {
    if k > 0 {
      SumOfPrefix(late, k);
      var whole := late[..k];
      assert whole[0] == late[0];
      HidesBrokenShift(early, late, k - 1, limit, max, used);
      FillStopsAtHidden(early[1..], late[1..], k - 1, limit - 1, max, SaturatingAdd(used, late[0].size));
    }
  }

  // ---- Pages -------------------------------------------------------------

  /** The first n events bear their own rows and none is too large for the early test. */
  ghost predicate Taken(w: Wire, events: seq<Event>, places: seq<int>, id: string, maxBytes: nat, n: nat) {
    && n <= |events| == |places|
    && forall i :: 0 <= i < n ==> NamesRow(events[i], id, places[i]) && !Giant(w, events[i], maxBytes)
  }

  ghost function EventBytes(w: Wire, events: seq<Event>): nat {
    if events == [] then 0 else w.eventSize(events[0]) + EventBytes(w, events[1..])
  }

  /** The first k events can be taken within both bounds. */
  ghost predicate Admissible(w: Wire, events: seq<Event>, places: seq<int>, id: string, limit: nat, maxBytes: nat, k: nat) {
    && Taken(w, events, places, id, maxBytes, k)
    && k <= limit && (maxBytes == USIZE_MAX || EventBytes(w, events[..k]) <= maxBytes)
  }

  /** Why a page fails: past an admissible prefix there is an event of another
      row, or the very first event is too large on its own. */
  ghost predicate FailsAt(w: Wire, events: seq<Event>, places: seq<int>, id: string, limit: nat, maxBytes: nat, k: nat) {
    && k < |events| && Admissible(w, events, places, id, limit, maxBytes, k)
    && (if Giant(w, events[k], maxBytes) then k == 0
        else !NamesRow(events[k], id, places[k]) || (k == 0 && maxBytes < USIZE_MAX && w.eventSize(events[0]) > maxBytes))
  }

  /** A page of the events: its longest admissible prefix, with `more` exactly when
      something is left. */
  ghost predicate EventPage(w: Wire, events: seq<Event>, places: seq<int>, id: string, limit: nat, maxBytes: nat, chunk: HistoryChunk) {
    var n := |chunk.events|;
    && Delivers(events, places, id, chunk)
    && Admissible(w, events, places, id, limit, maxBytes, n)
    && !Admissible(w, events, places, id, limit, maxBytes, n + 1)
  }

  /** What every page delivers, whatever its bounds: leading events, each checked
      against its row; a page that is continued is not empty. */
  ghost predicate Delivers(events: seq<Event>, places: seq<int>, id: string, chunk: HistoryChunk) {
    var n := |chunk.events|;
    && n <= |events| == |places| && chunk.events == events[..n]
    && (forall i :: 0 <= i < n ==> NamesRow(events[i], id, places[i]))
    && (chunk.more <==> n < |events|) && (chunk.more ==> 0 < n)
  }

  lemma PageDelivers(w: Wire, early: seq<Item<Event>>, events: seq<Event>, places: seq<int>, id: string, limit: nat, maxBytes: nat)
    requires Items(w, early, events, places, id, maxBytes) && HistoryPage(early, limit, maxBytes).Ok?
    ensures Delivers(events, places, id, HistoryPage(early, limit, maxBytes).value)
  {
    var n := Page(early, limit, maxBytes, true).value;
    assert forall i :: 0 <= i < n ==> early[i].Item?;
    assert Prefix(early, n) == events[..n];
  }

  lemma {:induction false} SumIsEventBytes(w: Wire, items: seq<Item<Event>>, events: seq<Event>, n: nat)
    requires n <= |items| == |events|
    requires forall i :: 0 <= i < n ==> items[i] == Item(events[i], w.eventSize(events[i]))
    ensures Readable(items[..n]) && Sum(items[..n]) == EventBytes(w, events[..n])
    decreases n
  {
    if n > 0 {
      SumIsEventBytes(w, items[1..], events[1..], n - 1);
      assert items[..n][1..] == items[1..][..n - 1] && events[..n][1..] == events[1..][..n - 1];
    }
  }

  lemma FitsIsAdmissible(w: Wire, early: seq<Item<Event>>, events: seq<Event>, places: seq<int>, id: string, limit: nat, maxBytes: nat, k: nat)
    requires Items(w, early, events, places, id, maxBytes)
    ensures Fits(early, k, limit, maxBytes, 0) <==> Admissible(w, events, places, id, limit, maxBytes, k)
  {
    hide Giant;
    if k <= |early| {
      assert Readable(early[..k]) <==> forall i :: 0 <= i < k ==> early[i].Item? by {
        assert forall i :: 0 <= i < k ==> early[..k][i] == early[i];
      }
      if Taken(w, events, places, id, maxBytes, k) { SumIsEventBytes(w, early, events, k); }
    }
  }

  /** The page exactly: when it fails, and what it holds when it does not. */
  lemma PageIsExact(w: Wire, early: seq<Item<Event>>, events: seq<Event>, places: seq<int>, id: string, limit: nat, maxBytes: nat)
    requires Items(w, early, events, places, id, maxBytes) && 0 < limit && maxBytes <= USIZE_MAX
    ensures HistoryPage(early, limit, maxBytes).Err? <==> exists k: nat :: FailsAt(w, events, places, id, limit, maxBytes, k)
    ensures HistoryPage(early, limit, maxBytes).Ok? ==>
              EventPage(w, events, places, id, limit, maxBytes, HistoryPage(early, limit, maxBytes).value)
  {
    FillFails(early, limit, maxBytes, 0, true);
    FirstRefused(w, early, events, places, id, limit, maxBytes);
    if k: nat :| Blocks(early, k, limit, maxBytes, 0, true) {
      FitsIsAdmissible(w, early, events, places, id, limit, maxBytes, k);
      assert FailsAt(w, events, places, id, limit, maxBytes, k);
    }
    if k: nat :| FailsAt(w, events, places, id, limit, maxBytes, k) {
      FitsIsAdmissible(w, early, events, places, id, limit, maxBytes, k);
      assert Blocks(early, k, limit, maxBytes, 0, true) || k == 0;
    }
    if HistoryPage(early, limit, maxBytes).Ok? {
      PageDelivers(w, early, events, places, id, limit, maxBytes);
      FillIsLongest(early, limit, maxBytes, 0, true);
      var n := Fill(early, limit, maxBytes, 0, true).value;
      FitsIsAdmissible(w, early, events, places, id, limit, maxBytes, n);
      FitsIsAdmissible(w, early, events, places, id, limit, maxBytes, n + 1);
    }
  }

  /** An empty page over waiting events is refused exactly when the first is too large. */
  lemma FirstRefused(w: Wire, early: seq<Item<Event>>, events: seq<Event>, places: seq<int>, id: string, limit: nat, maxBytes: nat)
    requires Items(w, early, events, places, id, maxBytes) && 0 < limit && maxBytes <= USIZE_MAX
    ensures early != [] && !early[0].Broken? ==>
              (Fill(early, limit, maxBytes, 0, true) == Some(0) <==> FailsAt(w, events, places, id, limit, maxBytes, 0))
  {
    assert events[..0] == [];
  }

  /** One page of history, in any state the store can be in: the longest admissible
      prefix of the thread events in range, or an error exactly for the reasons
      given. */
  lemma HistoryPageIsFilter(w: Wire, db: Db, id: string, after: nat, cutoff: nat, limit: nat, maxBytes: nat)
    requires Lawful(w) && Journaled(w, db) && id in db.roots && Supported(db.roots[id].format)
    requires after <= cutoff <= Version(db, id) && 0 < limit <= 1000 && 0 < maxBytes <= USIZE_MAX
    ensures var (events, places) := (Range(w, db, id, after, cutoff), Places(w, db, id, after, cutoff));
            var r := ThreadHistory(w, db, id, after, cutoff, limit, maxBytes, true);
            && (r.Err? <==> exists k: nat :: FailsAt(w, events, places, id, limit, maxBytes, k))
            && (r.Ok? ==> EventPage(w, events, places, id, limit, maxBytes, r.value))
  {
    hide Range, Places, HistoryPage, FailsAt, EventPage;
    var (events, places) := (Range(w, db, id, after, cutoff), Places(w, db, id, after, cutoff));
    HistoryItemsAreEvents(w, db, id, after, cutoff, maxBytes);
    PageIsExact(w, HistoryItems(w, db.records, id, places, maxBytes, true), events, places, id, limit, maxBytes);
  }

  lemma HistoryGuards(w: Wire, db: Db, id: string, after: nat, cutoff: nat, limit: nat, maxBytes: nat, early: bool)
    requires ThreadHistory(w, db, id, after, cutoff, limit, maxBytes, early).Ok?
    ensures 0 < limit <= 1000 && 0 < maxBytes && after <= cutoff <= Version(db, id)
    ensures id in db.roots && Supported(db.roots[id].format)
  {
  }

  /** Every page that is returned delivers leading events of its range. */
  lemma HistoryPageDelivers(w: Wire, db: Db, id: string, after: nat, cutoff: nat, limit: nat, maxBytes: nat)
    requires Lawful(w) && Journaled(w, db) && ThreadHistory(w, db, id, after, cutoff, limit, maxBytes, true).Ok?
    ensures after <= cutoff <= Version(db, id)
    ensures Delivers(Range(w, db, id, after, cutoff), Places(w, db, id, after, cutoff), id,
                     ThreadHistory(w, db, id, after, cutoff, limit, maxBytes, true).value)
  {
    hide Range, Places, HistoryPage, Delivers;
    HistoryGuards(w, db, id, after, cutoff, limit, maxBytes, true);
    var (events, places) := (Range(w, db, id, after, cutoff), Places(w, db, id, after, cutoff));
    HistoryItemsAreEvents(w, db, id, after, cutoff, maxBytes);
    PageDelivers(w, HistoryItems(w, db.records, id, places, maxBytes, true), events, places, id, limit, maxBytes);
  }

  // ---- The early test over stores ----------------------------------------

  /** A usize bounds every text held in memory. */
  ghost predicate Addressable(w: Wire, events: seq<Event>) {
    forall i :: 0 <= i < |events| ==> w.eventSize(events[i]) + EVENT_OVERHEAD <= USIZE_MAX
  }

  predicate InProtocol(db: Db, id: string, after: nat, cutoff: nat, limit: nat, maxBytes: nat) {
    && 0 < limit <= 1000 && 0 < maxBytes && after <= cutoff <= I64_MAX
    && id in db.roots && Supported(db.roots[id].format) && cutoff <= db.roots[id].version
  }

  /** Past an admissible prefix that is not empty, a giant event of another row. */
  ghost predicate HiddenAt(w: Wire, events: seq<Event>, places: seq<int>, id: string, limit: nat, maxBytes: nat, k: nat) {
    && 0 < k < |events| && Admissible(w, events, places, id, limit, maxBytes, k)
    && Giant(w, events[k], maxBytes) && !NamesRow(events[k], id, places[k])
  }

  lemma HiddenIsHidden(w: Wire, early: seq<Item<Event>>, events: seq<Event>, places: seq<int>, id: string, limit: nat, maxBytes: nat, k: nat)
    requires Items(w, early, events, places, id, maxBytes) && 0 < k
    requires maxBytes + 128 <= USIZE_MAX
    ensures HidesBrokenAt(early, EventItems(w, events, places, id), k, limit, maxBytes, 0) <==>
            HiddenAt(w, events, places, id, limit, maxBytes, k)
  {
    var late := EventItems(w, events, places, id);
    if k < |late| {
      LateFits(w, early, events, places, id, limit, maxBytes, k);
    }
  }

  /** What fits a page is no giant, so both scans see the same prefix. */
  lemma LateFits(w: Wire, early: seq<Item<Event>>, events: seq<Event>, places: seq<int>, id: string, limit: nat, maxBytes: nat, k: nat)
    requires Items(w, early, events, places, id, maxBytes) && k <= |events| && maxBytes + 128 <= USIZE_MAX
    ensures Fits(EventItems(w, events, places, id), k, limit, maxBytes, 0) <==> Admissible(w, events, places, id, limit, maxBytes, k)
  {
    var late := EventItems(w, events, places, id);
    FitsIsAdmissible(w, early, events, places, id, limit, maxBytes, k);
    if Fits(late, k, limit, maxBytes, 0) {
      forall i | 0 <= i < k ensures early[i] == late[i] == Item(events[i], w.eventSize(events[i])) {
        assert late[..k][i] == late[i] && late[i].Item?;
        SizeWithinSum(late[..k], i);
      }
      assert early[..k] == late[..k];
    }
    if Fits(early, k, limit, maxBytes, 0) {
      forall i | 0 <= i < k ensures early[i] == late[i] {
        assert early[..k][i] == early[i] && early[i].Item?;
      }
      assert early[..k] == late[..k];
    }
  }

  lemma {:induction false} SizeWithinSum<T>(items: seq<Item<T>>, i: nat)
    requires Paging.Readable(items) && i < |items|
    ensures items[i].size <= Sum(items)
    decreases i
  {
    if i > 0 { SizeWithinSum(items[1..], i - 1); }
  }

  /** In every state of the store, the early size test changes the reader's answer
      if and only if the scan meets, past a nonempty prefix that fits, an event
      over the bound by more than 94 bytes that does not bear its own row. */
  lemma EarlyTestMattersExactly(w: Wire, db: Db, id: string, after: nat, cutoff: nat, limit: nat, maxBytes: nat)
    requires Lawful(w) && Journaled(w, db) && maxBytes <= USIZE_MAX
    requires maxBytes + 128 <= USIZE_MAX || (InProtocol(db, id, after, cutoff, limit, maxBytes) ==> Addressable(w, Range(w, db, id, after, cutoff)))
    ensures ThreadHistory(w, db, id, after, cutoff, limit, maxBytes, true) != ThreadHistory(w, db, id, after, cutoff, limit, maxBytes, false) <==>
            && InProtocol(db, id, after, cutoff, limit, maxBytes)
            && exists k: nat :: HiddenAt(w, Range(w, db, id, after, cutoff), Places(w, db, id, after, cutoff), id, limit, maxBytes, k)
    ensures maxBytes + 128 <= USIZE_MAX ==> forall event :: Giant(w, event, maxBytes) <==> w.eventSize(event) > maxBytes + 94
  {
    if InProtocol(db, id, after, cutoff, limit, maxBytes) {
      hide Range, Places, HistoryPage, HidesBrokenAt, HiddenAt;
      var (events, places) := (Range(w, db, id, after, cutoff), Places(w, db, id, after, cutoff));
      HistoryItemsAreEvents(w, db, id, after, cutoff, maxBytes);
      var early := HistoryItems(w, db.records, id, places, maxBytes, true);
      var late := EventItems(w, events, places, id);
      if maxBytes + 128 <= USIZE_MAX {
        assert Hides(early, late, maxBytes);
        HidingMattersExactly(early, late, limit, maxBytes);
        forall k: nat | 0 < k
          ensures HidesBrokenAt(early, late, k, limit, maxBytes, 0) <==> HiddenAt(w, events, places, id, limit, maxBytes, k)
        {
          HiddenIsHidden(w, early, events, places, id, limit, maxBytes, k);
        }
        HiddenIsPast(w, events, places, id, limit, maxBytes);
      } else {
        NoGiants(w, events, places, id, limit, maxBytes);
        assert early == late;
      }
    }
  }

  /** Near the largest bound no text held in memory can be hidden. */
  lemma NoGiants(w: Wire, events: seq<Event>, places: seq<int>, id: string, limit: nat, maxBytes: nat)
    requires Addressable(w, events) && maxBytes <= USIZE_MAX < maxBytes + 128 && |events| == |places|
    ensures forall i :: 0 <= i < |events| ==> !Giant(w, events[i], maxBytes)
    ensures forall k: nat :: !HiddenAt(w, events, places, id, limit, maxBytes, k)
  {
  }

  lemma HiddenIsPast(w: Wire, events: seq<Event>, places: seq<int>, id: string, limit: nat, maxBytes: nat)
    ensures forall k: nat :: HiddenAt(w, events, places, id, limit, maxBytes, k) ==> 0 < k
  {
  }

  /** Every event of (after, cutoff] bears its own row. */
  ghost predicate Identified(facts: seq<Record>, id: string, after: nat, cutoff: nat)
    requires cutoff <= |facts|
  {
    forall i :: after <= i < cutoff && facts[i].ThreadEvent? ==> NamesRow(facts[i].event, id, i + 1)
  }

  ghost predicate AllNamed(events: seq<Event>, places: seq<int>, id: string) {
    |events| == |places| && forall i :: 0 <= i < |events| ==> NamesRow(events[i], id, places[i])
  }

  lemma IdentifiedIsNamed(w: Wire, db: Db, id: string, after: nat, cutoff: nat)
    requires Journaled(w, db) && after <= cutoff <= Version(db, id)
    ensures Identified(Facts(w, db, id), id, after, cutoff) <==>
            AllNamed(Range(w, db, id, after, cutoff), Places(w, db, id, after, cutoff), id)
  {
    hide Journaled, EventsOf, PlacesOf, Identified, AllNamed;
    NamedPlaces(Facts(w, db, id), id, after, cutoff);
  }

  lemma NamedPlaces(facts: seq<Record>, id: string, after: nat, cutoff: nat)
    requires after <= cutoff <= |facts|
    ensures Identified(facts, id, after, cutoff) <==> AllNamed(EventsOf(facts[after..cutoff]), PlacesOf(facts, after, cutoff), id)
  {
    hide NamesRow, EventsOf, PlacesOf;
    PlacesHoldEvents(facts, after, cutoff);
    var (events, places) := (EventsOf(facts[after..cutoff]), PlacesOf(facts, after, cutoff));
    if AllNamed(events, places, id) {
      forall k | after <= k < cutoff && facts[k].ThreadEvent? ensures NamesRow(facts[k].event, id, k + 1) {
        var n := k + 1;
        assert n in places;
        var i :| 0 <= i < |places| && places[i] == n;
        assert facts[places[i] - 1] == ThreadEvent(events[i]);
      }
    }
  }

  /** On events that bear their own rows the early test, with its slack of 128
      bytes, never changes the answer. */
  lemma EarlyTestIsHarmless(w: Wire, db: Db, id: string, after: nat, cutoff: nat, limit: nat, maxBytes: nat)
    requires Lawful(w) && Journaled(w, db) && after <= cutoff <= Version(db, id) && maxBytes <= USIZE_MAX
    requires Addressable(w, Range(w, db, id, after, cutoff)) || maxBytes + 128 <= USIZE_MAX
    requires Identified(Facts(w, db, id), id, after, cutoff)
    ensures ThreadHistory(w, db, id, after, cutoff, limit, maxBytes, true) == ThreadHistory(w, db, id, after, cutoff, limit, maxBytes, false)
  {
    hide ThreadHistory, Journaled, Range, Places, Identified, Admissible, Giant, NamesRow;
    IdentifiedIsNamed(w, db, id, after, cutoff);
    EarlyTestMattersExactly(w, db, id, after, cutoff, limit, maxBytes);
    var (events, places) := (Range(w, db, id, after, cutoff), Places(w, db, id, after, cutoff));
    forall k: nat ensures !HiddenAt(w, events, places, id, limit, maxBytes, k) {
      assert k < |events| ==> NamesRow(events[k], id, places[k]);
    }
  }

  /** A store in which it does change the answer: one commit of an event that bears
      its row and of a giant one that does not. */
  lemma EarlyTestCanMatter(w: Wire, id: string, good: Event, giant: Event, limit: nat, maxBytes: nat)
    requires Lawful(w) && NamesRow(good, id, 1) && !NamesRow(giant, id, 2)
    requires w.eventSize(good) <= maxBytes && w.eventSize(giant) > maxBytes + 94
    requires 0 < limit <= 1000 && 0 < maxBytes && maxBytes + 128 <= USIZE_MAX
    ensures var db := Run(w, EMPTY, [CommitStep(Current, None, id, 0, [ThreadEvent(good), ThreadEvent(giant)])]);
            && ThreadHistory(w, db, id, 0, 2, limit, maxBytes, true) == Ok(HistoryChunk([good], true))
            && ThreadHistory(w, db, id, 0, 2, limit, maxBytes, false) == Err
  {
    var batch := [ThreadEvent(good), ThreadEvent(giant)];
    var db := Run(w, EMPTY, [CommitStep(Current, None, id, 0, batch)]);
    FirstCommit(w, id, batch);
    TwoEvents(w, db, id, good, giant);
    hide Run, Range, Places, Journaled, HistoryPage;
    var (events, places) := ([good, giant], [1, 2]);
    HistoryItemsAreEvents(w, db, id, 0, 2, maxBytes);
    TwoItems(w, HistoryItems(w, db.records, id, places, maxBytes, true), events, places, id, limit, maxBytes);
  }

  /** Such a store exists: thread "t" with an event 1 in its place and one that calls
      itself event 300, read with a bound of 100 bytes. */
  lemma EarlyTestWitness()
    ensures var w := Wires.PlainWire();
            var (good, giant) := (Event("t", 1, ""), Event("t", 300, ""));
            var db := Run(w, EMPTY, [CommitStep(Current, None, "t", 0, [ThreadEvent(good), ThreadEvent(giant)])]);
            && Lawful(w)
            && ThreadHistory(w, db, "t", 0, 2, 5, 100, true) == Ok(HistoryChunk([good], true))
            && ThreadHistory(w, db, "t", 0, 2, 5, 100, false) == Err
  {
    var (good, giant) := (Event("t", 1, ""), Event("t", 300, ""));
    Wires.PlainWireIsLawful();
    Wires.PlainSizeOf(good);
    Wires.PlainSizeOf(giant);
    EarlyTestCanMatter(Wires.PlainWire(), "t", good, giant, 5, 100);
  }

  /** A first unowned commit on a fresh store succeeds and holds its batch. */
  lemma FirstCommit(w: Wire, id: string, batch: seq<Record>)
    requires Lawful(w) && 0 < |batch| <= I64_MAX && forall i :: 0 <= i < |batch| ==> !batch[i].Accepted?
    ensures var db := Run(w, EMPTY, [CommitStep(Current, None, id, 0, batch)]);
            && Journaled(w, db) && Facts(w, db, id) == batch
            && id in db.roots && Supported(db.roots[id].format)
  {
    var step := CommitStep(Current, None, id, 0, batch);
    var steps: seq<Step> := [];
    assert [step][..0] == steps && Run(w, EMPTY, steps) == EMPTY;
    CommitSucceedsExactly(w, steps, step);
    JournalIsHistory(w, EMPTY, steps);
    CommitAppends(w, EMPTY, step);
    CommitFormat(w, EMPTY, step);
    assert Facts(w, EMPTY, id) + batch == batch;
  }

  lemma TwoEvents(w: Wire, db: Db, id: string, good: Event, giant: Event)
    requires Journaled(w, db) && Facts(w, db, id) == [ThreadEvent(good), ThreadEvent(giant)]
    ensures Version(db, id) == 2 && Range(w, db, id, 0, 2) == [good, giant] && Places(w, db, id, 0, 2) == [1, 2]
  {
    var facts := Facts(w, db, id);
    assert |facts| == 2 && facts[0..2] == facts && facts[1..] == [ThreadEvent(giant)] && facts[1..][1..] == [];
    assert EventsOf(facts[1..]) == [giant] && EventsOf(facts) == [good] + EventsOf(facts[1..]);
    assert PlacesOf(facts, 2, 2) == [] && PlacesOf(facts, 1, 2) == [2];
  }

  lemma TwoItems(w: Wire, early: seq<Item<Event>>, events: seq<Event>, places: seq<int>, id: string, limit: nat, maxBytes: nat)
    requires Items(w, early, events, places, id, maxBytes) && |events| == 2 && 0 < limit && maxBytes + 128 <= USIZE_MAX
    requires NamesRow(events[0], id, places[0]) && !NamesRow(events[1], id, places[1])
    requires w.eventSize(events[0]) <= maxBytes && w.eventSize(events[1]) > maxBytes + 94
    ensures HistoryPage(early, limit, maxBytes) == Ok(HistoryChunk([events[0]], true))
    ensures HistoryPage(EventItems(w, events, places, id), limit, maxBytes) == Err
  {
    var (late, size, fewer) := (EventItems(w, events, places, id), w.eventSize(events[0]), limit - 1);
    assert early[0] == late[0] == Item(events[0], size) && early[1].Oversized? && late[1].Broken?;
    assert Fill(early[1..], fewer, maxBytes, size, true) == Some(0) && Fill(late[1..], fewer, maxBytes, size, true) == None;
    assert Prefix(early, 1) == [events[0]];
  }

  // ---- Walks -------------------------------------------------------------

  /** Chaining pages by the last event's sequence until nothing more is reported. */
  ghost function FollowHistory(w: Wire, id: string, after: nat, cutoff: nat, requests: seq<Request>): Option<seq<Event>>
    decreases |requests|
  {
    if requests == [] then None
    else
      match ThreadHistory(w, requests[0].db, id, after, cutoff, requests[0].limit, requests[0].maxBytes, true)
      case Err => None
      case Ok(chunk) =>
        if !chunk.more then Some(chunk.events)
        else if chunk.events == [] then None
        else
          (match FollowHistory(w, id, chunk.events[|chunk.events| - 1].seqNo, cutoff, requests[1..])
           case None => None
           case Some(rest) => Some(chunk.events + rest))
  }

  /** A later state shows the same events at the same places. */
  lemma LaterRange(w: Wire, base: Db, later: Db, id: string, after: nat, cutoff: nat)
    requires Lawful(w) && Journaled(w, base) && Reaches(w, base, later) && after <= cutoff <= Version(base, id)
    ensures Journaled(w, later) && cutoff <= Version(later, id)
    ensures Range(w, later, id, after, cutoff) == Range(w, base, id, after, cutoff)
    ensures Places(w, later, id, after, cutoff) == Places(w, base, id, after, cutoff)
  {
    hide Journaled, Reaches, Lawful;
    SliceIsStable(w, base, later, id, after, cutoff);
    SameSliceSamePlaces(Facts(w, base, id), Facts(w, later, id), after, cutoff);
  }

  /** What follows a page of n events, continued from the last one's sequence. */
  lemma RestOfRange(w: Wire, db: Db, id: string, after: nat, cutoff: nat, n: nat)
    requires Journaled(w, db) && after <= cutoff <= Version(db, id) && 0 < n <= |Range(w, db, id, after, cutoff)|
    requires NamesRow(Range(w, db, id, after, cutoff)[n - 1], id, Places(w, db, id, after, cutoff)[n - 1])
    ensures var sequence := Range(w, db, id, after, cutoff)[n - 1].seqNo;
            && after < sequence <= cutoff
            && Range(w, db, id, sequence, cutoff) == Range(w, db, id, after, cutoff)[n..]
            && Places(w, db, id, sequence, cutoff) == Places(w, db, id, after, cutoff)[n..]
  {
    EventsAfter(Facts(w, db, id), after, cutoff, n);
  }

  lemma NamedJoin(events: seq<Event>, places: seq<int>, id: string, n: nat)
    requires n <= |events| == |places| && AllNamed(events[n..], places[n..], id)
    requires forall i :: 0 <= i < n ==> NamesRow(events[i], id, places[i])
    ensures AllNamed(events, places, id)
  {
    hide NamesRow;
    forall i | n <= i < |events| ensures NamesRow(events[i], id, places[i]) {
      var k := i - n;
      assert NamesRow(events[n..][k], id, places[n..][k]);
    }
  }

  /** A finished walk, whatever its bounds and whatever steps run between its
      pages, returns every thread event of the range once and in order; and it has
      checked each of them against its row. */
  lemma {:induction false} HistoryWalkIsFilter(w: Wire, base: Db, id: string, after: nat, cutoff: nat, requests: seq<Request>)
    requires Lawful(w) && Journaled(w, base) && Evolves(w, base, requests) && after <= cutoff <= Version(base, id)
    requires FollowHistory(w, id, after, cutoff, requests).Some?
    ensures FollowHistory(w, id, after, cutoff, requests).value == EventsOf(Facts(w, base, id)[after..cutoff])
    ensures Identified(Facts(w, base, id), id, after, cutoff)
    decreases |requests|
  {
    hide ThreadHistory, Journaled, Reaches, Lawful, Places, Identified, NamesRow;
    var first := requests[0];
    LaterRange(w, base, first.db, id, after, cutoff);
    HistoryPageDelivers(w, first.db, id, after, cutoff, first.limit, first.maxBytes);
    var (events, places) := (Range(w, base, id, after, cutoff), Places(w, base, id, after, cutoff));
    var chunk := ThreadHistory(w, first.db, id, after, cutoff, first.limit, first.maxBytes, true).value;
    var n := |chunk.events|;
    IdentifiedIsNamed(w, base, id, after, cutoff);
    if chunk.more {
      RestOfRange(w, first.db, id, after, cutoff, n);
      var sequence := events[n - 1].seqNo;
      assert chunk.events[n - 1] == events[n - 1];
      HistoryWalkIsFilter(w, first.db, id, sequence, cutoff, requests[1..]);
      IdentifiedIsNamed(w, first.db, id, sequence, cutoff);
      NamedJoin(events, places, id, n);
    }
  }

  /** Bounds within the protocol, a readable format, and room for every event. */
  ghost predicate HistoryAdmits(w: Wire, events: seq<Event>, id: string, request: Request) {
    && 0 < request.limit <= 1000 && 0 < request.maxBytes <= USIZE_MAX
    && id in request.db.roots && Supported(request.db.roots[id].format)
    && forall i :: 0 <= i < |events| ==> w.eventSize(events[i]) <= request.maxBytes
  }

  lemma AdmittedHistoryPage(w: Wire, base: Db, request: Request, id: string, after: nat, cutoff: nat)
    requires Lawful(w) && Journaled(w, base) && Reaches(w, base, request.db) && after <= cutoff <= Version(base, id)
    requires Identified(Facts(w, base, id), id, after, cutoff) && Addressable(w, Range(w, base, id, after, cutoff))
    requires HistoryAdmits(w, Range(w, base, id, after, cutoff), id, request)
    ensures ThreadHistory(w, request.db, id, after, cutoff, request.limit, request.maxBytes, true).Ok?
  {
    hide ThreadHistory, Reaches, Journaled, Lawful, Range, Places, Identified;
    IdentifiedIsNamed(w, base, id, after, cutoff);
    LaterRange(w, base, request.db, id, after, cutoff);
    HistoryPageIsFilter(w, request.db, id, after, cutoff, request.limit, request.maxBytes);
  }

  /** With room and good bounds, a walk of one request per event finishes if and
      only if every event of the range bears its own row: one that does not can
      never be read past. */
  lemma HistoryWalkFinishesExactly(w: Wire, base: Db, id: string, after: nat, cutoff: nat, requests: seq<Request>)
    requires Lawful(w) && Journaled(w, base) && Evolves(w, base, requests) && after <= cutoff <= Version(base, id)
    requires Addressable(w, Range(w, base, id, after, cutoff))
    requires forall k :: 0 <= k < |requests| ==> HistoryAdmits(w, Range(w, base, id, after, cutoff), id, requests[k])
    requires requests != [] && |requests| >= |Range(w, base, id, after, cutoff)|
    ensures FollowHistory(w, id, after, cutoff, requests).Some? <==> Identified(Facts(w, base, id), id, after, cutoff)
  {
    hide FollowHistory, Range, Journaled, Identified, Addressable, HistoryAdmits;
    if FollowHistory(w, id, after, cutoff, requests).Some? {
      HistoryWalkIsFilter(w, base, id, after, cutoff, requests);
    }
    if Identified(Facts(w, base, id), id, after, cutoff) {
      HistoryWalkFinishes(w, base, id, after, cutoff, requests);
    }
  }

  lemma {:induction false} HistoryWalkFinishes(w: Wire, base: Db, id: string, after: nat, cutoff: nat, requests: seq<Request>)
    requires Lawful(w) && Journaled(w, base) && Evolves(w, base, requests) && after <= cutoff <= Version(base, id)
    requires Identified(Facts(w, base, id), id, after, cutoff) && Addressable(w, Range(w, base, id, after, cutoff))
    requires forall k :: 0 <= k < |requests| ==> HistoryAdmits(w, Range(w, base, id, after, cutoff), id, requests[k])
    requires requests != [] && |requests| >= |Range(w, base, id, after, cutoff)|
    ensures FollowHistory(w, id, after, cutoff, requests).Some?
    decreases |requests|
  {
    hide ThreadHistory, Range, Places, Journaled, Identified, Reaches, Lawful;
    var first := requests[0];
    var events := Range(w, base, id, after, cutoff);
    assert HistoryAdmits(w, events, id, first);
    AdmittedHistoryPage(w, base, first, id, after, cutoff);
    LaterRange(w, base, first.db, id, after, cutoff);
    HistoryPageDelivers(w, first.db, id, after, cutoff, first.limit, first.maxBytes);
    var chunk := ThreadHistory(w, first.db, id, after, cutoff, first.limit, first.maxBytes, true).value;
    if chunk.more {
      var n := |chunk.events|;
      RestOfRange(w, first.db, id, after, cutoff, n);
      var sequence := events[n - 1].seqNo;
      assert chunk.events[n - 1] == events[n - 1];
      IdentifiedRest(w, base, first.db, id, after, sequence, cutoff);
      forall k | 0 <= k < |requests[1..]| ensures HistoryAdmits(w, events[n..], id, requests[1..][k]) {
        var next := k + 1;
        assert HistoryAdmits(w, events, id, requests[next]);
      }
      HistoryWalkFinishes(w, first.db, id, sequence, cutoff, requests[1..]);
    }
  }

  lemma IdentifiedRest(w: Wire, base: Db, later: Db, id: string, after: nat, sequence: nat, cutoff: nat)
    requires Lawful(w) && Journaled(w, base) && Reaches(w, base, later) && after <= sequence <= cutoff <= Version(base, id)
    requires Identified(Facts(w, base, id), id, after, cutoff)
    ensures Journaled(w, later) && cutoff <= Version(later, id) && Identified(Facts(w, later, id), id, sequence, cutoff)
  {
    hide Journaled, Reaches, Lawful, NamesRow;
    SliceIsStable(w, base, later, id, 0, cutoff);
    var (facts, was) := (Facts(w, later, id), Facts(w, base, id));
    forall i | sequence <= i < cutoff ensures facts[i] == was[i] {
      assert facts[0..cutoff][i] == was[0..cutoff][i];
    }
  }
}
