/** The assumptions on the libraries below the store are consistent: one concrete
    set of functions has every property the proofs rely on. */
module Wires {
  import opened Basics
  import opened Codec

  const PADDING: string := "\"fields\":"

  /** A self-delimiting number. */
  function Unary(n: nat): string {
    if n == 0 then "." else "|" + Unary(n - 1)
  }

  function Text(s: string): string {
    Unary(|s|) + s
  }

  function TurnText(turn: Option<string>): string {
    if turn.None? then "n" else "s" + Text(turn.value)
  }

  function EntryText(a: AcceptedKey): string {
    Text(a.scope) + (Text(a.key) + (Text(a.fingerprint) + (Text(a.threadId) + TurnText(a.turnId))))
  }

  function Json(r: Record): string {
    match r
    case ThreadEvent(e) => EVENT_TAG + PADDING + Text(e.threadId) + Unary(e.seqNo) + Text(e.body)
    case Accepted(a) =>
      RECORD_TAG + "a" + EntryText(a)
    case Fact(tag, body) => RECORD_TAG + "f" + Text(tag) + Text(body)
  }

  lemma {:induction false} UnaryIsPrefixFree(m: nat, n: nat, x: string, y: string)
    requires Unary(m) + x == Unary(n) + y
    ensures m == n && x == y
  {
    assert (Unary(m) + x)[0] == (Unary(n) + y)[0];
    if m == 0 {
      assert x == (Unary(m) + x)[1..] && y == (Unary(n) + y)[1..];
    } else {
      assert (Unary(m) + x)[1..] == Unary(m - 1) + x && (Unary(n) + y)[1..] == Unary(n - 1) + y;
      UnaryIsPrefixFree(m - 1, n - 1, x, y);
    }
  }

  lemma TextIsPrefixFree(s: string, t: string, x: string, y: string)
    requires Text(s) + x == Text(t) + y
    ensures s == t && x == y
  {
    assert Text(s) + x == Unary(|s|) + (s + x) && Text(t) + y == Unary(|t|) + (t + y);
    UnaryIsPrefixFree(|s|, |t|, s + x, t + y);
    assert s == (s + x)[..|s|] && t == (t + y)[..|t|];
    assert x == (s + x)[|s|..] && y == (t + y)[|t|..];
  }

  lemma SamePrefix(prefix: string, x: string, y: string)
    requires prefix + x == prefix + y
    ensures x == y
  {
    assert x == (prefix + x)[|prefix|..] && y == (prefix + y)[|prefix|..];
  }

  lemma JsonStarts(r: Record)
    ensures StartsWith(Json(r), RECORD_TAG)
    ensures StartsWith(Json(r), EVENT_TAG) <==> r.ThreadEvent?
    ensures r.ThreadEvent? ==> |Json(r)| >= EVENT_OVERHEAD
  {
    var text := Json(r);
    match r
    case ThreadEvent(e) =>
      assert text[..|RECORD_TAG|] == EVENT_TAG[..|RECORD_TAG|] == RECORD_TAG;
    case Accepted(_) =>
      assert text[|RECORD_TAG|] == 'a' && EVENT_TAG[|RECORD_TAG|] == '"';
    case Fact(_, _) =>
      assert text[|RECORD_TAG|] == 'f' && EVENT_TAG[|RECORD_TAG|] == '"';
  }

  lemma JsonIsInjective(r: Record, s: Record)
    requires Json(r) == Json(s)
    ensures r == s
  {
    hide Text, Unary;
    JsonStarts(r);
    JsonStarts(s);
    if r.ThreadEvent? {
      EventIsInjective(r.event, s.event);
    } else {
      assert Json(r)[|RECORD_TAG|] == Json(s)[|RECORD_TAG|];
      if r.Accepted? {
        SamePrefix(RECORD_TAG + "a", EntryText(r.entry), EntryText(s.entry));
        EntryIsInjective(r.entry, s.entry);
      } else {
        FactIsInjective(r, s);
      }
    }
  }

  lemma EventIsInjective(e: Event, f: Event)
    requires Json(ThreadEvent(e)) == Json(ThreadEvent(f))
    ensures e == f
  {
    hide Text, Unary;
    var (restE, restF) := (Unary(e.seqNo) + Text(e.body), Unary(f.seqNo) + Text(f.body));
    assert Json(ThreadEvent(e)) == (EVENT_TAG + PADDING) + (Text(e.threadId) + restE);
    assert Json(ThreadEvent(f)) == (EVENT_TAG + PADDING) + (Text(f.threadId) + restF);
    SamePrefix(EVENT_TAG + PADDING, Text(e.threadId) + restE, Text(f.threadId) + restF);
    TextIsPrefixFree(e.threadId, f.threadId, restE, restF);
    UnaryIsPrefixFree(e.seqNo, f.seqNo, Text(e.body), Text(f.body));
    TextsEqual(e.body, f.body);
  }

  lemma FactIsInjective(r: Record, s: Record)
    requires r.Fact? && s.Fact? && Json(r) == Json(s)
    ensures r == s
  {
    hide Text;
    assert Json(r) == (RECORD_TAG + "f") + (Text(r.tag) + Text(r.body));
    assert Json(s) == (RECORD_TAG + "f") + (Text(s.tag) + Text(s.body));
    SamePrefix(RECORD_TAG + "f", Text(r.tag) + Text(r.body), Text(s.tag) + Text(s.body));
    TextIsPrefixFree(r.tag, s.tag, Text(r.body), Text(s.body));
    TextsEqual(r.body, s.body);
  }

  lemma TextsEqual(s: string, t: string)
    requires Text(s) == Text(t)
    ensures s == t
  {
    assert Text(s) + "" == Text(s) && Text(t) + "" == Text(t);
    TextIsPrefixFree(s, t, "", "");
  }

  lemma EntryIsInjective(a: AcceptedKey, b: AcceptedKey)
    requires EntryText(a) == EntryText(b)
    ensures a == b
  {
    var (a1, b1) := (Text(a.threadId) + TurnText(a.turnId), Text(b.threadId) + TurnText(b.turnId));
    var (a2, b2) := (Text(a.fingerprint) + a1, Text(b.fingerprint) + b1);
    var (a3, b3) := (Text(a.key) + a2, Text(b.key) + b2);
    TextIsPrefixFree(a.scope, b.scope, a3, b3);
    TextIsPrefixFree(a.key, b.key, a2, b2);
    TextIsPrefixFree(a.fingerprint, b.fingerprint, a1, b1);
    TextIsPrefixFree(a.threadId, b.threadId, TurnText(a.turnId), TurnText(b.turnId));
    assert TurnText(a.turnId)[0] == TurnText(b.turnId)[0];
    if a.turnId.Some? {
      SamePrefix("s", Text(a.turnId.value), Text(b.turnId.value));
      TextsEqual(a.turnId.value, b.turnId.value);
    }
  }

  ghost function Parse(text: string): Option<Record> {
    if exists r :: Json(r) == text then
      var r :| Json(r) == text;
      Some(r)
    else None
  }

  function PlainSize(event: Event): nat {
    if |Json(ThreadEvent(event))| >= EVENT_OVERHEAD then |Json(ThreadEvent(event))| - EVENT_OVERHEAD else 0
  }

  /** Plain text under this JSON, and an envelope that adds nothing. */
  ghost function PlainWire(): Wire {
    Wire(Json, Parse, text => text, (_, text) => Some(text), text => |text|, PlainSize, head => 0, id => 0)
  }

  lemma PlainWireIsLawful()
    ensures Lawful(PlainWire())
  {
    var w := PlainWire();
    forall r ensures w.parse(w.json(r)) == Some(r) {
      assert Json(r) == Json(r);
      JsonIsInjective(r, Parse(Json(r)).value);
    }
    forall r ensures StartsWith(w.json(r), RECORD_TAG) && (StartsWith(w.json(r), EVENT_TAG) <==> r.ThreadEvent?) {
      JsonStarts(r);
    }
    forall e ensures |w.json(ThreadEvent(e))| == w.eventSize(e) + EVENT_OVERHEAD {
      JsonStarts(ThreadEvent(e));
    }
  }

  lemma LawfulWireExists()
    ensures exists w :: Lawful(w)
  {
    PlainWireIsLawful();
  }

  lemma {:induction false} UnaryLength(n: nat)
    ensures |Unary(n)| == n + 1
  {
    if n > 0 { UnaryLength(n - 1); }
  }

  lemma PlainSizeOf(event: Event)
    ensures PlainSize(event) == 2 * |event.threadId| + event.seqNo + 2 * |event.body| + 3
  {
    UnaryLength(|event.threadId|);
    UnaryLength(event.seqNo);
    UnaryLength(|event.body|);
    assert |EVENT_TAG| == 25 && |PADDING| == 9;
  }
}
