/** Writing a harness's config: a skeleton, its substitutions, and the writes at
    JSON pointers (RFC 6901 section 4, without escapes or array indexes). Objects
    keep their keys in order. */
module ConfigSynthesis {
  import opened Basics

  datatype Json =
    | Null
    | Bool(flag: bool)
    | Number(number: int)
    | Text(text: string)
    | Array(items: seq<Json>)
    | Object(entries: seq<(string, Json)>)

  // ---- Ordered objects ---------------------------------------------------

  function Lookup(entries: seq<(string, Json)>, key: string): Option<Json> {
    if entries == [] then None
    else if entries[0].0 == key then Some(entries[0].1)
    else Lookup(entries[1..], key)
  }

  /** A known key keeps its place; a new one goes last. */
  function InsertEntry(entries: seq<(string, Json)>, key: string, value: Json): seq<(string, Json)> {
    if entries == [] then [(key, value)]
    else if entries[0].0 == key then [(key, value)] + entries[1..]
    else [entries[0]] + InsertEntry(entries[1..], key, value)
  }

  function KeysOf(entries: seq<(string, Json)>): (keys: seq<string>)
    ensures |keys| == |entries| && forall i :: 0 <= i < |keys| ==> keys[i] == entries[i].0
  {
    seq(|entries|, i requires 0 <= i < |entries| => entries[i].0)
  }

  ghost predicate Distinct(keys: seq<string>) {
    forall i, j :: 0 <= i < j < |keys| ==> keys[i] != keys[j]
  }

  lemma {:induction false} LookupFinds(entries: seq<(string, Json)>, key: string)
    ensures Lookup(entries, key).Some? <==> key in KeysOf(entries)
  {
    if entries != [] {
      LookupFinds(entries[1..], key);
      assert KeysOf(entries) == [entries[0].0] + KeysOf(entries[1..]);
    }
  }

  lemma {:induction false} InsertReads(entries: seq<(string, Json)>, key: string, value: Json, other: string)
    ensures Lookup(InsertEntry(entries, key, value), other) == if other == key then Some(value) else Lookup(entries, other)
  {
    if entries != [] && entries[0].0 != key {
      InsertReads(entries[1..], key, value, other);
    }
  }

  lemma {:induction false} InsertKeepsOrder(entries: seq<(string, Json)>, key: string, value: Json)
    ensures KeysOf(InsertEntry(entries, key, value)) == KeysOf(entries) + (if key in KeysOf(entries) then [] else [key])
  {
    if entries != [] {
      var (head, tail) := (entries[0], entries[1..]);
      assert entries == [head] + tail;
      KeysOfCons(head, tail);
      if head.0 != key {
        InsertKeepsOrder(tail, key, value);
        KeysOfCons(head, InsertEntry(tail, key, value));
      } else {
        KeysOfCons((key, value), tail);
      }
    }
  }

  lemma KeysOfCons(head: (string, Json), tail: seq<(string, Json)>)
    ensures KeysOf([head] + tail) == [head.0] + KeysOf(tail)
  {
  }

  lemma {:induction false} InsertSame(entries: seq<(string, Json)>, key: string)
    requires Lookup(entries, key).Some?
    ensures InsertEntry(entries, key, Lookup(entries, key).value) == entries
  {
    if entries[0].0 != key {
      InsertSame(entries[1..], key);
    } else {
      assert entries[0] == (key, entries[0].1);
    }
    assert entries == [entries[0]] + entries[1..];
  }

  // ---- Paths -------------------------------------------------------------

  function Get(doc: Json, path: seq<string>): Option<Json>
    decreases |path|
  {
    if path == [] then Some(doc)
    else if !doc.Object? then None
    else match Lookup(doc.entries, path[0])
      case None => None
      case Some(child) => Get(child, path[1..])
  }

  const EMPTY_OBJECT: Json := Object([])

  function Child(entries: seq<(string, Json)>, key: string): Json {
    match Lookup(entries, key) case None => EMPTY_OBJECT case Some(child) => child
  }

  /** The document with a value at a path, or None when the path runs through
      something that is not an object. */
  function Put(doc: Json, path: seq<string>, value: Json): Option<Json>
    requires path != []
    decreases |path|
  {
    if !doc.Object? then None
    else if |path| == 1 then Some(Object(InsertEntry(doc.entries, path[0], value)))
    else match Put(Child(doc.entries, path[0]), path[1..], value)
      case None => None
      case Some(child) => Some(Object(InsertEntry(doc.entries, path[0], child)))
  }

  predicate Independent(p: seq<string>, q: seq<string>) {
    !(p <= q) && !(q <= p)
  }

  /** A written path reads back its value, and what is below the path is the
      value's own content. */
  lemma {:induction false} PutReadsBack(doc: Json, path: seq<string>, value: Json, below: seq<string>)
    requires path != [] && Put(doc, path, value).Some?
    ensures Get(Put(doc, path, value).value, path + below) == Get(value, below)
    decreases |path|
  {
    assert (path + below)[1..] == path[1..] + below;
    if |path| == 1 {
      InsertReads(doc.entries, path[0], value, path[0]);
      assert path[1..] + below == below;
    } else {
      var child := Put(Child(doc.entries, path[0]), path[1..], value).value;
      InsertReads(doc.entries, path[0], child, path[0]);
      PutReadsBack(Child(doc.entries, path[0]), path[1..], value, below);
    }
  }

  /** Nothing changes at a path that is neither above nor below the written one. */
  lemma {:induction false} PutKeepsOthers(doc: Json, path: seq<string>, value: Json, other: seq<string>)
    requires path != [] && Put(doc, path, value).Some? && Independent(path, other)
    ensures Get(Put(doc, path, value).value, other) == Get(doc, other)
    decreases |path|
  {
    assert other != [];
    var written := if |path| == 1 then value else Put(Child(doc.entries, path[0]), path[1..], value).value;
    InsertReads(doc.entries, path[0], written, other[0]);
    if other[0] == path[0] {
      assert path == [path[0]] + path[1..] && other == [path[0]] + other[1..];
      assert |path| > 1;
      PutKeepsOthers(Child(doc.entries, path[0]), path[1..], value, other[1..]);
      EmptyHasNothing(other[1..]);
    }
  }

  lemma EmptyHasNothing(path: seq<string>)
    requires path != []
    ensures Get(EMPTY_OBJECT, path) == None
  {
  }

  /** Above the written path every object keeps its keys in order; the next
      segment is added last where it was missing. */
  lemma {:induction false} PutKeepsOrder(doc: Json, path: seq<string>, value: Json, n: nat)
    requires n < |path| && Put(doc, path, value).Some?
    ensures Get(Put(doc, path, value).value, path[..n]).Some? && Get(Put(doc, path, value).value, path[..n]).value.Object?
    ensures var before := Get(doc, path[..n]);
            var keys := if before.Some? && before.value.Object? then KeysOf(before.value.entries) else [];
            && (before.Some? ==> before.value.Object?)
            && KeysOf(Get(Put(doc, path, value).value, path[..n]).value.entries) == keys + (if path[n] in keys then [] else [path[n]])
    decreases |path|
  {
    var written := if |path| == 1 then value else Put(Child(doc.entries, path[0]), path[1..], value).value;
    if n == 0 {
      InsertKeepsOrder(doc.entries, path[0], written);
    } else {
      InsertReads(doc.entries, path[0], written, path[0]);
      assert path[..n][1..] == path[1..][..n - 1];
      PutKeepsOrder(Child(doc.entries, path[0]), path[1..], value, n - 1);
      if Lookup(doc.entries, path[0]).None? && n > 1 { EmptyHasNothing(path[1..][..n - 1]); }
    }
  }

  /** A write fails exactly when some prefix of the path holds a non-object. */
  lemma {:induction false} PutSucceedsExactly(doc: Json, path: seq<string>, value: Json)
    requires path != []
    ensures Put(doc, path, value).Some? <==>
            forall n :: 0 <= n < |path| && Get(doc, path[..n]).Some? ==> Get(doc, path[..n]).value.Object?
    decreases |path|
  {
    assert path[..0] == [] && Get(doc, []) == Some(doc);
    if doc.Object? && |path| > 1 {
      var child := Child(doc.entries, path[0]);
      PutSucceedsExactly(child, path[1..], value);
      forall n | 1 <= n < |path| ensures Prefixed(doc, path, n, child) {
        assert path[..n][1..] == path[1..][..n - 1];
        if n > 1 { EmptyHasNothing(path[1..][..n - 1]); }
      }
      forall m | 0 <= m < |path[1..]| && Get(child, path[1..][..m]).Some? && Put(doc, path, value).None? && !Get(child, path[1..][..m]).value.Object?
        ensures exists n :: 0 <= n < |path| && Get(doc, path[..n]).Some? && !Get(doc, path[..n]).value.Object?
      {
        var n := m + 1;
        assert Prefixed(doc, path, n, child);
      }
      forall n | 0 <= n < |path| && Get(doc, path[..n]).Some? && Put(doc, path, value).Some?
        ensures Get(doc, path[..n]).value.Object?
      {
        if n > 0 {
          assert Prefixed(doc, path, n, child);
          var m := n - 1;
          assert Get(child, path[1..][..m]).Some?;
        }
      }
    }
  }

  /** Reading a nonempty prefix goes through the first segment's child. */
  ghost predicate Prefixed(doc: Json, path: seq<string>, n: nat, child: Json)
    requires 0 < n < |path| && doc.Object?
  {
    && (Get(doc, path[..n]).Some? ==> Get(doc, path[..n]) == Get(child, path[1..][..n - 1]))
    && (Get(doc, path[..n]).None? ==> Get(child, path[1..][..n - 1]).None? || Get(child, path[1..][..n - 1]) == Some(EMPTY_OBJECT))
  }

  // ---- Pointers ----------------------------------------------------------

  function Split(text: string): (segments: seq<string>)
    ensures segments != []
  {
    if text == [] then [""]
    else
      var rest := Split(text[1..]);
      if text[0] == '/' then [""] + rest else [[text[0]] + rest[0]] + rest[1..]
  }

  function Join(segments: seq<string>): string
    requires segments != []
  {
    if |segments| == 1 then segments[0] else segments[0] + "/" + Join(segments[1..])
  }

  /** Different pointers name different paths. */
  lemma {:induction false} SplitJoins(text: string)
    ensures Join(Split(text)) == text
    ensures forall i :: 0 <= i < |Split(text)| ==> '/' !in Split(text)[i]
  {
    if text != [] {
      SplitJoins(text[1..]);
      var rest := Split(text[1..]);
      assert text == [text[0]] + text[1..];
      if text[0] == '/' {
        assert ([""] + rest)[1..] == rest;
        assert "" + "/" + Join(rest) == "/" + Join(rest);
      } else {
        var segments := [[text[0]] + rest[0]] + rest[1..];
        assert segments[1..] == rest[1..];
        assert Join(segments) == [text[0]] + Join(rest);
      }
    }
  }

  predicate ValidPointer(pointer: string) {
    StartsWith(pointer, "/")
  }

  function PathOf(pointer: string): (path: seq<string>)
    requires ValidPointer(pointer)
    ensures path != []
  {
    Split(pointer[1..])
  }

  // ---- The in-place writer -----------------------------------------------

  /** The path from the root to a borrowed place: the objects above it, each with
      the key that leads on. */
  datatype Frame = Frame(entries: seq<(string, Json)>, key: string)

  function Plug(frames: seq<Frame>, cursor: Json): Json {
    if frames == [] then cursor
    else
      var last := frames[|frames| - 1];
      Plug(frames[..|frames| - 1], Object(InsertEntry(last.entries, last.key, cursor)))
  }

  lemma PlugNext(frames: seq<Frame>, frame: Frame, cursor: Json)
    ensures Plug(frames + [frame], cursor) == Plug(frames, Object(InsertEntry(frame.entries, frame.key, cursor)))
  {
    assert (frames + [frame])[..|frames|] == frames;
  }

  ghost function PutBelow(frames: seq<Frame>, cursor: Json, path: seq<string>, value: Json): Option<Json>
    requires path != []
  {
    match Put(cursor, path, value) case None => None case Some(doc) => Some(Plug(frames, doc))
  }

  lemma PutDescends(frames: seq<Frame>, cursor: Json, path: seq<string>, value: Json)
    requires |path| > 1 && cursor.Object?
    ensures PutBelow(frames, cursor, path, value) ==
            PutBelow(frames + [Frame(cursor.entries, path[0])], Child(cursor.entries, path[0]), path[1..], value)
  {
    var below := Put(Child(cursor.entries, path[0]), path[1..], value);
    if below.Some? { PlugNext(frames, Frame(cursor.entries, path[0]), below.value); }
  }

  class Config {
    var root: Json

    constructor (root: Json)
      ensures this.root == root
    {
      this.root := root;
    }

    /** Missing parents are created on the way down, in place; still a failed
        write leaves the document as it was. */
    method SetPointer(pointer: string, value: Json) returns (ok: bool)
      modifies this
      ensures ok <==> ValidPointer(pointer) && Put(old(root), PathOf(pointer), value).Some?
      ensures root == if ok then Put(old(root), PathOf(pointer), value).value else old(root)
    {
      if !StartsWith(pointer, "/") { return false; }
      var segments := Split(pointer[1..]);
      var last := |segments| - 1;
      var frames, cursor := [], root;
      ghost var created := false;
      assert segments[0..] == segments;
      for i := 0 to last
        invariant root == Plug(frames, cursor)
        invariant PutBelow(frames, cursor, segments[i..], value) == Put(old(root), segments, value)
        invariant if created then cursor == EMPTY_OBJECT else root == old(root)
      {
        if !cursor.Object? { return false; }
        var (entries, segment) := (cursor.entries, segments[i]);
        assert segments[i..][0] == segment && segments[i..][1..] == segments[i + 1..];
        PutDescends(frames, cursor, segments[i..], value);
        var found := Lookup(entries, segment);
        cursor := if found.Some? then found.value else Object([]);
        PlugNext(frames, Frame(entries, segment), cursor);
        if found.None? { created := true; } else { InsertSame(entries, segment); }
        frames := frames + [Frame(entries, segment)];
        root := Plug(frames, cursor);
      }
      assert segments[last..] == [segments[last]];
      if !cursor.Object? { return false; }
      root := Plug(frames, Object(InsertEntry(cursor.entries, segments[last], value)));
      return true;
    }
  }

  // ---- Object keys stay distinct -----------------------------------------

  ghost predicate WellKeyed(doc: Json) {
    match doc
    case Array(items) => forall i :: 0 <= i < |items| ==> WellKeyed(items[i])
    case Object(entries) => Distinct(KeysOf(entries)) && forall i :: 0 <= i < |entries| ==> WellKeyed(entries[i].1)
    case _ => true
  }

  lemma {:induction false} InsertKeepsValues(entries: seq<(string, Json)>, key: string, value: Json, i: nat)
    requires i < |InsertEntry(entries, key, value)|
    ensures InsertEntry(entries, key, value)[i].1 == value || exists k :: 0 <= k < |entries| && entries[k].1 == InsertEntry(entries, key, value)[i].1
  {
    if entries != [] {
      if entries[0].0 != key && i > 0 {
        InsertKeepsValues(entries[1..], key, value, i - 1);
        var kept := InsertEntry(entries[1..], key, value)[i - 1].1;
        if kept != value {
          var k :| 0 <= k < |entries[1..]| && entries[1..][k].1 == kept;
          var next := k + 1;
          assert entries[next].1 == kept;
        }
      } else if i < |entries| {
        assert i > 0 ==> entries[i] == entries[1..][i - 1];
      }
    }
  }

  lemma {:induction false} LookupIsEntry(entries: seq<(string, Json)>, key: string)
    requires Lookup(entries, key).Some?
    ensures exists k :: 0 <= k < |entries| && entries[k] == (key, Lookup(entries, key).value)
  {
    if entries[0].0 == key {
      assert entries[0] == (key, Lookup(entries, key).value);
    } else {
      LookupIsEntry(entries[1..], key);
      var k :| 0 <= k < |entries[1..]| && entries[1..][k] == (key, Lookup(entries, key).value);
      var next := k + 1;
      assert entries[next] == (key, Lookup(entries, key).value);
    }
  }

  lemma {:induction false} PutKeepsWellKeyed(doc: Json, path: seq<string>, value: Json)
    requires path != [] && Put(doc, path, value).Some? && WellKeyed(doc) && WellKeyed(value)
    ensures WellKeyed(Put(doc, path, value).value)
    decreases |path|
  {
    var written := value;
    if |path| > 1 {
      if Lookup(doc.entries, path[0]).Some? { LookupIsEntry(doc.entries, path[0]); }
      PutKeepsWellKeyed(Child(doc.entries, path[0]), path[1..], value);
      written := Put(Child(doc.entries, path[0]), path[1..], value).value;
    }
    var after := InsertEntry(doc.entries, path[0], written);
    InsertKeepsOrder(doc.entries, path[0], written);
    forall i | 0 <= i < |after| ensures WellKeyed(after[i].1) {
      InsertKeepsValues(doc.entries, path[0], written, i);
    }
  }

  // ---- Substitution ------------------------------------------------------

  function Replace(text: string, pattern: string, with: string): string
    requires pattern != ""
  {
    if text == [] then []
    else if StartsWith(text, pattern) then with + Replace(text[|pattern|..], pattern, with)
    else [text[0]] + Replace(text[1..], pattern, with)
  }

  /** The text between the matches, left to right. */
  function Pieces(text: string, pattern: string): (pieces: seq<string>)
    requires pattern != ""
    ensures pieces != []
  {
    if text == [] then [""]
    else if StartsWith(text, pattern) then [""] + Pieces(text[|pattern|..], pattern)
    else
      var rest := Pieces(text[1..], pattern);
      [[text[0]] + rest[0]] + rest[1..]
  }

  function JoinWith(pieces: seq<string>, separator: string): string
    requires pieces != []
  {
    if |pieces| == 1 then pieces[0] else pieces[0] + separator + JoinWith(pieces[1..], separator)
  }

  lemma JoinWithPrefix(c: char, pieces: seq<string>, separator: string)
    requires pieces != []
    ensures JoinWith([[c] + pieces[0]] + pieces[1..], separator) == [c] + JoinWith(pieces, separator)
  {
    var longer := [[c] + pieces[0]] + pieces[1..];
    assert longer[1..] == pieces[1..];
  }

  lemma JoinWithEmpty(pieces: seq<string>, separator: string)
    requires pieces != []
    ensures JoinWith([""] + pieces, separator) == separator + JoinWith(pieces, separator)
  {
    assert ([""] + pieces)[1..] == pieces;
  }

  /** The pieces joined by the pattern are the text; joined by the replacement
      they are the result. */
  lemma {:induction false} ReplaceJoinsPieces(text: string, pattern: string, with: string)
    requires pattern != ""
    ensures JoinWith(Pieces(text, pattern), pattern) == text
    ensures JoinWith(Pieces(text, pattern), with) == Replace(text, pattern, with)
  {
    if text == [] {
      assert JoinWith([""], pattern) == JoinWith([""], with) == "";
    } else {
      hide JoinWith;
      if StartsWith(text, pattern) {
        var rest := Pieces(text[|pattern|..], pattern);
        ReplaceJoinsPieces(text[|pattern|..], pattern, with);
        JoinWithEmpty(rest, pattern);
        JoinWithEmpty(rest, with);
        assert text == pattern + text[|pattern|..];
      } else {
        ReplaceJoinsPieces(text[1..], pattern, with);
        var rest := Pieces(text[1..], pattern);
        JoinWithPrefix(text[0], rest, pattern);
        JoinWithPrefix(text[0], rest, with);
        assert text == [text[0]] + text[1..];
      }
    }
  }

  /** No match is left between matches. */
  lemma {:induction false} PiecesHoldNoMatch(text: string, pattern: string, k: nat)
    requires pattern != "" && k < |Pieces(text, pattern)|
    ensures !Contains(Pieces(text, pattern)[k], pattern)
    ensures k == 0 ==> StartsWith(text, Pieces(text, pattern)[0])
    decreases |text|
  {
    if text != [] {
      if StartsWith(text, pattern) {
        if k > 0 { PiecesHoldNoMatch(text[|pattern|..], pattern, k - 1); }
      } else {
        PiecesHoldNoMatch(text[1..], pattern, k);
        var (piece, rest) := (Pieces(text, pattern)[k], Pieces(text[1..], pattern)[k]);
        if k == 0 {
          assert piece == [text[0]] + rest && piece[1..] == rest && text == [text[0]] + text[1..];
        }
      }
    }
  }

  const BASE_URL_V1: string := "{base_url_v1}"
  const AUTH: string := "{auth}"

  function SubstitutedText(text: string, baseUrl: string, auth: string): string {
    Replace(Replace(text, BASE_URL_V1, baseUrl), AUTH, auth)
  }

  function Substituted(doc: Json, baseUrl: string, auth: string): Json {
    match doc
    case Text(text) => Text(SubstitutedText(text, baseUrl, auth))
    case Array(items) => Array(seq(|items|, i requires 0 <= i < |items| => Substituted(items[i], baseUrl, auth)))
    case Object(entries) => Object(seq(|entries|, i requires 0 <= i < |entries| => (entries[i].0, Substituted(entries[i].1, baseUrl, auth))))
    case _ => doc
  }

  function SubstitutedEntries(entries: seq<(string, Json)>, baseUrl: string, auth: string): (after: seq<(string, Json)>)
    ensures |after| == |entries|
    ensures forall i :: 0 <= i < |entries| ==> after[i] == (entries[i].0, Substituted(entries[i].1, baseUrl, auth))
  {
    seq(|entries|, i requires 0 <= i < |entries| => (entries[i].0, Substituted(entries[i].1, baseUrl, auth)))
  }

  /** A string leaf: first every "{base_url_v1}" gives way to the base url, then every
      "{auth}" of the result to the credential. */
  lemma LeafIsSubstituted(text: string, baseUrl: string, auth: string)
    ensures var middle := JoinWith(Pieces(text, "{base_url_v1}"), baseUrl);
            Substituted(Text(text), baseUrl, auth) == Text(JoinWith(Pieces(middle, "{auth}"), auth))
  {
    ReplaceJoinsPieces(text, BASE_URL_V1, baseUrl);
    ReplaceJoinsPieces(Replace(text, BASE_URL_V1, baseUrl), AUTH, auth);
  }

  method SubstituteScalars(value: Json, baseUrl: string, auth: string) returns (r: Json)
    ensures r == Substituted(value, baseUrl, auth)
    decreases value
  {
    match value
    case Text(text) =>
      var once := Replace(text, BASE_URL_V1, baseUrl);
      r := Text(Replace(once, AUTH, auth));
    case Array(items) =>
      var now := items;
      for i := 0 to |items|
        invariant |now| == |items| && now[i..] == items[i..]
        invariant forall k :: 0 <= k < i ==> now[k] == Substituted(items[k], baseUrl, auth)
      {
        var item := SubstituteScalars(items[i], baseUrl, auth);
        now := now[i := item];
      }
      r := Array(now);
    case Object(entries) =>
      var now := entries;
      for i := 0 to |entries|
        invariant |now| == |entries| && now[i..] == entries[i..]
        invariant forall k :: 0 <= k < i ==> now[k] == (entries[k].0, Substituted(entries[k].1, baseUrl, auth))
      {
        var item := SubstituteScalars(entries[i].1, baseUrl, auth);
        now := now[i := (entries[i].0, item)];
      }
      r := Object(now);
    case _ => r := value;
  }

  lemma {:induction false} LookupSubstituted(entries: seq<(string, Json)>, key: string, baseUrl: string, auth: string)
    ensures Lookup(SubstitutedEntries(entries, baseUrl, auth), key) ==
            match Lookup(entries, key) case None => None case Some(child) => Some(Substituted(child, baseUrl, auth))
  {
    hide Substituted;
    if entries != [] {
      LookupSubstituted(entries[1..], key, baseUrl, auth);
      assert SubstitutedEntries(entries, baseUrl, auth)[1..] == SubstitutedEntries(entries[1..], baseUrl, auth);
    }
  }

  /** Substitution touches string leaves only: every path reads the substituted
      form of what it read, and no key moves. */
  lemma {:induction false} SubstitutionKeepsPaths(doc: Json, path: seq<string>, baseUrl: string, auth: string)
    ensures Get(Substituted(doc, baseUrl, auth), path) ==
            match Get(doc, path) case None => None case Some(part) => Some(Substituted(part, baseUrl, auth))
    ensures doc.Object? ==> KeysOf(Substituted(doc, baseUrl, auth).entries) == KeysOf(doc.entries)
    decreases |path|
  {
    if path != [] && doc.Object? {
      LookupSubstituted(doc.entries, path[0], baseUrl, auth);
      if Lookup(doc.entries, path[0]).Some? {
        SubstitutionKeepsPaths(Lookup(doc.entries, path[0]).value, path[1..], baseUrl, auth);
      }
    }
  }

  // ---- Models ------------------------------------------------------------

  datatype ModelShape = MapOfEmpty | ArrayOfId | ArrayOfProfile
  datatype ModelOrder = CatalogThenModel | ModelThenCatalog
  datatype DefaultFormat = Bare | ProviderPrefixed

  datatype ModelList = ModelList(at: string, shape: ModelShape, order: ModelOrder)
  datatype DefaultModel = DefaultModel(at: string, format: DefaultFormat)

  /** One harness's routing: where the models, the default and the MCP servers go. */
  datatype Synthesis = Synthesis(models: Option<ModelList>, defaultModel: Option<DefaultModel>, mcpAt: Option<string>)

  function ModelIds(models: Option<ModelList>, model: Option<string>, catalog: seq<string>): seq<string> {
    match models
    case None => []
    case Some(list) =>
      match list.order
      case CatalogThenModel => if model.Some? && model.value !in catalog then catalog + [model.value] else catalog
      case ModelThenCatalog => (if model.Some? then [model.value] else []) + catalog
  }

  function DefaultId(model: Option<string>, catalog: seq<string>): Option<string> {
    if model.Some? then model else if catalog != [] then Some(catalog[0]) else None
  }

  function RenderId(format: DefaultFormat, id: string): string {
    match format case Bare => id case ProviderPrefixed => "bitrouter/" + id
  }

  /** A list holds the catalog and the pinned model and nothing else, and is empty
      only without a default. The default model is among the ids if and only if
      the harness has a model list at all. */
  lemma IdsAreExact(models: Option<ModelList>, model: Option<string>, catalog: seq<string>)
    ensures models.Some? ==>
              && (forall id :: id in ModelIds(models, model, catalog) <==> id in catalog || model == Some(id))
              && (DefaultId(model, catalog).None? <==> ModelIds(models, model, catalog) == [])
    ensures DefaultId(model, catalog).Some? ==> (DefaultId(model, catalog).value in ModelIds(models, model, catalog) <==> models.Some?)
  {
    assert catalog != [] ==> catalog[0] in catalog;
  }

  /** The order of the ids: the catalog and then the pinned model if it is new, or
      the pinned model and then the whole catalog. */
  lemma IdsAreOrdered(list: ModelList, model: Option<string>, catalog: seq<string>)
    ensures var ids := ModelIds(Some(list), model, catalog);
            && (list.order.CatalogThenModel? ==>
                  catalog <= ids && |ids| <= |catalog| + 1 && (Distinct(catalog) ==> Distinct(ids)))
            && (list.order.ModelThenCatalog? && model.None? ==> ids == catalog)
            && (list.order.ModelThenCatalog? && model.Some? ==>
                  |ids| == |catalog| + 1 && ids[0] == model.value && ids[1..] == catalog)
  {
  }

  /** First occurrences, in order. */
  function Firsts(ids: seq<string>): (firsts: seq<string>)
    ensures Distinct(firsts) && forall id :: id in firsts <==> id in ids
  {
    if ids == [] then []
    else
      var (earlier, last) := (Firsts(ids[..|ids| - 1]), ids[|ids| - 1]);
      assert ids == ids[..|ids| - 1] + [last];
      if last in earlier then earlier else earlier + [last]
  }

  function IdRecord(id: string): Json {
    Object([("id", Text(id))])
  }

  function ProfileRecord(id: string): Json {
    Object([
      ("id", Text(id)), ("name", Text(id)), ("reasoning", Bool(false)), ("input", Array([Text("text")])),
      ("cost", Object([("input", Number(0)), ("output", Number(0)), ("cacheRead", Number(0)), ("cacheWrite", Number(0))])),
      ("contextWindow", Number(200000)), ("maxTokens", Number(8192))])
  }

  function EmptyEntries(keys: seq<string>): (entries: seq<(string, Json)>)
    ensures KeysOf(entries) == keys
  {
    seq(|keys|, i requires 0 <= i < |keys| => (keys[i], EMPTY_OBJECT))
  }

  function RenderedModels(shape: ModelShape, ids: seq<string>): Json {
    match shape
    case MapOfEmpty => Object(EmptyEntries(Firsts(ids)))
    case ArrayOfId => Array(seq(|ids|, i requires 0 <= i < |ids| => IdRecord(ids[i])))
    case ArrayOfProfile => Array(seq(|ids|, i requires 0 <= i < |ids| => ProfileRecord(ids[i])))
  }

  /** The ids a harness reads back from a model collection of a shape. */
  function IdOf(item: Json): Option<string> {
    if !item.Object? then None
    else match Lookup(item.entries, "id") case Some(Text(id)) => Some(id) case _ => None
  }

  function ListedIn(shape: ModelShape, value: Json): Option<seq<string>> {
    if shape.MapOfEmpty? then (if value.Object? then Some(KeysOf(value.entries)) else None)
    else if value.Array? && forall i :: 0 <= i < |value.items| ==> IdOf(value.items[i]).Some?
    then Some(seq(|value.items|, i requires 0 <= i < |value.items| => IdOf(value.items[i]).value))
    else None
  }

  /** Every shape lists the ids in order; the map keeps first occurrences only. */
  lemma RenderedModelsReadBack(shape: ModelShape, ids: seq<string>)
    ensures ListedIn(shape, RenderedModels(shape, ids)) == Some(if shape.MapOfEmpty? then Firsts(ids) else ids)
    ensures WellKeyed(RenderedModels(shape, ids))
    ensures shape.MapOfEmpty? ==> forall i :: 0 <= i < |Firsts(ids)| ==> RenderedModels(shape, ids).entries[i] == (Firsts(ids)[i], Object([]))
    ensures shape.ArrayOfId? ==> forall i :: 0 <= i < |ids| ==> RenderedModels(shape, ids).items[i] == Object([("id", Text(ids[i]))])
    ensures shape.ArrayOfProfile? ==> forall i :: 0 <= i < |ids| ==> RenderedModels(shape, ids).items[i] == ProfileRecord(ids[i])
  {
    if !shape.MapOfEmpty? {
      var items := RenderedModels(shape, ids).items;
      forall i | 0 <= i < |items| ensures IdOf(items[i]) == Some(ids[i]) && WellKeyed(items[i]) {
        ProfileIsWellKeyed(ids[i]);
      }
      assert ListedIn(shape, RenderedModels(shape, ids)).value == ids;
    }
  }

  /** The record one harness insists on: the id twice, and neutral values. */
  lemma ProfileIsWellKeyed(id: string)
    ensures WellKeyed(ProfileRecord(id))
    ensures var profile := ProfileRecord(id);
            && KeysOf(profile.entries) == ["id", "name", "reasoning", "input", "cost", "contextWindow", "maxTokens"]
            && profile.entries[0].1 == profile.entries[1].1 == Text(id)
            && profile.entries[2].1 == Bool(false) && profile.entries[3].1 == Array([Text("text")])
            && profile.entries[5].1 == Number(200000) && profile.entries[6].1 == Number(8192)
            && profile.entries[4].1.Object? && forall i :: 0 <= i < |profile.entries[4].1.entries| ==> profile.entries[4].1.entries[i].1 == Number(0)
  {
    var entries := ProfileRecord(id).entries;
    assert KeysOf(entries) == ["id", "name", "reasoning", "input", "cost", "contextWindow", "maxTokens"];
    assert KeysOf(entries[4].1.entries) == ["input", "output", "cacheRead", "cacheWrite"];
  }

  method RenderModels(shape: ModelShape, ids: seq<string>) returns (value: Json)
    ensures value == RenderedModels(shape, ids)
  {
    match shape
    case MapOfEmpty =>
      var entries: seq<(string, Json)> := [];
      for i := 0 to |ids|
        invariant entries == EmptyEntries(Firsts(ids[..i]))
      {
        assert ids[..i + 1][..i] == ids[..i];
        LookupFinds(entries, ids[i]);
        if Lookup(entries, ids[i]).None? {
          entries := entries + [(ids[i], Object([]))];
        }
      }
      assert ids[..|ids|] == ids;
      value := Object(entries);
    case ArrayOfId =>
      value := Array(seq(|ids|, i requires 0 <= i < |ids| => IdRecord(ids[i])));
    case ArrayOfProfile =>
      value := Array(seq(|ids|, i requires 0 <= i < |ids| => ProfileRecord(ids[i])));
  }

  // ---- Rendering ---------------------------------------------------------

  datatype Write = Write(pointer: string, value: Json)

  ghost function WriteAll(doc: Json, writes: seq<Write>): Option<Json> {
    if writes == [] then Some(doc)
    else
      var last := |writes| - 1;
      match WriteAll(doc, writes[..last])
      case None => None
      case Some(before) =>
        if ValidPointer(writes[last].pointer) then Put(before, PathOf(writes[last].pointer), writes[last].value) else None
  }

  ghost predicate Apart(a: Write, b: Write) {
    ValidPointer(a.pointer) && ValidPointer(b.pointer) && Independent(PathOf(a.pointer), PathOf(b.pointer))
  }

  /** Writes at independent paths all survive, in any number. */
  lemma {:induction false} WritesSurvive(doc: Json, writes: seq<Write>, k: nat)
    requires WriteAll(doc, writes).Some? && k < |writes|
    requires forall i :: 0 <= i < |writes| && i != k ==> Apart(writes[i], writes[k])
    ensures ValidPointer(writes[k].pointer)
    ensures Get(WriteAll(doc, writes).value, PathOf(writes[k].pointer)) == Some(writes[k].value)
    decreases |writes|
  {
    var last := |writes| - 1;
    var before := WriteAll(doc, writes[..last]).value;
    if k == last {
      PutReadsBack(before, PathOf(writes[k].pointer), writes[k].value, []);
      assert PathOf(writes[k].pointer) + [] == PathOf(writes[k].pointer);
    } else {
      forall i | 0 <= i < last && i != k ensures Apart(writes[..last][i], writes[..last][k]) {
        assert Apart(writes[i], writes[k]);
      }
      WritesSurvive(doc, writes[..last], k);
      assert Apart(writes[last], writes[k]);
      PutKeepsOthers(before, PathOf(writes[last].pointer), writes[last].value, PathOf(writes[k].pointer));
    }
  }

  /** Nothing else changes. */
  lemma {:induction false} WritesKeepOthers(doc: Json, writes: seq<Write>, other: seq<string>)
    requires WriteAll(doc, writes).Some?
    requires forall i :: 0 <= i < |writes| && ValidPointer(writes[i].pointer) ==> Independent(PathOf(writes[i].pointer), other)
    ensures Get(WriteAll(doc, writes).value, other) == Get(doc, other)
    decreases |writes|
  {
    if writes != [] {
      var last := |writes| - 1;
      WritesKeepOthers(doc, writes[..last], other);
      PutKeepsOthers(WriteAll(doc, writes[..last]).value, PathOf(writes[last].pointer), writes[last].value, other);
    }
  }

  /** What rendering writes, in order: the models, the default, the MCP servers. */
  function ModelsWrite(synthesis: Synthesis, model: Option<string>, catalog: seq<string>): seq<Write> {
    match synthesis.models
    case None => []
    case Some(list) => [Write(list.at, RenderedModels(list.shape, ModelIds(synthesis.models, model, catalog)))]
  }

  function DefaultWrite(synthesis: Synthesis, model: Option<string>, catalog: seq<string>): seq<Write> {
    match (synthesis.defaultModel, DefaultId(model, catalog))
    case (Some(spec), Some(id)) => [Write(spec.at, Text(RenderId(spec.format, id)))]
    case _ => []
  }

  function McpWrite(synthesis: Synthesis, servers: Option<Json>): seq<Write> {
    match (synthesis.mcpAt, servers)
    case (Some(at), Some(value)) => [Write(at, value)]
    case _ => []
  }

  function Writes(synthesis: Synthesis, model: Option<string>, catalog: seq<string>, servers: Option<Json>): seq<Write> {
    ModelsWrite(synthesis, model, catalog) + DefaultWrite(synthesis, model, catalog) + McpWrite(synthesis, servers)
  }

  lemma {:induction false} WriteAllConcat(doc: Json, first: seq<Write>, second: seq<Write>)
    ensures WriteAll(doc, first + second) == match WriteAll(doc, first) case None => None case Some(middle) => WriteAll(middle, second)
    decreases |second|
  {
    if second == [] {
      assert first + second == first;
    } else {
      WriteAllConcat(doc, first, second[..|second| - 1]);
      assert (first + second)[..|first + second| - 1] == first + second[..|second| - 1];
    }
  }

  lemma WriteOne(doc: Json, write: Write)
    ensures WriteAll(doc, [write]) == if ValidPointer(write.pointer) then Put(doc, PathOf(write.pointer), write.value) else None
  {
    assert [write][..0] == [];
  }

  /** Each optional write leaves the document as `WriteAll` says, or unchanged. */
  ghost predicate Wrote(before: Json, writes: seq<Write>, after: Json, ok: bool) {
    if ok then WriteAll(before, writes) == Some(after) else WriteAll(before, writes) == None && after == before
  }

  method WriteModels(config: Config, synthesis: Synthesis, model: Option<string>, catalog: seq<string>) returns (ok: bool)
    modifies config
    ensures Wrote(old(config.root), ModelsWrite(synthesis, model, catalog), config.root, ok)
  {
    if synthesis.models.None? { return true; }
    var list := synthesis.models.value;
    var value := RenderModels(list.shape, ModelIds(synthesis.models, model, catalog));
    WriteOne(config.root, Write(list.at, value));
    ok := config.SetPointer(list.at, value);
  }

  method WriteDefault(config: Config, synthesis: Synthesis, model: Option<string>, catalog: seq<string>) returns (ok: bool)
    modifies config
    ensures Wrote(old(config.root), DefaultWrite(synthesis, model, catalog), config.root, ok)
  {
    var id := DefaultId(model, catalog);
    if synthesis.defaultModel.None? || id.None? { return true; }
    var spec := synthesis.defaultModel.value;
    WriteOne(config.root, Write(spec.at, Text(RenderId(spec.format, id.value))));
    ok := config.SetPointer(spec.at, Text(RenderId(spec.format, id.value)));
  }

  method WriteServers(config: Config, synthesis: Synthesis, servers: Option<Json>) returns (ok: bool)
    modifies config
    ensures Wrote(old(config.root), McpWrite(synthesis, servers), config.root, ok)
  {
    if synthesis.mcpAt.None? || servers.None? { return true; }
    WriteOne(config.root, Write(synthesis.mcpAt.value, servers.value));
    ok := config.SetPointer(synthesis.mcpAt.value, servers.value);
  }

  /** `servers` is the rendered MCP map, absent when there are no servers. */
  method Render(synthesis: Synthesis, skeleton: Result<Json>, baseUrl: string, auth: string,
                model: Option<string>, catalog: seq<string>, servers: Option<Json>) returns (r: Result<Json>)
    ensures skeleton.Err? ==> r.Err?
    ensures skeleton.Ok? ==>
              var written := WriteAll(Substituted(skeleton.value, baseUrl, auth), Writes(synthesis, model, catalog, servers));
              r == if written.None? then Err else Ok(written.value)
  {
    hide Substituted, WriteAll, ModelsWrite, DefaultWrite, McpWrite;
    if skeleton.Err? { return Err; }
    var start := SubstituteScalars(skeleton.value, baseUrl, auth);
    var config := new Config(start);
    ghost var (first, second, third) :=
      (ModelsWrite(synthesis, model, catalog), DefaultWrite(synthesis, model, catalog), McpWrite(synthesis, servers));
    WriteAllConcat(start, first, second);
    WriteAllConcat(start, first + second, third);
    var ok := WriteModels(config, synthesis, model, catalog);
    if !ok { return Err; }
    ok := WriteDefault(config, synthesis, model, catalog);
    if !ok { return Err; }
    ok := WriteServers(config, synthesis, servers);
    if !ok { return Err; }
    return Ok(config.root);
  }

  ghost predicate AllApart(writes: seq<Write>) {
    forall i, j :: 0 <= i < |writes| && 0 <= j < |writes| && i != j ==> Apart(writes[i], writes[j])
  }

  /** The rendered config, its writes apart: each write reads back, every path away
      from them reads the substituted skeleton, and a written default is among the
      models the config lists if and only if the harness has a model list. */
  lemma RenderedConfig(synthesis: Synthesis, skeleton: Json, baseUrl: string, auth: string,
                       model: Option<string>, catalog: seq<string>, servers: Option<Json>)
    requires var writes := Writes(synthesis, model, catalog, servers);
             AllApart(writes) && WriteAll(Substituted(skeleton, baseUrl, auth), writes).Some?
    ensures var writes := Writes(synthesis, model, catalog, servers);
            var config := WriteAll(Substituted(skeleton, baseUrl, auth), writes).value;
            && (forall k :: 0 <= k < |writes| ==>
                  ValidPointer(writes[k].pointer) && Get(config, PathOf(writes[k].pointer)) == Some(writes[k].value))
            && (forall other :: (forall i :: 0 <= i < |writes| && ValidPointer(writes[i].pointer) ==> Independent(PathOf(writes[i].pointer), other)) ==>
                  Get(config, other) == match Get(skeleton, other) case None => None case Some(part) => Some(Substituted(part, baseUrl, auth)))
            && (synthesis.defaultModel.Some? && DefaultId(model, catalog).Some? ==>
                  (DefaultIsListed(synthesis, config) <==> synthesis.models.Some?))
  {
    hide Substituted, Put, Independent, ModelsWrite, DefaultWrite, McpWrite, WriteAll, DefaultIsListed, DefaultId;
    var writes := Writes(synthesis, model, catalog, servers);
    var start := Substituted(skeleton, baseUrl, auth);
    forall k | 0 <= k < |writes|
      ensures ValidPointer(writes[k].pointer) && Get(WriteAll(start, writes).value, PathOf(writes[k].pointer)) == Some(writes[k].value)
    {
      WritesSurvive(start, writes, k);
    }
    forall other | forall i :: 0 <= i < |writes| && ValidPointer(writes[i].pointer) ==> Independent(PathOf(writes[i].pointer), other)
      ensures Get(WriteAll(start, writes).value, other) == match Get(skeleton, other) case None => None case Some(part) => Some(Substituted(part, baseUrl, auth))
    {
      WritesKeepOthers(start, writes, other);
      SubstitutionKeepsPaths(skeleton, other, baseUrl, auth);
    }
    if synthesis.models.Some? && synthesis.defaultModel.Some? && DefaultId(model, catalog).Some? {
      WrittenDefaultIsListed(synthesis, start, model, catalog, servers);
    }
    if synthesis.models.None? { NothingIsListed(synthesis, WriteAll(start, writes).value); }
  }

  lemma WrittenDefaultIsListed(synthesis: Synthesis, start: Json, model: Option<string>, catalog: seq<string>, servers: Option<Json>)
    requires synthesis.models.Some? && synthesis.defaultModel.Some? && DefaultId(model, catalog).Some?
    requires var writes := Writes(synthesis, model, catalog, servers); AllApart(writes) && WriteAll(start, writes).Some?
    ensures DefaultIsListed(synthesis, WriteAll(start, Writes(synthesis, model, catalog, servers)).value)
  {
    hide Put, Get, Apart, RenderedModels, ModelIds, DefaultId, ListedIn, RenderId, PathOf, ValidPointer, WriteAll;
    var writes := Writes(synthesis, model, catalog, servers);
    var (list, spec, ids) := (synthesis.models.value, synthesis.defaultModel.value, ModelIds(synthesis.models, model, catalog));
    var id := DefaultId(model, catalog).value;
    assert writes[0] == Write(list.at, RenderedModels(list.shape, ids));
    assert writes[1] == Write(spec.at, Text(RenderId(spec.format, id)));
    WritesSurvive(start, writes, 0);
    WritesSurvive(start, writes, 1);
    IdsAreExact(synthesis.models, model, catalog);
    RenderedModelsReadBack(list.shape, ids);
    assert id in ListedIn(list.shape, RenderedModels(list.shape, ids)).value;
  }

  /** The ids a harness finds in a config: none without a model list. */
  function ListedIds(synthesis: Synthesis, config: Json): seq<string> {
    match synthesis.models
    case None => []
    case Some(list) =>
      if !ValidPointer(list.at) then []
      else match Get(config, PathOf(list.at))
        case None => []
        case Some(value) => if ListedIn(list.shape, value).Some? then ListedIn(list.shape, value).value else []
  }

  /** What the rendered config holds at each place it was asked to fill: the ids in
      order under the model list, the pinned model or else the first of the catalog
      under the default in its spelling, and the servers as given. */
  lemma RenderedFields(synthesis: Synthesis, start: Json, model: Option<string>, catalog: seq<string>, servers: Option<Json>)
    requires var writes := Writes(synthesis, model, catalog, servers); AllApart(writes) && WriteAll(start, writes).Some?
    ensures var config := WriteAll(start, Writes(synthesis, model, catalog, servers)).value;
            && (synthesis.models.Some? ==> ListsIds(synthesis.models.value, model, catalog, config))
            && (synthesis.defaultModel.Some? && model.Some? ==> SpellsDefault(synthesis.defaultModel.value, model.value, config))
            && (synthesis.defaultModel.Some? && model.None? && catalog != [] ==> SpellsDefault(synthesis.defaultModel.value, catalog[0], config))
            && (synthesis.mcpAt.Some? && servers.Some? ==>
                  ValidPointer(synthesis.mcpAt.value) && Get(config, PathOf(synthesis.mcpAt.value)) == servers)
  {
    hide Put, Get, Apart, RenderedModels, ModelIds, ListedIn, PathOf, ValidPointer, WriteAll, Firsts;
    var writes := Writes(synthesis, model, catalog, servers);
    var (first, second) := (ModelsWrite(synthesis, model, catalog), DefaultWrite(synthesis, model, catalog));
    if synthesis.models.Some? {
      var list := synthesis.models.value;
      assert writes[0] == Write(list.at, RenderedModels(list.shape, ModelIds(Some(list), model, catalog)));
      WritesSurvive(start, writes, 0);
      RenderedModelsReadBack(list.shape, ModelIds(Some(list), model, catalog));
    }
    if synthesis.defaultModel.Some? && (model.Some? || catalog != []) {
      assert writes[|first|] == second[0];
      WritesSurvive(start, writes, |first|);
    }
    if synthesis.mcpAt.Some? && servers.Some? {
      assert writes[|first| + |second|] == Write(synthesis.mcpAt.value, servers.value);
      WritesSurvive(start, writes, |first| + |second|);
    }
  }

  predicate ListsIds(list: ModelList, model: Option<string>, catalog: seq<string>, config: Json) {
    var ids := ModelIds(Some(list), model, catalog);
    && ValidPointer(list.at) && Get(config, PathOf(list.at)).Some?
    && ListedIn(list.shape, Get(config, PathOf(list.at)).value) == Some(if list.shape.MapOfEmpty? then Firsts(ids) else ids)
  }

  /** The id alone, or under its provider's name. */
  predicate SpellsDefault(spec: DefaultModel, id: string, config: Json) {
    && ValidPointer(spec.at)
    && Get(config, PathOf(spec.at)) == Some(Text(if spec.format.Bare? then id else "bitrouter/" + id))
  }

  /** The default in the config spells one of the ids it lists. */
  ghost predicate DefaultIsListed(synthesis: Synthesis, config: Json) {
    && synthesis.defaultModel.Some? && ValidPointer(synthesis.defaultModel.value.at)
    && exists id ::
         && id in ListedIds(synthesis, config)
         && Get(config, PathOf(synthesis.defaultModel.value.at)) == Some(Text(RenderId(synthesis.defaultModel.value.format, id)))
  }

  lemma NothingIsListed(synthesis: Synthesis, config: Json)
    requires synthesis.models.None?
    ensures !DefaultIsListed(synthesis, config)
  {
  }

  /** A registry entry with a default and no model list, and its skeleton. */
  const HERMES: Synthesis := Synthesis(None, Some(DefaultModel("/model/default", Bare)), Some("/mcp_servers"))
  const HERMES_SKELETON: Json := Object([("model", Object([("provider", Text("custom")), ("base_url", Text("{base_url_v1}"))]))])

  /** Its config names a default and lists no model. */
  lemma UnlistedDefaultIsWritten(id: string, baseUrl: string, auth: string)
    ensures var writes := Writes(HERMES, None, [id], None);
            var config := WriteAll(Substituted(HERMES_SKELETON, baseUrl, auth), writes);
            && config.Some?
            && Get(config.value, ["model", "default"]) == Some(Text(id))
            && ModelIds(HERMES.models, None, [id]) == [] && !DefaultIsListed(HERMES, config.value)
  {
    hide Substituted, Put, Split;
    var start := Substituted(HERMES_SKELETON, baseUrl, auth);
    var write := Write("/model/default", Text(id));
    assert Writes(HERMES, None, [id], None) == [write];
    WriteOne(start, write);
    HermesPath();
    HermesStart(baseUrl, auth, Text(id));
    PutReadsBack(start, ["model", "default"], Text(id), []);
    assert ["model", "default"] + [] == ["model", "default"];
  }

  lemma HermesPath()
    ensures PathOf("/model/default") == ["model", "default"]
  {
    hide Split;
    SplitSegment("model", "default");
    SplitLast("default");
    assert "/model/default"[1..] == "model" + "/" + "default";
  }

  lemma HermesStart(baseUrl: string, auth: string, value: Json)
    ensures Put(Substituted(HERMES_SKELETON, baseUrl, auth), ["model", "default"], value).Some?
  {
    hide SubstitutedText;
    var start := Substituted(HERMES_SKELETON, baseUrl, auth);
    LookupSubstituted(HERMES_SKELETON.entries, "model", baseUrl, auth);
    assert start.entries == SubstitutedEntries(HERMES_SKELETON.entries, baseUrl, auth);
    assert ["model", "default"][1..] == ["default"];
  }

  /** The pointer to a member of the root, and to a place inside it. */
  function Member(key: string): string {
    "/" + key
  }

  function Inside(key: string, rest: string): string {
    "/" + (key + "/" + rest)
  }

  /** The other published entries whose configs are written at pointers. */
  const OPENCLAW: Synthesis := Synthesis(
    Some(ModelList(Inside("models", "providers/bitrouter/models"), ArrayOfProfile, ModelThenCatalog)),
    Some(DefaultModel(Inside("agents", "defaults/model"), ProviderPrefixed)), None)
  const OPENCODE: Synthesis := Synthesis(
    Some(ModelList(Inside("provider", "bitrouter/models"), MapOfEmpty, CatalogThenModel)),
    Some(DefaultModel(Member("model"), ProviderPrefixed)), Some(Member("mcp")))
  const PI: Synthesis := Synthesis(
    Some(ModelList(Inside("providers", "bitrouter/models"), ArrayOfId, CatalogThenModel)), None, None)

  /** A pointer into the member of the root that a key names. */
  ghost predicate Under(pointer: string, key: string) {
    '/' !in key && (pointer == Member(key) || exists rest :: pointer == Inside(key, rest))
  }

  lemma UnderStarts(pointer: string, key: string)
    requires Under(pointer, key)
    ensures ValidPointer(pointer) && PathOf(pointer)[0] == key
  {
    hide Split;
    if pointer == Member(key) {
      assert pointer[1..] == key;
      SplitLast(key);
    } else {
      var rest :| pointer == Inside(key, rest);
      assert pointer[1..] == key + "/" + rest;
      SplitSegment(key, rest);
    }
  }

  /** Writes under different members of the root are apart. */
  lemma MembersAreApart(a: Write, b: Write, p: string, q: string)
    requires Under(a.pointer, p) && Under(b.pointer, q) && p != q
    ensures Apart(a, b) && Apart(b, a)
  {
    hide Split, Under;
    UnderStarts(a.pointer, p);
    UnderStarts(b.pointer, q);
  }

  /** Models, default and MCP servers under three members of the root. */
  lemma ThreeMembersAreApart(synthesis: Synthesis, model: Option<string>, catalog: seq<string>, servers: Option<Json>,
                             models: string, defaults: string, mcp: string)
    requires synthesis.models.Some? ==> Under(synthesis.models.value.at, models)
    requires synthesis.defaultModel.Some? ==> Under(synthesis.defaultModel.value.at, defaults)
    requires synthesis.mcpAt.Some? ==> Under(synthesis.mcpAt.value, mcp)
    requires models != defaults && defaults != mcp && models != mcp
    ensures AllApart(Writes(synthesis, model, catalog, servers))
  {
    hide Under, Apart, RenderedModels, ModelIds, DefaultId, RenderId;
    var (first, second, third) := (ModelsWrite(synthesis, model, catalog), DefaultWrite(synthesis, model, catalog), McpWrite(synthesis, servers));
    if first != [] && second != [] { MembersAreApart(first[0], second[0], models, defaults); }
    if first != [] && third != [] { MembersAreApart(first[0], third[0], models, mcp); }
    if second != [] && third != [] { MembersAreApart(second[0], third[0], defaults, mcp); }
  }

  /** Every published entry meets the condition under which rendering keeps all its
      writes, for every model, catalog and set of servers. */
  lemma PublishedWritesAreApart(synthesis: Synthesis, model: Option<string>, catalog: seq<string>, servers: Option<Json>)
    requires synthesis in [HERMES, OPENCLAW, OPENCODE, PI]
    ensures AllApart(Writes(synthesis, model, catalog, servers))
  {
    hide AllApart, Writes, Member, Inside;
    if synthesis == HERMES {
      HermesPointers();
      ThreeMembersAreApart(synthesis, model, catalog, servers, "", "model", "mcp_servers");
    } else if synthesis == OPENCLAW {
      ThreeMembersAreApart(synthesis, model, catalog, servers, "models", "agents", "");
    } else if synthesis == OPENCODE {
      ThreeMembersAreApart(synthesis, model, catalog, servers, "provider", "model", "mcp");
    } else {
      ThreeMembersAreApart(synthesis, model, catalog, servers, "providers", "model", "mcp");
    }
  }

  lemma HermesPointers()
    ensures Under("/model/default", "model") && Under("/mcp_servers", "mcp_servers")
  {
    assert "/model/default" == Inside("model", "default");
    assert "/mcp_servers" == Member("mcp_servers");
  }

  lemma {:induction false} SplitLast(segment: string)
    requires '/' !in segment
    ensures Split(segment) == [segment]
  {
    if segment != [] {
      SplitLast(segment[1..]);
      assert segment == [segment[0]] + segment[1..];
    }
  }

  lemma {:induction false} SplitSegment(segment: string, rest: string)
    requires '/' !in segment
    ensures Split(segment + "/" + rest) == [segment] + Split(rest)
  {
    var text := segment + "/" + rest;
    if segment == [] {
      assert text[1..] == rest;
    } else {
      SplitSegment(segment[1..], rest);
      assert text[1..] == segment[1..] + "/" + rest && segment == [segment[0]] + segment[1..];
      assert ([segment[1..]] + Split(rest))[1..] == Split(rest);
    }
  }
}
