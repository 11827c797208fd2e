/** The build identity read from the application manifest: which features are on,
    in one spelling, and which named distribution they make up. */
module FeatureGraph {
  import opened Basics

  type Graph = map<string, seq<string>>

  const DEP: string := "dep:"

  // ---- Edges and reachability --------------------------------------------

  /** The text before the first '/'. */
  function Slash(edge: string): (before: Option<string>)
    ensures before.None? <==> '/' !in edge
    ensures before.Some? ==> '/' !in before.value && before.value + "/" <= edge
  {
    if edge == [] then None
    else if edge[0] == '/' then Some("")
    else match Slash(edge[1..])
      case None => None
      case Some(rest) => Some([edge[0]] + rest)
  }

  /** The local feature an edge turns on, if any. */
  function Target(graph: Graph, optional: set<string>, edge: string): Option<string> {
    if StartsWith(edge, DEP) then None
    else match Slash(edge)
      case Some(dependency) => if dependency in optional && dependency in graph then Some(dependency) else None
      case None => Some(edge)
  }

  ghost predicate Leads(graph: Graph, optional: set<string>, a: string, b: string) {
    a in graph && exists i :: 0 <= i < |graph[a]| && Target(graph, optional, graph[a][i]) == Some(b)
  }

  ghost predicate Path(graph: Graph, optional: set<string>, path: seq<string>) {
    path != [] && forall i :: 0 < i < |path| ==> Leads(graph, optional, path[i - 1], path[i])
  }

  ghost predicate PathTo(graph: Graph, optional: set<string>, roots: set<string>, path: seq<string>, name: string) {
    Path(graph, optional, path) && path[0] in roots && path[|path| - 1] == name
  }

  /** Some chain of edges from a root ends at the name. */
  ghost predicate Reached(graph: Graph, optional: set<string>, roots: set<string>, name: string) {
    exists path :: PathTo(graph, optional, roots, path, name)
  }

  ghost predicate Closed(graph: Graph, optional: set<string>, names: set<string>) {
    forall a, b :: a in names && Leads(graph, optional, a, b) ==> b in names
  }

  function Named(graph: Graph, optional: set<string>): set<string> {
    set a, i | a in graph && 0 <= i < |graph[a]| && Target(graph, optional, graph[a][i]).Some? ::
      Target(graph, optional, graph[a][i]).value
  }

  ghost function Closure(graph: Graph, optional: set<string>, roots: set<string>): set<string> {
    set name | name in roots + Named(graph, optional) && Reached(graph, optional, roots, name)
  }

  lemma ReachedRoot(graph: Graph, optional: set<string>, roots: set<string>, name: string)
    requires name in roots
    ensures Reached(graph, optional, roots, name)
  {
    assert PathTo(graph, optional, roots, [name], name);
  }

  lemma ReachedStep(graph: Graph, optional: set<string>, roots: set<string>, a: string, b: string)
    requires Reached(graph, optional, roots, a) && Leads(graph, optional, a, b)
    ensures Reached(graph, optional, roots, b)
  {
    var path :| PathTo(graph, optional, roots, path, a);
    var longer := path + [b];
    forall i | 0 < i < |longer| ensures Leads(graph, optional, longer[i - 1], longer[i]) {
      if i < |path| { assert Leads(graph, optional, path[i - 1], path[i]); }
    }
    assert PathTo(graph, optional, roots, longer, b);
  }

  lemma {:induction false} PathStaysInside(graph: Graph, optional: set<string>, names: set<string>, path: seq<string>)
    requires Closed(graph, optional, names) && Path(graph, optional, path) && path[0] in names
    ensures path[|path| - 1] in names
    decreases |path|
  {
    if |path| > 1 {
      var shorter := path[..|path| - 1];
      forall i | 0 < i < |shorter| ensures Leads(graph, optional, shorter[i - 1], shorter[i]) {
        assert Leads(graph, optional, path[i - 1], path[i]);
      }
      PathStaysInside(graph, optional, names, shorter);
      assert Leads(graph, optional, path[|path| - 2], path[|path| - 1]);
    }
  }

  /** The reached names are the least closed set that holds the roots. */
  lemma ClosureIsLeast(graph: Graph, optional: set<string>, roots: set<string>)
    ensures forall name :: name in Closure(graph, optional, roots) <==> Reached(graph, optional, roots, name)
    ensures roots <= Closure(graph, optional, roots)
    ensures Closed(graph, optional, Closure(graph, optional, roots))
    ensures forall names :: roots <= names && Closed(graph, optional, names) ==> Closure(graph, optional, roots) <= names
  {
    forall name | Reached(graph, optional, roots, name) ensures name in roots + Named(graph, optional) {
      var path :| PathTo(graph, optional, roots, path, name);
      if |path| > 1 { assert Leads(graph, optional, path[|path| - 2], path[|path| - 1]); }
    }
    forall name | name in roots ensures Reached(graph, optional, roots, name) {
      ReachedRoot(graph, optional, roots, name);
    }
    forall a, b | a in Closure(graph, optional, roots) && Leads(graph, optional, a, b)
      ensures b in Closure(graph, optional, roots)
    {
      ReachedStep(graph, optional, roots, a, b);
    }
    forall names, name | roots <= names && Closed(graph, optional, names) && name in Closure(graph, optional, roots)
      ensures name in names
    {
      var path :| PathTo(graph, optional, roots, path, name);
      PathStaysInside(graph, optional, names, path);
    }
  }

  // ---- The closure as one list -------------------------------------------

  const UNLISTED: set<string> := {"default", "otel"}

  /** What `normalize` must return: every reached feature but two, in order; or an
      error when a reached name is not a feature of the manifest. */
  ghost function Normalized(graph: Graph, optional: set<string>, roots: set<string>): Result<seq<string>> {
    var reached := Closure(graph, optional, roots);
    if reached <= graph.Keys then Ok(Sorted(reached - UNLISTED)) else Err
  }

  function Members(names: seq<string>): set<string> {
    set name | name in names
  }

  function Targets(graph: Graph, optional: set<string>, edges: seq<string>): (targets: seq<string>)
    ensures forall b :: b in targets <==> exists i :: 0 <= i < |edges| && Target(graph, optional, edges[i]) == Some(b)
  {
    if edges == [] then []
    else
      var last := |edges| - 1;
      var earlier := Targets(graph, optional, edges[..last]);
      match Target(graph, optional, edges[last])
      case None => earlier
      case Some(name) => earlier + [name]
  }

  /** Where the worklist stands: all of it is reached, and what the visited names
      lead to is visited or waiting. */
  ghost predicate Explored(graph: Graph, optional: set<string>, roots: set<string>, visited: set<string>, pending: seq<string>) {
    && visited <= graph.Keys
    && (forall name :: name in visited || name in pending ==> Reached(graph, optional, roots, name))
    && (forall name :: name in roots ==> name in visited || name in pending)
    && (forall a, b :: a in visited && Leads(graph, optional, a, b) ==> b in visited || b in pending)
  }

  lemma ExploredStart(graph: Graph, optional: set<string>, roots: seq<string>)
    ensures Explored(graph, optional, Members(roots), {}, roots)
  {
    forall name | name in roots ensures Reached(graph, optional, Members(roots), name) {
      ReachedRoot(graph, optional, Members(roots), name);
    }
  }

  lemma ExploredUnknown(graph: Graph, optional: set<string>, roots: set<string>, visited: set<string>, pending: seq<string>)
    requires pending != [] && Explored(graph, optional, roots, visited, pending) && pending[|pending| - 1] !in graph
    ensures Normalized(graph, optional, roots) == Err
  {
    ClosureIsLeast(graph, optional, roots);
    assert pending[|pending| - 1] in pending;
  }

  lemma ExploredSkip(graph: Graph, optional: set<string>, roots: set<string>, visited: set<string>, pending: seq<string>)
    requires pending != [] && Explored(graph, optional, roots, visited, pending) && pending[|pending| - 1] in visited
    ensures Explored(graph, optional, roots, visited, pending[..|pending| - 1])
  {
    assert pending == pending[..|pending| - 1] + [pending[|pending| - 1]];
  }

  lemma ExploredVisit(graph: Graph, optional: set<string>, roots: set<string>, visited: set<string>, pending: seq<string>)
    requires pending != [] && Explored(graph, optional, roots, visited, pending) && pending[|pending| - 1] in graph
    ensures var name := pending[|pending| - 1];
            Explored(graph, optional, roots, visited + {name}, pending[..|pending| - 1] + Targets(graph, optional, graph[name]))
  {
    var name := pending[|pending| - 1];
    var targets := Targets(graph, optional, graph[name]);
    assert pending == pending[..|pending| - 1] + [name];
    forall b | b in targets ensures Reached(graph, optional, roots, b) {
      ReachedStep(graph, optional, roots, name, b);
    }
  }

  lemma ExploredAll(graph: Graph, optional: set<string>, roots: set<string>, visited: set<string>)
    requires Explored(graph, optional, roots, visited, [])
    ensures Normalized(graph, optional, roots) == Ok(Sorted(visited - UNLISTED))
  {
    ClosureIsLeast(graph, optional, roots);
    assert Closed(graph, optional, visited) && roots <= visited;
    assert visited == Closure(graph, optional, roots);
  }

  lemma TargetsNext(graph: Graph, optional: set<string>, edges: seq<string>, k: nat)
    requires k < |edges|
    ensures var target := Target(graph, optional, edges[k]);
            Targets(graph, optional, edges[..k + 1]) ==
            Targets(graph, optional, edges[..k]) + (if target.Some? then [target.value] else [])
  {
    hide Target;
    assert edges[..k + 1][..k] == edges[..k];
  }

  lemma TargetsNone(graph: Graph, optional: set<string>)
    ensures Targets(graph, optional, []) == []
  {
  }

  /** The edges of one feature, pushed in the order they are written. */
  method PushTargets(graph: Graph, optional: set<string>, edges: seq<string>, pending: seq<string>) returns (longer: seq<string>)
    ensures longer == pending + Targets(graph, optional, edges)
  {
    hide Slash, Targets, StartsWith;
    longer := pending;
    TargetsNone(graph, optional);
    for k := 0 to |edges|
      invariant longer == pending + Targets(graph, optional, edges[..k])
    {
      TargetsNext(graph, optional, edges, k);
      if StartsWith(edges[k], DEP) { continue; }
      var dependency := Slash(edges[k]);
      if dependency.Some? {
        if dependency.value in optional && dependency.value in graph {
          longer := longer + [dependency.value];
        }
      } else {
        longer := longer + [edges[k]];
      }
    }
    assert edges[..|edges|] == edges;
  }

  method Normalize(graph: Graph, optional: set<string>, roots: seq<string>) returns (r: Result<seq<string>>)
    ensures r == Normalized(graph, optional, Members(roots))
  {
    hide Leads, Target, Targets, Reached, Explored, Closed;
    var pending, visited := roots, {};
    ExploredStart(graph, optional, roots);
    while pending != []
      invariant Explored(graph, optional, Members(roots), visited, pending)
      decreases graph.Keys - visited, |pending|
    {
      var name := pending[|pending| - 1];
      if name in visited {
        ExploredSkip(graph, optional, Members(roots), visited, pending);
        pending := pending[..|pending| - 1];
        continue;
      }
      if name !in graph {
        ExploredUnknown(graph, optional, Members(roots), visited, pending);
        return Err;
      }
      ExploredVisit(graph, optional, Members(roots), visited, pending);
      pending, visited := pending[..|pending| - 1], visited + {name};
      pending := PushTargets(graph, optional, graph[name], pending);
    }
    ExploredAll(graph, optional, Members(roots), visited);
    var listed := SortedKeys(visited - UNLISTED);
    return Ok(listed);
  }

  /** Asking for more never hides a feature, and never repairs an unknown name. */
  lemma NormalizedMonotone(graph: Graph, optional: set<string>, fewer: set<string>, more: set<string>)
    requires fewer <= more && Normalized(graph, optional, more).Ok?
    ensures Normalized(graph, optional, fewer).Ok?
    ensures forall name :: name in Normalized(graph, optional, fewer).value ==> name in Normalized(graph, optional, more).value
  {
    hide Reached, Leads, Closed, Ascending;
    ClosureIsLeast(graph, optional, fewer);
    ClosureIsLeast(graph, optional, more);
    assert Closure(graph, optional, fewer) <= Closure(graph, optional, more);
  }

  /** Starting from any part of the answer that holds the roots gives the answer. */
  lemma NormalizedExpanded(graph: Graph, optional: set<string>, roots: set<string>, expanded: set<string>)
    requires roots <= expanded <= Closure(graph, optional, roots)
    ensures Normalized(graph, optional, expanded) == Normalized(graph, optional, roots)
  {
    hide Reached, Sorted, Leads;
    ClosureIsLeast(graph, optional, roots);
    ClosureIsLeast(graph, optional, expanded);
    assert Closure(graph, optional, expanded) == Closure(graph, optional, roots);
  }

  /** Only the edges that lead somewhere matter. */
  lemma SameLeadsSameNormalized(a: Graph, b: Graph, optional: set<string>, roots: set<string>)
    requires a.Keys == b.Keys && forall x, y :: Leads(a, optional, x, y) <==> Leads(b, optional, x, y)
    ensures Normalized(a, optional, roots) == Normalized(b, optional, roots)
  {
    hide Reached, Sorted, Leads;
    ClosureIsLeast(a, optional, roots);
    ClosureIsLeast(b, optional, roots);
    assert Closed(a, optional, Closure(b, optional, roots)) && Closed(b, optional, Closure(a, optional, roots));
    assert Closure(a, optional, roots) == Closure(b, optional, roots);
  }

  // ---- The manifest ------------------------------------------------------

  /** A feature's value: an array of edges, each a string if well formed. */
  datatype Edge = Text(text: string) | NotText
  datatype Feature = Array(edges: seq<Edge>) | NotArray

  /** The parsed manifest: its feature table, and its dependency tables with the
      names in them and whether each is optional. */
  datatype Manifest = Manifest(features: Option<map<string, Feature>>, tables: seq<map<string, bool>>)

  datatype Profile = Gateway | Full | GatewayShared | Custom
  datatype Selection = Selection(features: seq<string>, profile: Profile)

  predicate WellFormed(feature: Feature) {
    feature.Array? && forall i :: 0 <= i < |feature.edges| ==> feature.edges[i].Text?
  }

  function Texts(feature: Feature): seq<string>
    requires WellFormed(feature)
  {
    seq(|feature.edges|, i requires 0 <= i < |feature.edges| => feature.edges[i].text)
  }

  ghost function Declared(manifest: Manifest): Result<Graph> {
    if manifest.features.Some? && forall name :: name in manifest.features.value ==> WellFormed(manifest.features.value[name])
    then Ok(map name | name in manifest.features.value :: Texts(manifest.features.value[name]))
    else Err
  }

  /** The dependency a `dep:` edge names. */
  function Stripped(edge: string): Option<string> {
    if StartsWith(edge, DEP) then Some(edge[|DEP|..]) else None
  }

  function StrippedIn(edges: seq<string>): set<string> {
    set i | 0 <= i < |edges| && Stripped(edges[i]).Some? :: Stripped(edges[i]).value
  }

  function Suppressed(graph: Graph): set<string> {
    set a, dependency | a in graph && dependency in StrippedIn(graph[a]) :: dependency
  }

  function Optional(tables: seq<map<string, bool>>): set<string> {
    set t, name | 0 <= t < |tables| && name in tables[t] && tables[t][name] :: name
  }

  /** The features optional dependencies add by themselves. */
  function Implicit(declared: Graph, tables: seq<map<string, bool>>): set<string> {
    Optional(tables) - Suppressed(declared) - declared.Keys
  }

  function Expanded(declared: Graph, tables: seq<map<string, bool>>): Graph {
    map name | name in declared.Keys + Implicit(declared, tables) :: if name in declared then declared[name] else []
  }

  function Underscored(name: string): string {
    seq(|name|, i requires 0 <= i < |name| => if name[i] == '-' then '_' else name[i])
  }

  /** `upper` stands for the Unicode upper-casing of the standard library. */
  function Variable(upper: string -> string, name: string): string {
    "CARGO_FEATURE_" + upper(Underscored(name))
  }

  ghost predicate Collide(graph: Graph, upper: string -> string) {
    exists a, b :: a in graph && b in graph && a != b && Variable(upper, a) == Variable(upper, b)
  }

  function Chosen(graph: Graph, upper: string -> string, enabled: string -> bool): set<string> {
    set name | name in graph && enabled(Variable(upper, name))
  }

  function Default(graph: Graph): set<string> {
    if "default" in graph then {"default"} else {}
  }

  function ProfileOf(features: seq<string>, defaults: seq<string>): Profile {
    if features == [] then Gateway
    else if features == defaults then Full
    else if features == ["db-postgres", "multi-instance"] then GatewayShared
    else Custom
  }

  ghost function Selected(graph: Graph, optional: set<string>, chosen: set<string>): Result<Selection> {
    match (Normalized(graph, optional, chosen), Normalized(graph, optional, Default(graph)))
    case (Ok(features), Ok(defaults)) => Ok(Selection(features, ProfileOf(features, defaults)))
    case _ => Err
  }

  ghost function Identity(manifest: Manifest, upper: string -> string, enabled: string -> bool): Result<Selection> {
    match Declared(manifest)
    case Err => Err
    case Ok(declared) =>
      var graph := Expanded(declared, manifest.tables);
      if Collide(graph, upper) then Err
      else Selected(graph, Optional(manifest.tables), Chosen(graph, upper, enabled))
  }

  // ---- Reading it --------------------------------------------------------

  method ReadFeature(feature: Feature) returns (r: Result<seq<string>>)
    ensures r == if WellFormed(feature) then Ok(Texts(feature)) else Err
  {
    if feature.NotArray? { return Err; }
    var edges := [];
    for i := 0 to |feature.edges|
      invariant |edges| == i
      invariant forall k :: 0 <= k < i ==> feature.edges[k] == Text(edges[k])
    {
      if feature.edges[i].NotText? { return Err; }
      edges := edges + [feature.edges[i].text];
    }
    assert edges == Texts(feature);
    return Ok(edges);
  }

  method ReadGraph(manifest: Manifest) returns (r: Result<Graph>)
    ensures r == Declared(manifest)
  {
    hide Sorted, Ascending, Before, WellFormed, Texts;
    if manifest.features.None? { return Err; }
    var table := manifest.features.value;
    var names := SortedKeys(table.Keys);
    var graph: Graph := map[];
    for k := 0 to |names|
      invariant graph.Keys == Members(names[..k])
      invariant forall name :: name in graph ==> name in table && WellFormed(table[name]) && graph[name] == Texts(table[name])
    {
      assert names[..k + 1] == names[..k] + [names[k]];
      assert names[k] in table.Keys;
      var edges := ReadFeature(table[names[k]]);
      if edges.Err? { return Err; }
      graph := graph[names[k] := edges.value];
    }
    assert names[..|names|] == names;
    assert graph.Keys == table.Keys;
    assert forall name :: name in table ==> WellFormed(table[name]);
    assert graph == map name | name in table :: Texts(table[name]);
    return Ok(graph);
  }

  /** One dependency table: its optional names, and a feature for each that is
      neither suppressed nor present. */
  method ReadDependencies(table: map<string, bool>, suppressed: set<string>, graph: Graph, optional: set<string>)
    returns (fuller: Graph, names: set<string>)
    ensures names == optional + Optional([table])
    ensures fuller == With(graph, Optional([table]) - suppressed)
  {
    hide Sorted, Ascending, Before, With;
    fuller, names := graph, optional;
    var listed := SortedKeys(table.Keys);
    ghost var seen: set<string> := {};
    WithNone(graph, suppressed);
    for k := 0 to |listed|
      invariant forall name :: name in seen <==> name in listed[..k] && name in table && table[name]
      invariant names == optional + seen && fuller == With(graph, seen - suppressed)
    {
      var name := listed[k];
      assert listed[..k + 1] == listed[..k] + [name];
      assert name in table.Keys;
      if table[name] {
        WithOne(graph, seen, suppressed, name);
        names, seen := names + {name}, seen + {name};
        if name !in suppressed && name !in fuller {
          fuller := fuller[name := []];
        }
      }
    }
    assert listed[..|listed|] == listed;
    OptionalOfOne(table);
    assert seen == Optional([table]);
  }

  lemma WithNone(graph: Graph, suppressed: set<string>)
    ensures With(graph, {} - suppressed) == graph
  {
  }

  lemma WithOne(graph: Graph, seen: set<string>, suppressed: set<string>, name: string)
    ensures var before := With(graph, seen - suppressed);
            With(graph, seen + {name} - suppressed) == if name !in suppressed && name !in before then before[name := []] else before
  {
  }

  /** The graph with an edgeless feature for each name it lacks. */
  function With(graph: Graph, names: set<string>): Graph {
    map name | name in graph.Keys + names :: if name in graph then graph[name] else []
  }

  lemma OptionalOfOne(table: map<string, bool>)
    ensures Optional([table]) == set name | name in table && table[name]
  {
    forall name | name in table && table[name] ensures name in Optional([table]) {
      assert [table][0] == table;
    }
  }

  lemma OptionalOfMore(tables: seq<map<string, bool>>, table: map<string, bool>)
    ensures Optional(tables + [table]) == Optional(tables) + Optional([table])
  {
    var all := tables + [table];
    forall name | name in Optional(tables) ensures name in Optional(all) {
      var t :| 0 <= t < |tables| && name in tables[t] && tables[t][name];
      assert all[t] == tables[t];
    }
    forall name | name in Optional([table]) ensures name in Optional(all) {
      assert all[|tables|] == table;
    }
    forall name | name in Optional(all) ensures name in Optional(tables) + Optional([table]) {
      var t :| 0 <= t < |all| && name in all[t] && all[t][name];
      if t == |tables| { assert [table][0] == table; }
    }
  }

  method ReadTables(tables: seq<map<string, bool>>, suppressed: set<string>, graph: Graph)
    returns (fuller: Graph, optional: set<string>)
    ensures optional == Optional(tables) && fuller == With(graph, Optional(tables) - suppressed)
  {
    fuller, optional := graph, {};
    for t := 0 to |tables|
      invariant optional == Optional(tables[..t])
      invariant fuller == With(graph, optional - suppressed)
    {
      assert tables[..t + 1] == tables[..t] + [tables[t]];
      OptionalOfMore(tables[..t], tables[t]);
      fuller, optional := ReadDependencies(tables[t], suppressed, fuller, optional);
    }
    assert tables[..|tables|] == tables;
  }

  method Suppress(graph: Graph) returns (suppressed: set<string>)
    ensures suppressed == Suppressed(graph)
  {
    hide Sorted, Ascending, Before, StrippedIn;
    suppressed := {};
    var names := SortedKeys(graph.Keys);
    for k := 0 to |names|
      invariant forall d :: d in suppressed <==> exists a :: a in names[..k] && a in graph && d in StrippedIn(graph[a])
    {
      assert names[..k + 1] == names[..k] + [names[k]];
      assert names[k] in graph.Keys;
      suppressed := StripAll(graph[names[k]], suppressed);
    }
    assert names[..|names|] == names;
  }

  method StripAll(edges: seq<string>, suppressed: set<string>) returns (more: set<string>)
    ensures more == suppressed + StrippedIn(edges)
  {
    hide Stripped;
    more := suppressed;
    for e := 0 to |edges|
      invariant more == suppressed + set i | 0 <= i < e && Stripped(edges[i]).Some? :: Stripped(edges[i]).value
    {
      if Stripped(edges[e]).Some? { more := more + {Stripped(edges[e]).value}; }
    }
  }

  method Select(graph: Graph, upper: string -> string, enabled: string -> bool) returns (selected: Option<seq<string>>)
    ensures selected.None? <==> Collide(graph, upper)
    ensures selected.Some? ==> Members(selected.value) == Chosen(graph, upper, enabled)
  {
    hide Sorted, Before, Ascending, Variable, Collide;
    var names := SortedKeys(graph.Keys);
    var environment: set<string> := {};
    var listed := [];
    for k := 0 to |names|
      invariant environment == set j | 0 <= j < k :: Variable(upper, names[j])
      invariant forall i, j :: 0 <= i < j < k ==> Variable(upper, names[i]) != Variable(upper, names[j])
      invariant forall name :: name in listed <==> name in names[..k] && enabled(Variable(upper, name))
    {
      var variable := Variable(upper, names[k]);
      assert names[..k + 1] == names[..k] + [names[k]];
      if variable in environment {
        var j :| 0 <= j < k && Variable(upper, names[j]) == variable;
        Collision(graph, upper, names, j, k);
        return None;
      }
      environment := environment + {variable};
      if enabled(variable) { listed := listed + [names[k]]; }
    }
    assert names[..|names|] == names;
    NoCollision(graph, upper, names);
    return Some(listed);
  }

  lemma Collision(graph: Graph, upper: string -> string, names: seq<string>, j: nat, k: nat)
    requires Ascending(names) && j < k < |names| && Variable(upper, names[j]) == Variable(upper, names[k])
    requires forall name :: name in names ==> name in graph
    ensures Collide(graph, upper)
  {
    hide Variable;
    BeforeIrreflexive(names[k]);
    assert Before(names[j], names[k]) && names[j] in names && names[k] in names;
  }

  lemma NoCollision(graph: Graph, upper: string -> string, names: seq<string>)
    requires forall name :: name in names <==> name in graph
    requires forall i, j :: 0 <= i < j < |names| ==> Variable(upper, names[i]) != Variable(upper, names[j])
    ensures !Collide(graph, upper)
  {
    hide Variable;
    forall a, b | a in graph && b in graph && a != b ensures Variable(upper, a) != Variable(upper, b) {
      assert a in names && b in names;
      var i :| 0 <= i < |names| && names[i] == a;
      var j :| 0 <= j < |names| && names[j] == b;
    }
  }

  method FromManifest(manifest: Manifest, upper: string -> string, enabled: string -> bool) returns (r: Result<Selection>)
    ensures r == Identity(manifest, upper, enabled)
  {
    hide Sorted, Ascending, Before, Variable, Normalized, Declared, Suppressed, ProfileOf;
    var declared := ReadGraph(manifest);
    if declared.Err? { return Err; }
    var graph := declared.value;
    var suppressed := Suppress(graph);
    var optional;
    graph, optional := ReadTables(manifest.tables, suppressed, graph);
    assert graph == Expanded(declared.value, manifest.tables);
    var selected := Select(graph, upper, enabled);
    if selected.None? { return Err; }
    var features := Normalize(graph, optional, selected.value);
    if features.Err? { return Err; }
    var root := if "default" in graph then ["default"] else [];
    assert Members(root) == Default(graph);
    var defaults := Normalize(graph, optional, root);
    if defaults.Err? { return Err; }
    return Ok(Selection(features.value, ProfileOf(features.value, defaults.value)));
  }

  // ---- What the identity does not depend on ------------------------------

  /** The manifest with some implicit features written out as `name = ["dep:name"]`. */
  function Explicit(manifest: Manifest, names: set<string>): Manifest
    requires manifest.features.Some?
  {
    var table := manifest.features.value;
    manifest.(features := Some(map name | name in table.Keys + names ::
      if name in names then Array([Text(DEP + name)]) else table[name]))
  }

  lemma ExplicitDeclared(manifest: Manifest, names: set<string>)
    requires Declared(manifest).Ok? && names !! Declared(manifest).value.Keys
    ensures Declared(Explicit(manifest, names)).Ok?
    ensures var (plain, spelled) := (Declared(manifest).value, Declared(Explicit(manifest, names)).value);
            && spelled.Keys == plain.Keys + names
            && forall name :: name in spelled ==> spelled[name] == if name in names then [DEP + name] else plain[name]
  {
    forall name | name in names ensures Texts(Array([Text(DEP + name)])) == [DEP + name] {
    }
  }

  /** The spelled-out features suppress exactly themselves. */
  lemma ExplicitSuppressed(plain: Graph, spelled: Graph, names: set<string>)
    requires names !! plain.Keys && spelled.Keys == plain.Keys + names
    requires forall name :: name in spelled ==> spelled[name] == if name in names then [DEP + name] else plain[name]
    ensures Suppressed(spelled) == Suppressed(plain) + names
  {
    forall name ensures Stripped(DEP + name) == Some(name) {
      assert (DEP + name)[|DEP|..] == name;
    }
    forall d ensures d in Suppressed(spelled) <==> d in Suppressed(plain) + names {
      if d in names { assert Stripped(spelled[d][0]) == Some(d) && d in StrippedIn(spelled[d]); }
      if d in Suppressed(plain) {
        var a :| a in plain && d in StrippedIn(plain[a]);
        assert d in StrippedIn(spelled[a]);
      }
      if d in Suppressed(spelled) {
        var a :| a in spelled && d in StrippedIn(spelled[a]);
        if a in names { assert d == a; } else { assert d in StrippedIn(plain[a]); }
      }
    }
  }

  lemma ExplicitLeads(plain: Graph, spelled: Graph, tables: seq<map<string, bool>>, names: set<string>)
    requires names !! plain.Keys && spelled.Keys == plain.Keys + names && names <= Implicit(plain, tables)
    requires forall name :: name in spelled ==> spelled[name] == if name in names then [DEP + name] else plain[name]
    ensures Expanded(spelled, tables).Keys == Expanded(plain, tables).Keys
    ensures forall x, y :: Leads(Expanded(spelled, tables), Optional(tables), x, y) <==> Leads(Expanded(plain, tables), Optional(tables), x, y)
  {
    hide Target;
    ExplicitSuppressed(plain, spelled, names);
    var (full, other) := (Expanded(plain, tables), Expanded(spelled, tables));
    assert other.Keys == full.Keys;
    forall x, y ensures Leads(other, Optional(tables), x, y) <==> Leads(full, Optional(tables), x, y) {
      ExplicitEdge(full, other, Optional(tables), names, x, y);
    }
  }

  lemma ExplicitEdge(full: Graph, other: Graph, optional: set<string>, names: set<string>, x: string, y: string)
    requires other.Keys == full.Keys
    requires x in full ==> if x in names then other[x] == [DEP + x] && full[x] == [] else other[x] == full[x]
    ensures Leads(other, optional, x, y) <==> Leads(full, optional, x, y)
  {
    forall edge ensures Target(full, optional, edge) == Target(other, optional, edge) {
      SameTarget(full, other, optional, edge);
    }
    hide Target;
    assert x in full.Keys <==> x in other.Keys;
    if x in full && x in names {
      assert Target(other, optional, DEP + x) == None by { SpelledTarget(other, optional, x); }
    }
  }

  lemma SpelledTarget(graph: Graph, optional: set<string>, name: string)
    ensures Target(graph, optional, DEP + name) == None
  {
  }

  lemma SameTarget(a: Graph, b: Graph, optional: set<string>, edge: string)
    requires a.Keys == b.Keys
    ensures Target(a, optional, edge) == Target(b, optional, edge)
  {
    forall x ensures x in a <==> x in b {
      assert x in a.Keys <==> x in b.Keys;
    }
  }

  /** Writing out any of the implicit features leaves features and profile as they
      were, whatever Cargo enabled. */
  lemma SpellingDoesNotMatter(manifest: Manifest, names: set<string>, upper: string -> string, enabled: string -> bool)
    requires Declared(manifest).Ok? && names <= Implicit(Declared(manifest).value, manifest.tables)
    ensures Identity(Explicit(manifest, names), upper, enabled) == Identity(manifest, upper, enabled)
  {
    hide Leads, Normalized, Implicit, ProfileOf;
    assert names !! Declared(manifest).value.Keys by { ImplicitIsNew(Declared(manifest).value, manifest.tables); }
    ExplicitDeclared(manifest, names);
    var (plain, spelled) := (Declared(manifest).value, Declared(Explicit(manifest, names)).value);
    ExplicitLeads(plain, spelled, manifest.tables, names);
    var (full, other) := (Expanded(plain, manifest.tables), Expanded(spelled, manifest.tables));
    SameNamesSameChoice(full, other, upper, enabled);
    SameLeadsSameNormalized(full, other, Optional(manifest.tables), Chosen(full, upper, enabled));
    SameLeadsSameNormalized(full, other, Optional(manifest.tables), Default(full));
  }

  lemma ImplicitIsNew(declared: Graph, tables: seq<map<string, bool>>)
    ensures Implicit(declared, tables) !! declared.Keys
  {
  }

  lemma SameNamesSameChoice(a: Graph, b: Graph, upper: string -> string, enabled: string -> bool)
    requires a.Keys == b.Keys
    ensures Collide(a, upper) <==> Collide(b, upper)
    ensures Chosen(a, upper, enabled) == Chosen(b, upper, enabled) && Default(a) == Default(b)
  {
    forall x ensures x in a <==> x in b {
      assert x in a.Keys <==> x in b.Keys;
    }
  }

  /** The variables Cargo sets for a set of features. */
  function Variables(upper: string -> string, names: set<string>): set<string> {
    set name | name in names :: Variable(upper, name)
  }

  /** Without a collision the environment names exactly the features it came from. */
  lemma EnvironmentRoundTrip(graph: Graph, upper: string -> string, names: set<string>)
    requires names <= graph.Keys && !Collide(graph, upper)
    ensures Chosen(graph, upper, v => v in Variables(upper, names)) == names
  {
    hide Variable;
    var chosen := Chosen(graph, upper, v => v in Variables(upper, names));
    forall name | name in chosen ensures name in names {
      var other :| other in names && Variable(upper, other) == Variable(upper, name);
    }
    forall name | name in names ensures name in chosen {
      assert Variable(upper, name) in Variables(upper, names);
    }
  }

  /** Cargo may pass the user's choice or anything it expands to: the identity is
      the same. */
  lemma ExpansionDoesNotMatter(manifest: Manifest, upper: string -> string, wanted: set<string>, expanded: set<string>)
    requires Declared(manifest).Ok?
    requires var graph := Expanded(Declared(manifest).value, manifest.tables);
             wanted <= expanded <= Closure(graph, Optional(manifest.tables), wanted) && expanded <= graph.Keys
    ensures Identity(manifest, upper, v => v in Variables(upper, expanded)) == Identity(manifest, upper, v => v in Variables(upper, wanted))
  {
    hide Closure, Normalized, Chosen, Variables, Declared, Expanded, Optional;
    var graph := Expanded(Declared(manifest).value, manifest.tables);
    if !Collide(graph, upper) {
      EnvironmentRoundTrip(graph, upper, wanted);
      EnvironmentRoundTrip(graph, upper, expanded);
      NormalizedExpanded(graph, Optional(manifest.tables), wanted, expanded);
    }
  }

  /** The profile is a fact about sets: nothing listed, exactly what the default
      build lists, exactly the two shared-mode features, or anything else. */
  lemma ProfileNamesTheSet(graph: Graph, optional: set<string>, chosen: set<string>)
    requires Selected(graph, optional, chosen).Ok?
    ensures var listed := Closure(graph, optional, chosen) - {"default", "otel"};
            var defaults := Closure(graph, optional, if "default" in graph then {"default"} else {}) - {"default", "otel"};
            var shared := {"db-postgres", "multi-instance"};
            var r := Selected(graph, optional, chosen).value;
            && Ascending(r.features) && Members(r.features) == listed
            && (r.profile == Gateway <==> listed == {})
            && (r.profile == Full <==> listed != {} && listed == defaults)
            && (r.profile == GatewayShared <==> listed == shared && listed != defaults)
            && (r.profile == Custom <==> listed != {} && listed != defaults && listed != shared)
  {
    hide Closure, Sorted, Ascending;
    var listed := Closure(graph, optional, chosen) - UNLISTED;
    var defaults := Closure(graph, optional, Default(graph)) - UNLISTED;
    SharedListing();
    SortedNames(listed, defaults);
    SortedNames(listed, {"db-postgres", "multi-instance"});
    SortedNames(listed, {});
    assert Sorted({}) == [] by { SortedUnique([], {}); }
  }

  /** A listing determines its set. */
  lemma SortedNames(a: set<string>, b: set<string>)
    ensures Members(Sorted(a)) == a && (Sorted(a) == Sorted(b) <==> a == b)
  {
    if Sorted(a) == Sorted(b) {
      assert forall x :: x in a <==> x in Sorted(a);
      assert forall x :: x in b <==> x in Sorted(b);
    }
  }

  lemma SharedListing()
    ensures Sorted({"db-postgres", "multi-instance"}) == ["db-postgres", "multi-instance"]
  {
    var listing := ["db-postgres", "multi-instance"];
    assert Before(listing[0], listing[1]);
    SortedUnique(listing, {"db-postgres", "multi-instance"});
  }

  /** Cargo's default build is the full distribution, unless it lists nothing. */
  lemma DefaultBuildIsFull(graph: Graph, optional: set<string>, chosen: set<string>)
    requires "default" in graph && {"default"} <= chosen <= Closure(graph, optional, {"default"})
    requires Selected(graph, optional, chosen).Ok?
    ensures Selected(graph, optional, chosen).value.profile == Full || Selected(graph, optional, chosen).value.features == []
  {
    NormalizedExpanded(graph, optional, {"default"}, chosen);
  }

  // ---- The manifest's words, read without the functions above -------------

  /** Where each written form of an edge leads: a `dep:` edge nowhere, `d/f` to `d`
      if that is an optional dependency with a feature, any other name to itself. */
  lemma EdgeForms(graph: Graph, optional: set<string>, d: string, f: string)
    ensures Target(graph, optional, "dep:" + d) == None
    ensures '/' !in d && !("dep:" <= d + "/" + f) ==>
              Target(graph, optional, d + "/" + f) == if d in optional && d in graph then Some(d) else None
    ensures '/' !in d && !("dep:" <= d) ==> Target(graph, optional, d) == Some(d)
  {
    if '/' !in d { SlashAtFirst(d, f); }
  }

  lemma {:induction false} SlashAtFirst(d: string, f: string)
    requires '/' !in d
    ensures Slash(d + "/" + f) == Some(d) && Slash(d) == None
  {
    if d != [] {
      SlashAtFirst(d[1..], f);
      assert (d + "/" + f)[1..] == d[1..] + "/" + f && d == [d[0]] + d[1..];
    }
  }

  /** The features of the whole graph: the declared ones with their edges, and an
      edgeless one for each dependency some table marks optional unless a feature is
      declared under its name or some edge is `dep:` and that name. */
  lemma WholeGraph(manifest: Manifest, name: string)
    requires Declared(manifest).Ok?
    ensures var (features, graph) := (manifest.features.value, Expanded(Declared(manifest).value, manifest.tables));
            var marked := exists t :: 0 <= t < |manifest.tables| && name in manifest.tables[t] && manifest.tables[t][name];
            var suppressed := exists a, i :: a in features && 0 <= i < |features[a].edges| && features[a].edges[i] == Text("dep:" + name);
            && (name in graph <==> name in features || (marked && !suppressed))
            && (name in features ==> |graph[name]| == |features[name].edges|)
            && (name in features ==> forall i :: 0 <= i < |graph[name]| ==> features[name].edges[i] == Text(graph[name][i]))
            && (name in graph && name !in features ==> graph[name] == [])
  {
    var (features, declared) := (manifest.features.value, Declared(manifest).value);
    SuppressedNames(declared, name);
    if a, i :| a in declared && 0 <= i < |declared[a]| && declared[a][i] == "dep:" + name {
      assert features[a].edges[i] == Text("dep:" + name);
    }
    if a, i :| a in features && 0 <= i < |features[a].edges| && features[a].edges[i] == Text("dep:" + name) {
      assert WellFormed(features[a]) && declared[a] == Texts(features[a]);
      assert declared[a][i] == "dep:" + name;
    }
  }

  lemma SuppressedNames(graph: Graph, name: string)
    ensures name in Suppressed(graph) <==> exists a, i :: a in graph && 0 <= i < |graph[a]| && graph[a][i] == "dep:" + name
  {
    assert Stripped("dep:" + name) == Some(name) by { assert ("dep:" + name)[4..] == name; }
    if name in Suppressed(graph) {
      var a :| a in graph && name in StrippedIn(graph[a]);
      var i :| 0 <= i < |graph[a]| && Stripped(graph[a][i]) == Some(name);
      assert graph[a][i] == graph[a][i][..4] + graph[a][i][4..];
    }
    if a, i :| a in graph && 0 <= i < |graph[a]| && graph[a][i] == "dep:" + name {
      assert name in StrippedIn(graph[a]);
    }
  }

  /** The variable Cargo sets for a feature: the prefix, then the name with '-' read
      as '_', in upper case. */
  ghost predicate CargoSets(upper: string -> string, name: string, variable: string) {
    exists spelled: string ::
      && |spelled| == |name|
      && (forall i :: 0 <= i < |name| ==> spelled[i] == if name[i] == '-' then '_' else name[i])
      && variable == "CARGO_FEATURE_" + upper(spelled)
  }

  lemma VariableIsCargos(upper: string -> string, name: string, variable: string)
    ensures CargoSets(upper, name, variable) <==> variable == Variable(upper, name)
  {
    var own := Underscored(name);
    assert |own| == |name| && forall i :: 0 <= i < |name| ==> own[i] == if name[i] == '-' then '_' else name[i];
    if CargoSets(upper, name, variable) {
      var spelled: string :|
        && |spelled| == |name|
        && (forall i :: 0 <= i < |name| ==> spelled[i] == if name[i] == '-' then '_' else name[i])
        && variable == "CARGO_FEATURE_" + upper(spelled);
      assert spelled == own;
    }
  }

  /** The environment Cargo writes for a set of features, and nothing else. */
  ghost predicate CargoEnvironment(upper: string -> string, names: set<string>, enabled: string -> bool) {
    forall variable :: enabled(variable) <==> exists name :: name in names && CargoSets(upper, name, variable)
  }

  /** Under Cargo's own environment for a set of features exactly that set is
      selected, unless two features share a variable: then the manifest is refused. */
  lemma CargoSelects(manifest: Manifest, upper: string -> string, names: set<string>, enabled: string -> bool)
    requires Declared(manifest).Ok? && CargoEnvironment(upper, names, enabled)
    requires names <= Expanded(Declared(manifest).value, manifest.tables).Keys
    ensures var graph := Expanded(Declared(manifest).value, manifest.tables);
            var shared := exists a, b, variable :: a in graph && b in graph && a != b && CargoSets(upper, a, variable) && CargoSets(upper, b, variable);
            Identity(manifest, upper, enabled) == if shared then Err else Selected(graph, Optional(manifest.tables), names)
  {
    hide Variable, CargoSets, Expanded, Declared, Optional, Selected;
    var graph := Expanded(Declared(manifest).value, manifest.tables);
    forall name, variable ensures CargoSets(upper, name, variable) <==> variable == Variable(upper, name) {
      VariableIsCargos(upper, name, variable);
    }
    if a, b :| a in graph && b in graph && a != b && Variable(upper, a) == Variable(upper, b) {
      assert CargoSets(upper, a, Variable(upper, a)) && CargoSets(upper, b, Variable(upper, a));
    }
    if !Collide(graph, upper) { EnvironmentSelects(graph, upper, names, enabled); }
  }

  lemma EnvironmentSelects(graph: Graph, upper: string -> string, names: set<string>, enabled: string -> bool)
    requires names <= graph.Keys && !Collide(graph, upper) && CargoEnvironment(upper, names, enabled)
    ensures Chosen(graph, upper, enabled) == names
  {
    hide Variable, CargoSets;
    forall name ensures CargoSets(upper, name, Variable(upper, name)) {
      VariableIsCargos(upper, name, Variable(upper, name));
    }
    forall name | name in Chosen(graph, upper, enabled) ensures name in names {
      var other :| other in names && CargoSets(upper, other, Variable(upper, name));
      VariableIsCargos(upper, other, Variable(upper, name));
    }
  }

  /** Names that differ only in '-' against '_' share a variable, so a manifest with
      both is refused. */
  lemma HyphensCollide(manifest: Manifest, upper: string -> string, enabled: string -> bool, a: string, b: string)
    requires Declared(manifest).Ok? && a != b && |a| == |b|
    requires forall i :: 0 <= i < |a| ==> a[i] == b[i] || {a[i], b[i]} == {'-', '_'}
    requires a in Expanded(Declared(manifest).value, manifest.tables) && b in Expanded(Declared(manifest).value, manifest.tables)
    ensures Identity(manifest, upper, enabled) == Err
  {
    hide Expanded, Declared;
    forall i | 0 <= i < |a| ensures Underscored(a)[i] == Underscored(b)[i] {
      assert a[i] in {a[i], b[i]} && b[i] in {a[i], b[i]};
    }
    assert Underscored(a) == Underscored(b);
    assert Variable(upper, a) == Variable(upper, b);
  }

  /** Where upper-casing makes no hyphen, no variable holds one. */
  lemma VariablesHoldNoHyphen(upper: string -> string, name: string)
    requires forall text :: '-' !in text ==> '-' !in upper(text)
    ensures '-' !in Variable(upper, name)
  {
    assert '-' !in Underscored(name);
    assert '-' !in "CARGO_FEATURE_";
  }

  function AsciiUpper(text: string): string {
    seq(|text|, i requires 0 <= i < |text| =>
      if 'a' <= text[i] <= 'z' then (text[i] as int - 32) as char else text[i])
  }

  lemma SharedModeVariable()
    ensures Variable(AsciiUpper, "db-postgres") == "CARGO_FEATURE_DB_POSTGRES"
  {
    assert Underscored("db-postgres") == "db_postgres";
    assert AsciiUpper("db_postgres") == "DB_POSTGRES";
  }

  /** The identity in terms of reachability: an error exactly for a bad manifest, a
      collision, or an unknown name reached from the selection or the default; its
      features are the reached ones but two. */
  lemma IdentityIsReachability(manifest: Manifest, upper: string -> string, enabled: string -> bool)
    requires Declared(manifest).Ok? && !Collide(Expanded(Declared(manifest).value, manifest.tables), upper)
    ensures var graph := Expanded(Declared(manifest).value, manifest.tables);
            var (optional, chosen) := (Optional(manifest.tables), Chosen(graph, upper, enabled));
            var roots := if "default" in graph then {"default"} else {};
            var r := Identity(manifest, upper, enabled);
            && (r.Err? <==> exists name :: name !in graph && (Reached(graph, optional, chosen, name) || Reached(graph, optional, roots, name)))
            && (r.Ok? ==> Ascending(r.value.features) && forall name ::
                  name in r.value.features <==> Reached(graph, optional, chosen, name) && name != "default" && name != "otel")
  {
    hide Expanded, Declared, Optional, Reached, Chosen, Leads;
    var graph := Expanded(Declared(manifest).value, manifest.tables);
    var (optional, chosen) := (Optional(manifest.tables), Chosen(graph, upper, enabled));
    NormalizedIsReached(graph, optional, chosen);
    NormalizedIsReached(graph, optional, Default(graph));
  }

  lemma NormalizedIsReached(graph: Graph, optional: set<string>, roots: set<string>)
    ensures Normalized(graph, optional, roots).Err? <==> exists name :: name !in graph && Reached(graph, optional, roots, name)
    ensures Normalized(graph, optional, roots).Ok? ==>
              && Ascending(Normalized(graph, optional, roots).value)
              && forall name :: name in Normalized(graph, optional, roots).value <==>
                   Reached(graph, optional, roots, name) && name != "default" && name != "otel"
  {
    hide Reached, Leads, Before;
    ClosureIsLeast(graph, optional, roots);
    if !(Closure(graph, optional, roots) <= graph.Keys) {
      var name :| name in Closure(graph, optional, roots) && name !in graph.Keys;
      assert name !in graph;
    }
  }
}
