/** The searches of the module-boundary check: runtime workspace cycles and forbidden reachability. */
module ModuleGraph {
  import opened Sequences

  type Graph = map<string, seq<string>>

  function Successors(graph: Graph, name: string): seq<string> { if name in graph then graph[name] else [] }

  ghost predicate IsPath(graph: Graph, p: seq<string>) {
    |p| > 0 && forall i :: 0 <= i < |p| - 1 ==> p[i + 1] in Successors(graph, p[i])
  }

  ghost predicate IsCycle(graph: Graph, p: seq<string>) { |p| >= 2 && IsPath(graph, p) && p[0] == p[|p| - 1] }

  ghost predicate HasCycle(graph: Graph) { exists p :: IsCycle(graph, p) }

  /** What an error message shows: a real path whose last node occurs earlier in it. */
  ghost predicate Reported(graph: Graph, chain: seq<string>) {
    IsPath(graph, chain) && exists i :: 0 <= i < |chain| - 1 && chain[i] == chain[|chain| - 1]
  }

  ghost function Nodes(graph: Graph): set<string> {
    graph.Keys + set k, n | k in graph && n in graph[k] :: n
  }

  lemma PathExtends(graph: Graph, p: seq<string>, next: string)
    requires IsPath(graph, p) && next in Successors(graph, p[|p| - 1])
    ensures IsPath(graph, p + [next])
  { }

  /** A reported chain contains a cycle. */
  lemma ReportedIsCycle(graph: Graph, chain: seq<string>)
    requires Reported(graph, chain)
    ensures HasCycle(graph)
  {
    var i :| 0 <= i < |chain| - 1 && chain[i] == chain[|chain| - 1];
    var p := chain[i..];
    forall j | 0 <= j < |p| - 1 ensures p[j + 1] in Successors(graph, p[j]) {
      assert p[j + 1] == chain[i + j + 1] && p[j] == chain[i + j];
    }
    assert IsCycle(graph, p);
  }

  /** Every edge out of a finished node leads to a node finished before it. */
  ghost predicate FallsAlong(graph: Graph, finished: map<string, nat>) {
    forall v, n :: v in finished && n in Successors(graph, v) ==> n in finished && finished[n] < finished[v]
  }

  lemma FinishNext(graph: Graph, finished: map<string, nat>, name: string, clock: nat)
    requires FallsAlong(graph, finished) && name !in finished
    requires forall n :: n in Successors(graph, name) ==> n in finished
    requires forall v :: v in finished ==> finished[v] < clock
    ensures FallsAlong(graph, finished[name := clock])
  { }

  lemma RepeatIsReported(graph: Graph, chain: seq<string>, name: string)
    requires IsPath(graph, chain + [name]) && name in chain
    ensures Reported(graph, chain + [name])
  {
    var i :| 0 <= i < |chain| && chain[i] == name;
    assert (chain + [name])[i] == name;
  }

  ghost function Unfinished(graph: Graph, visiting: set<string>, complete: set<string>): set<string> {
    Nodes(graph) - visiting - complete
  }

  lemma FewerUnfinished(graph: Graph, visiting: set<string>, complete: set<string>, more: set<string>, name: string)
    requires name in Unfinished(graph, visiting, complete) && complete <= more
    ensures Unfinished(graph, visiting + {name}, more) < Unfinished(graph, visiting, complete)
  { }

  lemma NextIsNode(graph: Graph, name: string, next: string)
    requires next in Successors(graph, name)
    ensures next in Nodes(graph)
  { }

  /** Depth-first search over the runtime workspace graph, with the sets it mutates. */
  class CycleSearch {
    const graph: Graph
    var visiting: set<string>
    var complete: set<string>
    var errors: set<seq<string>>
    /** When each complete node was finished. */
    ghost var finished: map<string, nat>

    constructor (graph: Graph)
      ensures this.graph == graph && Valid() && visiting == {} && complete == {} && errors == {}
    {
      this.graph := graph;
      visiting, complete, errors, finished := {}, {}, {}, map[];
    }

    ghost predicate Valid()
      reads this
    {
      && visiting !! complete
      && finished.Keys == complete
      && (forall e :: e in errors ==> Reported(graph, e))
      && (errors == {} ==> FallsAlong(graph, finished))
    }

    method Visit(name: string, chain: seq<string>)
      requires Valid() && IsPath(graph, chain + [name])
      requires visiting == set n | n in chain
      requires name in Nodes(graph)
      modifies this
      decreases Unfinished(graph, visiting, complete), 0
      ensures Valid() && visiting == old(visiting)
      ensures old(complete) <= complete && old(errors) <= errors
      ensures errors == {} ==> name in complete
    {
      if name in visiting {
        RepeatIsReported(graph, chain, name);
        errors := errors + {chain + [name]};
        return;
      }
      if name in complete { return; }
      FewerUnfinished(graph, visiting, complete, complete, name);
      visiting := visiting + {name};
      VisitAll(name, chain + [name]);
      ghost var clock := Clock(finished);
      if errors == {} { FinishNext(graph, finished, name, clock); }
      visiting, complete, finished := visiting - {name}, complete + {name}, finished[name := clock];
    }

    /** The loop over the successors of the node at the end of the chain. */
    method VisitAll(name: string, chain: seq<string>)
      requires Valid() && IsPath(graph, chain) && chain[|chain| - 1] == name
      requires visiting == set n | n in chain
      modifies this
      decreases Unfinished(graph, visiting, complete), 1
      ensures Valid() && visiting == old(visiting)
      ensures old(complete) <= complete && old(errors) <= errors
      ensures name !in complete
      ensures errors == {} ==> forall n :: n in Successors(graph, name) ==> n in complete
    {
      var nexts := Successors(graph, name);
      for i := 0 to |nexts|
        invariant Valid() && visiting == old(visiting)
        invariant old(complete) <= complete && old(errors) <= errors
        invariant errors == {} ==> forall j :: 0 <= j < i ==> nexts[j] in complete
      {
        PathExtends(graph, chain, nexts[i]);
        NextIsNode(graph, name, nexts[i]);
        assert Unfinished(graph, visiting, complete) <= Unfinished(graph, old(visiting), old(complete));
        Visit(nexts[i], chain);
      }
      assert name in visiting;
    }

    /** Every workspace is visited from an empty chain: an error is reported exactly if the graph
        has a directed cycle, and every reported chain is a real one. */
    method FindCycles()
      requires Valid() && visiting == {} && complete == {} && errors == {}
      modifies this
      ensures errors != {} <==> HasCycle(graph)
      ensures forall e :: e in errors ==> Reported(graph, e)
    {
      var pending := graph.Keys;
      while pending != {}
        invariant Valid() && visiting == {} && pending <= graph.Keys
        invariant errors == {} ==> forall n :: n in graph && n !in pending ==> n in complete
        decreases |pending|
      {
        var name :| name in pending;
        pending := pending - {name};
        assert [] + [name] == [name];
        Visit(name, []);
      }
      if errors != {} {
        var e :| e in errors;
        ReportedIsCycle(graph, e);
      } else {
        NoCycle(graph, finished);
      }
    }
  }

  ghost function Clock(finished: map<string, nat>): (clock: nat)
    ensures forall v :: v in finished ==> finished[v] < clock
  {
    if finished == map[] then 0
    else
      var k :| k in finished;
      var others := finished - {k};
      assert forall v :: v in finished ==> v == k || (v in others && others[v] == finished[v]);
      var rest := Clock(others);
      if rest > finished[k] then rest else finished[k] + 1
  }

  /** Along a path through finished nodes the finishing times fall. */
  lemma {:induction false} FinishedFalls(graph: Graph, finished: map<string, nat>, p: seq<string>, k: nat)
    requires IsPath(graph, p) && 0 < k < |p|
    requires forall n :: n in graph ==> n in finished
    requires FallsAlong(graph, finished)
    ensures p[0] in finished && p[k] in finished && finished[p[k]] < finished[p[0]]
  {
    assert p[k] in Successors(graph, p[k - 1]);
    if k > 1 { FinishedFalls(graph, finished, p, k - 1); }
  }

  lemma NoCycle(graph: Graph, finished: map<string, nat>)
    requires forall n :: n in graph ==> n in finished
    requires FallsAlong(graph, finished)
    ensures !HasCycle(graph)
  {
    forall p ensures !IsCycle(graph, p) {
      if IsCycle(graph, p) { FinishedFalls(graph, finished, p, |p| - 1); }
    }
  }

  // ----- The graph is the runtime dependency relation

  datatype Workspace = Workspace(name: string, directory: string)

  datatype Import = Import(specifier: string, target: Option<string>, typeOnly: bool)

  datatype Module = Module(path: string, imports: seq<Import>, performsIO: bool, privilegedIngestion: bool,
                           ownsTransaction: bool)

  /** The first slash at or after i, or the end. */
  function SlashFrom(s: string, i: nat): (j: nat)
    requires i <= |s|
    ensures i <= j <= |s| && '/' !in s[i..j] && (j < |s| ==> s[j] == '/')
    decreases |s| - i
  {
    if i == |s| || s[i] == '/' then i else SlashFrom(s, i + 1)
  }

  /** The scoped package name at the head of a specifier: an at sign, a scope, a slash and a name. */
  function PackageOf(specifier: string): Option<string> {
    if !("@" <= specifier) then None
    else
      var i := SlashFrom(specifier, 1);
      if i == 1 || i == |specifier| then None
      else
        var j := SlashFrom(specifier, i + 1);
        if j == i + 1 then None else Some(specifier[..j])
  }

  predicate IsSegment(s: string) { s != "" && '/' !in s }

  /** A specifier has a package name exactly if it starts with one that ends at its end or at a slash. */
  lemma PackageOfMeaning(specifier: string, scope: string, name: string)
    requires IsSegment(scope) && IsSegment(name)
    ensures PackageOf(specifier) == Some("@" + scope + "/" + name)
       <==> specifier == "@" + scope + "/" + name || "@" + scope + "/" + name + "/" <= specifier
  {
    var head := "@" + scope + "/";
    if head + name <= specifier && (|specifier| == |head + name| || specifier[|head + name|] == '/') {
      assert specifier[..|head + name|] == head + name;
      assert specifier[1..1 + |scope|] == scope && specifier[1 + |scope|] == '/';
      assert specifier[|head|..|head + name|] == name;
      FirstSlash(specifier, 1, 1 + |scope|, scope);
      FirstSlash(specifier, |head|, |head + name|, name);
    }
    if PackageOf(specifier) == Some(head + name) {
      PackageIsPrefix(specifier, head + name);
      if |head + name| < |specifier| { assert specifier[..|head + name| + 1] == head + name + "/"; }
    }
  }

  lemma FirstSlash(s: string, i: nat, j: nat, segment: string)
    requires i <= j <= |s| && s[i..j] == segment && '/' !in segment && (j < |s| ==> s[j] == '/')
    ensures SlashFrom(s, i) == j
  {
    var k := SlashFrom(s, i);
    forall m | i <= m < j ensures s[m] != '/' { assert s[m] == segment[m - i]; }
    forall m | i <= m < k ensures s[m] != '/' { assert s[m] == s[i..k][m - i]; }
  }

  lemma PackageIsPrefix(specifier: string, package: string)
    requires PackageOf(specifier) == Some(package)
    ensures package <= specifier && (|package| < |specifier| ==> specifier[|package|] == '/')
  { }

  function Owns(path: string): Workspace -> bool { (w: Workspace) => w.directory + "/" <= path }

  function Owner(workspaces: seq<Workspace>, path: string): Option<Workspace> { FirstOf(workspaces, Owns(path)) }

  /** A later workspace of the same name replaces an earlier one. */
  function ByName(workspaces: seq<Workspace>, name: string): Option<Workspace> {
    if workspaces == [] then None
    else if workspaces[|workspaces| - 1].name == name then Some(workspaces[|workspaces| - 1])
    else ByName(workspaces[..|workspaces| - 1], name)
  }

  /** An empty target is no target. */
  predicate HasTarget(entry: Import) { entry.target.Some? && entry.target.value != "" }

  function ImportedWorkspace(workspaces: seq<Workspace>, entry: Import): Option<Workspace> {
    if HasTarget(entry) then Owner(workspaces, entry.target.value)
    else if PackageOf(entry.specifier).Some? then ByName(workspaces, PackageOf(entry.specifier).value)
    else None
  }

  /** The workspace edge an import of a module contributes, if any. */
  function EdgeOf(workspaces: seq<Workspace>, m: Module, entry: Import): Option<(string, string)> {
    var from, to := Owner(workspaces, m.path), ImportedWorkspace(workspaces, entry);
    if from.None? || to.None? || entry.typeOnly || to.value.name == from.value.name then None
    else Some((from.value.name, to.value.name))
  }

  ghost predicate RuntimeDependency(workspaces: seq<Workspace>, modules: seq<Module>, a: string, b: string) {
    exists m, entry :: m in modules && entry in m.imports && EdgeOf(workspaces, m, entry) == Some((a, b))
  }

  ghost predicate Represents(graph: Graph, edges: set<(string, string)>) {
    forall a, b :: b in Successors(graph, a) <==> (a, b) in edges
  }

  method AddEdge(graph: Graph, a: string, b: string, ghost edges: set<(string, string)>) returns (graph': Graph)
    requires Represents(graph, edges)
    ensures Represents(graph', edges + {(a, b)})
  {
    graph' := if b in Successors(graph, a) then graph else graph[a := Successors(graph, a) + [b]];
  }

  ghost function EdgesOf(workspaces: seq<Workspace>, m: Module, imports: seq<Import>): set<(string, string)> {
    set entry | entry in imports && EdgeOf(workspaces, m, entry).Some? :: EdgeOf(workspaces, m, entry).value
  }

  ghost function AllEdges(workspaces: seq<Workspace>, modules: seq<Module>): set<(string, string)> {
    set m, entry | m in modules && entry in m.imports && EdgeOf(workspaces, m, entry).Some?
      :: EdgeOf(workspaces, m, entry).value
  }

  method AddModule(graph: Graph, workspaces: seq<Workspace>, m: Module, ghost edges: set<(string, string)>)
    returns (graph': Graph)
    requires Represents(graph, edges)
    ensures Represents(graph', edges + EdgesOf(workspaces, m, m.imports))
  {
    graph' := graph;
    for i := 0 to |m.imports|
      invariant Represents(graph', edges + EdgesOf(workspaces, m, m.imports[..i]))
    {
      var entry := m.imports[i];
      var edge := EdgeOf(workspaces, m, entry);
      assert m.imports[..i + 1] == m.imports[..i] + [entry];
      ghost var before, after := EdgesOf(workspaces, m, m.imports[..i]), EdgesOf(workspaces, m, m.imports[..i + 1]);
      if edge.Some? {
        assert after == before + {edge.value};
        graph' := AddEdge(graph', edge.value.0, edge.value.1, edges + before);
        assert edges + before + {edge.value} == edges + after;
      } else {
        assert after == before;
      }
    }
    assert m.imports[..|m.imports|] == m.imports;
  }

  /** The graph holds exactly the runtime dependencies between different workspaces. */
  method BuildGraph(workspaces: seq<Workspace>, modules: seq<Module>) returns (graph: Graph)
    ensures forall a, b :: b in Successors(graph, a) <==> RuntimeDependency(workspaces, modules, a, b)
  {
    graph := map[];
    for i := 0 to |modules|
      invariant Represents(graph, AllEdges(workspaces, modules[..i]))
    {
      assert modules[..i + 1] == modules[..i] + [modules[i]];
      ghost var before := AllEdges(workspaces, modules[..i]);
      graph := AddModule(graph, workspaces, modules[i], before);
      assert AllEdges(workspaces, modules[..i + 1]) == before + EdgesOf(workspaces, modules[i], modules[i].imports);
    }
    assert modules[..|modules|] == modules;
    forall a, b ensures b in Successors(graph, a) <==> RuntimeDependency(workspaces, modules, a, b) {
      if RuntimeDependency(workspaces, modules, a, b) {
        var m, entry :| m in modules && entry in m.imports && EdgeOf(workspaces, m, entry) == Some((a, b));
        assert EdgeOf(workspaces, m, entry).value in AllEdges(workspaces, modules);
      }
    }
  }

  ghost predicate DependencyCycle(workspaces: seq<Workspace>, modules: seq<Module>, p: seq<string>) {
    |p| >= 2 && p[0] == p[|p| - 1]
    && forall i :: 0 <= i < |p| - 1 ==> RuntimeDependency(workspaces, modules, p[i], p[i + 1])
  }

  /** The cycle check as a whole, from modules and workspaces to the reported chains. */
  method CheckCycles(workspaces: seq<Workspace>, modules: seq<Module>) returns (errors: set<seq<string>>)
    ensures errors != {} <==> exists p :: DependencyCycle(workspaces, modules, p)
    ensures forall e :: e in errors ==>
              (forall i :: 0 <= i < |e| - 1 ==> RuntimeDependency(workspaces, modules, e[i], e[i + 1]))
              && exists i :: 0 <= i < |e| - 1 && e[i] == e[|e| - 1]
  {
    var graph := BuildGraph(workspaces, modules);
    var search := new CycleSearch(graph);
    search.FindCycles();
    errors := search.errors;
    forall p ensures IsCycle(graph, p) <==> DependencyCycle(workspaces, modules, p) { }
  }

  // ----- Reachability from an entry point

  /** A later module of the same path replaces an earlier one. */
  function ByPath(modules: seq<Module>, path: string): (m: Option<Module>)
    ensures m.Some? ==> m.value in modules && m.value.path == path
  {
    if modules == [] then None
    else if modules[|modules| - 1].path == path then Some(modules[|modules| - 1])
    else ByPath(modules[..|modules| - 1], path)
  }

  /** The searches follow runtime imports whose target is a module. */
  predicate Follows(modules: seq<Module>, entry: Import) {
    !entry.typeOnly && HasTarget(entry) && ByPath(modules, entry.target.value).Some?
  }

  ghost predicate RuntimeImport(modules: seq<Module>, a: string, b: string) {
    ByPath(modules, a).Some?
    && exists entry :: entry in ByPath(modules, a).value.imports && Follows(modules, entry) && entry.target == Some(b)
  }

  ghost predicate Reaches(modules: seq<Module>, root: string, path: string) {
    exists p :: IsImportPath(modules, p) && p[0] == root && p[|p| - 1] == path
  }

  ghost predicate IsImportPath(modules: seq<Module>, p: seq<string>) {
    |p| > 0 && forall i :: 0 <= i < |p| - 1 ==> RuntimeImport(modules, p[i], p[i + 1])
  }

  // ----- What is reported for a module

  datatype Violation =
    | MissingPure(path: string) | MissingProduction(path: string)
    | PerformsIO(path: string) | IODependency(specifier: string, path: string)
    | PrivilegedSupport(path: string) | OwnsTransaction(path: string)

  /** What a module violates by being absent, by itself, and by one of its imports. */
  datatype Check = Check(missing: string -> Violation, own: Module -> set<Violation>,
                         imported: (Import, string) -> set<Violation>)

  const FORBIDDEN_IN_PURE := ["pg", "ajv", "ajv-formats", "@openmasu/contracts/validation", "node:fs", "node:http",
    "node:https", "node:net", "node:dns", "node:child_process", "node:worker_threads"]

  /** The specifier is a forbidden package or lies under one. */
  predicate ForbiddenPureImport(specifier: string) {
    exists name :: name in FORBIDDEN_IN_PURE && (specifier == name || name + "/" <= specifier)
  }

  predicate SeedSupport(path: string) {
    "apps/worker/src/test-support/" <= path
    || path in ["apps/worker/src/seed.ts", "apps/worker/src/seed-safety.ts", "apps/worker/src/verify-parity.ts"]
  }

  predicate ClientOnlyRepository(path: string) {
    path in ["apps/worker/src/ingestion/record-repository.ts", "apps/worker/src/ingestion/fact-projections.ts",
             "apps/worker/src/ingestion/derived-repository.ts", "apps/worker/src/ingestion/bulk-repository.ts"]
  }

  /** Pure entry points: no input or output, and no runtime import that could do it. */
  function PureCheck(): Check {
    Check(
      (path: string) => MissingPure(path),
      (m: Module) => if m.performsIO then {PerformsIO(m.path)} else {},
      (entry: Import, path: string) =>
        if !entry.typeOnly && ForbiddenPureImport(entry.specifier) then {IODependency(entry.specifier, path)} else {})
  }

  /** Production ingestion: no seed or testing support, and no transaction owned by a repository that
      only takes a client. */
  function ProductionCheck(): Check {
    Check(
      (path: string) => MissingProduction(path),
      (m: Module) =>
        (if SeedSupport(m.path) || m.privilegedIngestion then {PrivilegedSupport(m.path)} else {})
        + (if ClientOnlyRepository(m.path) && m.ownsTransaction then {OwnsTransaction(m.path)} else {}),
      (entry: Import, path: string) => {})
  }

  ghost function ImportViolations(check: Check, imports: seq<Import>, path: string): set<Violation> {
    set entry, e | entry in imports && e in check.imported(entry, path) :: e
  }

  ghost function Violations(check: Check, modules: seq<Module>, path: string): set<Violation> {
    match ByPath(modules, path)
    case None => {check.missing(path)}
    case Some(m) => check.own(m) + ImportViolations(check, m.imports, path)
  }

  // ----- The search

  ghost function Targets(modules: seq<Module>, imports: seq<Import>): seq<string> {
    if imports == [] then []
    else
      var entry := imports[|imports| - 1];
      Targets(modules, imports[..|imports| - 1]) + (if Follows(modules, entry) then [entry.target.value] else [])
  }

  ghost function Paths(modules: seq<Module>): set<string> { set m | m in modules :: m.path }

  ghost function ImportGraph(modules: seq<Module>): Graph {
    map path | path in Paths(modules) && ByPath(modules, path).Some?
      :: Targets(modules, ByPath(modules, path).value.imports)
  }

  lemma {:induction false} TargetsMembers(modules: seq<Module>, imports: seq<Import>, b: string)
    ensures b in Targets(modules, imports)
       <==> exists entry :: entry in imports && Follows(modules, entry) && entry.target == Some(b)
  {
    if imports != [] {
      var front, last := imports[..|imports| - 1], imports[|imports| - 1];
      assert imports == front + [last];
      TargetsMembers(modules, front, b);
    }
  }

  lemma {:induction false} FoundByPath(modules: seq<Module>, path: string)
    ensures ByPath(modules, path).Some? ==> path in Paths(modules)
  {
    if modules != [] {
      assert modules == modules[..|modules| - 1] + [modules[|modules| - 1]];
      FoundByPath(modules[..|modules| - 1], path);
    }
  }

  lemma ImportGraphEdges(modules: seq<Module>, a: string, b: string)
    ensures b in Successors(ImportGraph(modules), a) <==> RuntimeImport(modules, a, b)
  {
    FoundByPath(modules, a);
    if ByPath(modules, a).Some? { TargetsMembers(modules, ByPath(modules, a).value.imports, b); }
  }

  /** Depth-first reachability from one entry point, collecting what each module reached violates. */
  class ReachSearch {
    const check: Check
    const modules: seq<Module>
    var visited: set<string>
    var errors: set<Violation>

    constructor (check: Check, modules: seq<Module>)
      ensures this.check == check && this.modules == modules && visited == {} && errors == {}
    {
      this.check, this.modules, visited, errors := check, modules, {}, {};
    }

    ghost function Edges(): Graph { ImportGraph(modules) }

    ghost predicate AddedSince(root: string, seen: set<string>, reported: set<Violation>)
      reads this
    {
      Added(check, modules, root, seen, reported, visited, errors)
    }

    method Search(path: string, ghost root: string)
      requires Reachable(Edges(), root, path) && path in Nodes(Edges()) + {root}
      modifies this
      decreases Nodes(Edges()) + {root} - visited, 0
      ensures AddedSince(root, old(visited), old(errors)) && path in visited
    {
      if path in visited {
        NothingAdded(check, modules, root, visited, errors);
        return;
      }
      visited := visited + {path};
      var m := ByPath(modules, path);
      if m.None? {
        errors := errors + {check.missing(path)};
        NothingAdded(check, modules, root, visited, errors);
      } else {
        errors := errors + check.own(m.value);
        SearchImports(path, m.value, root);
        MoreReported(old(errors), check.own(m.value), ImportViolations(check, m.value.imports, path));
      }
      OneAdded(check, modules, root, old(visited), old(errors), path, visited, errors);
    }

    /** The loop over the imports of a module. */
    method SearchImports(path: string, m: Module, ghost root: string)
      requires Reachable(Edges(), root, path) && ByPath(modules, path) == Some(m)
      modifies this
      decreases Nodes(Edges()) + {root} - visited, 2
      ensures AddedSince(root, old(visited), old(errors) + ImportViolations(check, m.imports, path))
      ensures forall n :: n in Successors(Edges(), path) ==> n in visited
    {
      NothingAdded(check, modules, root, visited, errors);
      for i := 0 to |m.imports|
        invariant old(visited) <= visited
        invariant AddedSince(root, old(visited), old(errors) + ImportViolations(check, m.imports[..i], path))
        invariant forall j :: 0 <= j < i && Follows(modules, m.imports[j]) ==> m.imports[j].target.value in visited
      {
        ghost var seen, before := visited, errors;
        SearchImport(path, m, m.imports[i], root);
        OneMoreImport(check, modules, root, old(visited), old(errors), m.imports, i, path,
                      seen, before, visited, errors);
      }
      assert m.imports[..|m.imports|] == m.imports;
      AllFollowed(modules, path, m, visited);
    }

    method SearchImport(path: string, m: Module, entry: Import, ghost root: string)
      requires Reachable(Edges(), root, path) && ByPath(modules, path) == Some(m) && entry in m.imports
      modifies this
      decreases Nodes(Edges()) + {root} - visited, 1
      ensures AddedSince(root, old(visited), old(errors) + check.imported(entry, path))
      ensures Follows(modules, entry) ==> entry.target.value in visited
    {
      errors := errors + check.imported(entry, path);
      NothingAdded(check, modules, root, visited, errors);
      if Follows(modules, entry) {
        ImportGraphEdges(modules, path, entry.target.value);
        ReachableNext(Edges(), root, path, entry.target.value);
        NextIsNode(Edges(), path, entry.target.value);
        Search(entry.target.value, root);
      }
    }
  }

  lemma MoreReported(reported: set<Violation>, own: set<Violation>, imported: set<Violation>)
    ensures reported + own + imported == reported + (own + imported)
  { }

  lemma AllFollowed(modules: seq<Module>, path: string, m: Module, visited: set<string>)
    requires ByPath(modules, path) == Some(m)
    requires forall j :: 0 <= j < |m.imports| && Follows(modules, m.imports[j]) ==> m.imports[j].target.value in visited
    ensures forall n :: n in Successors(ImportGraph(modules), path) ==> n in visited
  {
    forall n | n in Successors(ImportGraph(modules), path) ensures n in visited { ImportGraphEdges(modules, path, n); }
  }

  /** A turn of the loop over the imports. */
  lemma OneMoreImport(check: Check, modules: seq<Module>, root: string, first: set<string>, reported: set<Violation>,
                      imports: seq<Import>, i: nat, path: string,
                      second: set<string>, before: set<Violation>, visited: set<string>, errors: set<Violation>)
    requires i < |imports|
    requires Added(check, modules, root, first, reported + ImportViolations(check, imports[..i], path), second, before)
    requires Added(check, modules, root, second, before + check.imported(imports[i], path), visited, errors)
    ensures Added(check, modules, root, first, reported + ImportViolations(check, imports[..i + 1], path),
                  visited, errors)
    ensures second <= visited
  {
    AddedAfter(check, modules, root, first, reported + ImportViolations(check, imports[..i], path),
               second, before, visited, errors, check.imported(imports[i], path));
    ImportViolationsGrow(check, imports[..i], imports[i], path, reported);
    assert imports[..i + 1] == imports[..i] + [imports[i]];
  }

  lemma ImportViolationsGrow(check: Check, imports: seq<Import>, entry: Import, path: string, reported: set<Violation>)
    ensures reported + ImportViolations(check, imports + [entry], path)
         == reported + ImportViolations(check, imports, path) + check.imported(entry, path)
  {
    forall x ensures x in imports + [entry] <==> x in imports || x == entry { }
  }

  /** What a search adds: reachable nodes, closed under edges, and exactly their violations. */
  ghost predicate Added(check: Check, modules: seq<Module>, root: string,
                        seen: set<string>, reported: set<Violation>, visited: set<string>, errors: set<Violation>)
  {
    && seen <= visited
    && (forall v :: v in visited - seen ==> Reachable(ImportGraph(modules), root, v))
    && ClosedBetween(ImportGraph(modules), visited, seen)
    && errors == reported + Found(check, modules, visited - seen)
  }

  lemma NothingAdded(check: Check, modules: seq<Module>, root: string, visited: set<string>, errors: set<Violation>)
    ensures Added(check, modules, root, visited, errors, visited, errors)
  { }

  lemma OneAdded(check: Check, modules: seq<Module>, root: string, seen: set<string>, reported: set<Violation>,
                 path: string, visited: set<string>, errors: set<Violation>)
    requires path !in seen && Reachable(ImportGraph(modules), root, path)
    requires Added(check, modules, root, seen + {path}, reported + Violations(check, modules, path), visited, errors)
    requires forall n :: n in Successors(ImportGraph(modules), path) ==> n in visited
    ensures Added(check, modules, root, seen, reported, visited, errors)
  { }

  lemma AddedTwice(check: Check, modules: seq<Module>, root: string, first: set<string>, reported: set<Violation>,
                   second: set<string>, more: set<Violation>, visited: set<string>, errors: set<Violation>)
    requires Added(check, modules, root, first, reported, second, more)
    requires Added(check, modules, root, second, more, visited, errors)
    ensures Added(check, modules, root, first, reported, visited, errors)
  { }

  /** A search after another, whose report starts with something more. */
  lemma AddedAfter(check: Check, modules: seq<Module>, root: string, first: set<string>, reported: set<Violation>,
                   second: set<string>, before: set<Violation>, visited: set<string>, errors: set<Violation>,
                   more: set<Violation>)
    requires Added(check, modules, root, first, reported, second, before)
    requires Added(check, modules, root, second, before + more, visited, errors)
    ensures Added(check, modules, root, first, reported + more, visited, errors)
  {
    AddedTwice(check, modules, root, first, reported + more, second, before + more, visited, errors);
  }

  /** Edges out of the new nodes lead to nodes already seen. */
  ghost predicate ClosedBetween(edges: Graph, seen: set<string>, apart: set<string>) {
    forall v, n :: v in seen - apart && n in Successors(edges, v) ==> n in seen
  }

  ghost function Found(check: Check, modules: seq<Module>, paths: set<string>): set<Violation> {
    set p, e | p in paths && e in Violations(check, modules, p) :: e
  }

  ghost predicate Reachable(edges: Graph, root: string, path: string) {
    exists p :: IsPath(edges, p) && p[0] == root && p[|p| - 1] == path
  }

  lemma ReachableSelf(edges: Graph, root: string)
    ensures Reachable(edges, root, root)
  {
    assert IsPath(edges, [root]);
  }

  lemma ReachableNext(edges: Graph, root: string, path: string, next: string)
    requires Reachable(edges, root, path) && next in Successors(edges, path)
    ensures Reachable(edges, root, next)
  {
    var p :| IsPath(edges, p) && p[0] == root && p[|p| - 1] == path;
    PathExtends(edges, p, next);
    assert (p + [next])[0] == root && (p + [next])[|p + [next]| - 1] == next;
  }

  lemma {:induction false} ClosedHoldsPath(edges: Graph, seen: set<string>, p: seq<string>, k: nat)
    requires IsPath(edges, p) && p[0] in seen && k < |p|
    requires forall v, n :: v in seen && n in Successors(edges, v) ==> n in seen
    ensures p[k] in seen
  {
    if k > 0 {
      ClosedHoldsPath(edges, seen, p, k - 1);
      assert p[k] in Successors(edges, p[k - 1]);
    }
  }

  lemma ReachableMeansReaches(modules: seq<Module>, root: string, path: string)
    ensures Reachable(ImportGraph(modules), root, path) <==> Reaches(modules, root, path)
  {
    forall p: seq<string> ensures IsPath(ImportGraph(modules), p) <==> IsImportPath(modules, p) {
      forall i | 0 <= i < |p| - 1
        ensures p[i + 1] in Successors(ImportGraph(modules), p[i]) <==> RuntimeImport(modules, p[i], p[i + 1])
      {
        ImportGraphEdges(modules, p[i], p[i + 1]);
      }
    }
  }

  ghost predicate ReportedFrom(check: Check, modules: seq<Module>, root: string, e: Violation) {
    exists v :: Reaches(modules, root, v) && e in Violations(check, modules, v)
  }

  /** From one entry point exactly the modules it reaches over runtime imports are visited, and
      exactly their violations reported; a missing entry point is one. */
  method CheckEntrypoint(check: Check, modules: seq<Module>, root: string)
    returns (visited: set<string>, errors: set<Violation>)
    ensures forall v :: v in visited <==> Reaches(modules, root, v)
    ensures forall e :: e in errors <==> ReportedFrom(check, modules, root, e)
  {
    var search := new ReachSearch(check, modules);
    ghost var edges := search.Edges();
    ReachableSelf(edges, root);
    search.Search(root, root);
    visited, errors := search.visited, search.errors;
    assert visited - {} == visited;
    forall v ensures v in visited <==> Reaches(modules, root, v) {
      ReachableMeansReaches(modules, root, v);
      if Reachable(edges, root, v) {
        var p :| IsPath(edges, p) && p[0] == root && p[|p| - 1] == v;
        ClosedHoldsPath(edges, visited, p, |p| - 1);
      }
    }
  }

  method CheckRoots(check: Check, modules: seq<Module>, roots: seq<string>) returns (errors: set<(string, Violation)>)
    ensures forall root, e :: (root, e) in errors <==> root in roots && ReportedFrom(check, modules, root, e)
  {
    errors := {};
    for i := 0 to |roots|
      invariant forall root, e :: (root, e) in errors <==> root in roots[..i] && ReportedFrom(check, modules, root, e)
    {
      var _, found := CheckEntrypoint(check, modules, roots[i]);
      assert roots[..i + 1] == roots[..i] + [roots[i]];
      errors := errors + set e | e in found :: (roots[i], e);
    }
    assert roots[..|roots|] == roots;
  }

  /** Both lists of entry points, each under its own rules: an error for a root is a violation of a
      module that the root reaches, and every such violation is reported. */
  method CheckEntrypoints(modules: seq<Module>, pureRoots: seq<string>, ingestionRoots: seq<string>)
    returns (errors: set<(string, Violation)>)
    ensures forall root, e :: (root, e) in errors <==>
              || (root in pureRoots && ReportedFrom(PureCheck(), modules, root, e))
              || (root in ingestionRoots && ReportedFrom(ProductionCheck(), modules, root, e))
  {
    errors := CheckRoots(PureCheck(), modules, pureRoots);
    var more := CheckRoots(ProductionCheck(), modules, ingestionRoots);
    errors := errors + more;
  }
}
