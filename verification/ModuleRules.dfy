/** Workspace dependencies, runtime imports and violations, stated on the modules and their imports. */
module ModuleRules {
  import opened Sequences
  import opened ModuleGraph

  // ----- Workspace dependencies

  function Holds(path: string): Workspace -> bool { (w: Workspace) => w.directory + "/" <= path }

  /** The path lies in the directory of w, and of no workspace listed before it. */
  ghost predicate OwnedBy(workspaces: seq<Workspace>, path: string, w: Workspace) {
    FirstWith(workspaces, Holds(path), w)
  }

  /** w is the last workspace of that name. */
  ghost predicate Named(workspaces: seq<Workspace>, name: string, w: Workspace) {
    exists i :: 0 <= i < |workspaces| && workspaces[i] == w && w.name == name
                && forall j :: i < j < |workspaces| ==> workspaces[j].name != name
  }

  /** The specifier starts with a scoped package name that ends at its end or at a slash. */
  ghost predicate StartsWithPackage(specifier: string, package: string) {
    && (specifier == package || package + "/" <= specifier)
    && exists scope, name :: IsSegment(scope) && IsSegment(name) && package == "@" + scope + "/" + name
  }

  /** The import leads to w: its target lies there, or, where it has none, its specifier names it. */
  ghost predicate LeadsTo(workspaces: seq<Workspace>, entry: Import, w: Workspace) {
    if entry.target in {None, Some("")} then
      exists package :: StartsWithPackage(entry.specifier, package) && Named(workspaces, package, w)
    else OwnedBy(workspaces, entry.target.value, w)
  }

  /** A runtime import of the module leads from one workspace to another. */
  ghost predicate Depends(workspaces: seq<Workspace>, m: Module, entry: Import, a: string, b: string) {
    && !entry.typeOnly && a != b
    && (exists from :: OwnedBy(workspaces, m.path, from) && from.name == a)
    && (exists to :: LeadsTo(workspaces, entry, to) && to.name == b)
  }

  lemma OwnerMeaning(workspaces: seq<Workspace>, path: string, w: Workspace)
    ensures Owner(workspaces, path) == Some(w) <==> OwnedBy(workspaces, path, w)
  {
    FirstExt(workspaces, Owns(path), Holds(path));
    FirstMeaning(workspaces, Holds(path), w);
  }

  lemma {:induction false} ByNameMeaning(workspaces: seq<Workspace>, name: string, w: Workspace)
    ensures ByName(workspaces, name) == Some(w) <==> Named(workspaces, name, w)
  {
    if workspaces != [] {
      var front, last := workspaces[..|workspaces| - 1], workspaces[|workspaces| - 1];
      ByNameMeaning(front, name, w);
      NamedMore(front, last, name, w);
      assert workspaces == front + [last];
    }
  }

  lemma NamedMore(front: seq<Workspace>, last: Workspace, name: string, w: Workspace)
    ensures Named(front + [last], name, w) <==> if last.name == name then w == last else Named(front, name, w)
  {
    var all := front + [last];
    assert all[|front|] == last && forall i :: 0 <= i < |front| ==> all[i] == front[i];
    if Named(front, name, w) {
      var i :| 0 <= i < |front| && front[i] == w && w.name == name
               && forall j :: i < j < |front| ==> front[j].name != name;
      assert all[i] == w;
    }
  }

  lemma PackageMeaning(specifier: string, package: string)
    ensures PackageOf(specifier) == Some(package) <==> StartsWithPackage(specifier, package)
  {
    if PackageOf(specifier) == Some(package) {
      var scope, name := PackageParts(specifier, package);
      PackageOfMeaning(specifier, scope, name);
    }
    if StartsWithPackage(specifier, package) {
      var scope, name :| IsSegment(scope) && IsSegment(name) && package == "@" + scope + "/" + name;
      PackageOfMeaning(specifier, scope, name);
    }
  }

  lemma PackageParts(specifier: string, package: string) returns (scope: string, name: string)
    requires PackageOf(specifier) == Some(package)
    ensures IsSegment(scope) && IsSegment(name) && package == "@" + scope + "/" + name
  {
    var i := SlashFrom(specifier, 1);
    var j := SlashFrom(specifier, i + 1);
    scope, name := specifier[1..i], specifier[i + 1..j];
    assert specifier[..j] == specifier[..1] + scope + [specifier[i]] + name;
    assert specifier[..1] == "@" && [specifier[i]] == "/";
  }

  lemma LeadsToMeaning(workspaces: seq<Workspace>, entry: Import, w: Workspace)
    ensures ImportedWorkspace(workspaces, entry) == Some(w) <==> LeadsTo(workspaces, entry, w)
  {
    if HasTarget(entry) {
      OwnerMeaning(workspaces, entry.target.value, w);
    } else {
      forall package
        ensures PackageOf(entry.specifier) == Some(package) <==> StartsWithPackage(entry.specifier, package)
        ensures ByName(workspaces, package) == Some(w) <==> Named(workspaces, package, w)
      {
        PackageMeaning(entry.specifier, package);
        ByNameMeaning(workspaces, package, w);
      }
      var package := PackageOf(entry.specifier);
      if package.Some? { assert StartsWithPackage(entry.specifier, package.value); }
    }
  }

  lemma EdgeMeaning(workspaces: seq<Workspace>, m: Module, entry: Import, a: string, b: string)
    ensures EdgeOf(workspaces, m, entry) == Some((a, b)) <==> Depends(workspaces, m, entry, a, b)
  {
    forall w
      ensures Owner(workspaces, m.path) == Some(w) <==> OwnedBy(workspaces, m.path, w)
      ensures ImportedWorkspace(workspaces, entry) == Some(w) <==> LeadsTo(workspaces, entry, w)
    {
      OwnerMeaning(workspaces, m.path, w);
      LeadsToMeaning(workspaces, entry, w);
    }
  }

  /** What depends on what: type-only imports and imports within a workspace do not count. */
  lemma DependencyFollowsRules(workspaces: seq<Workspace>, modules: seq<Module>, a: string, b: string)
    ensures RuntimeDependency(workspaces, modules, a, b)
       <==> exists m, entry :: m in modules && entry in m.imports && Depends(workspaces, m, entry, a, b)
  {
    forall m, entry ensures EdgeOf(workspaces, m, entry) == Some((a, b)) <==> Depends(workspaces, m, entry, a, b) {
      EdgeMeaning(workspaces, m, entry, a, b);
    }
  }

  // ----- Runtime imports

  /** m is the last module of that path. */
  ghost predicate At(modules: seq<Module>, path: string, m: Module) {
    exists i :: 0 <= i < |modules| && modules[i] == m && m.path == path
                && forall j :: i < j < |modules| ==> modules[j].path != path
  }

  ghost predicate Absent(modules: seq<Module>, path: string) { forall m :: m in modules ==> m.path != path }

  lemma AtMore(front: seq<Module>, last: Module, path: string, m: Module)
    ensures At(front + [last], path, m) <==> if last.path == path then m == last else At(front, path, m)
    ensures Absent(front + [last], path) <==> last.path != path && Absent(front, path)
  {
    var all := front + [last];
    assert all[|front|] == last && forall i :: 0 <= i < |front| ==> all[i] == front[i];
    if At(front, path, m) {
      var i :| 0 <= i < |front| && front[i] == m && m.path == path
               && forall j :: i < j < |front| ==> front[j].path != path;
      assert all[i] == m;
    }
  }

  lemma {:induction false} ByPathMeaning(modules: seq<Module>, path: string, m: Module)
    ensures ByPath(modules, path) == Some(m) <==> At(modules, path, m)
    ensures ByPath(modules, path).None? <==> Absent(modules, path)
  {
    if modules != [] {
      var front, last := modules[..|modules| - 1], modules[|modules| - 1];
      ByPathMeaning(front, path, m);
      AtMore(front, last, path, m);
      assert modules == front + [last];
    }
  }

  /** The module of path a has a runtime import whose target is the path of a module. */
  lemma ImportFollowsRules(modules: seq<Module>, a: string, b: string)
    ensures RuntimeImport(modules, a, b) <==>
      && b != "" && !Absent(modules, b)
      && exists m, entry :: At(modules, a, m) && entry in m.imports && !entry.typeOnly && entry.target == Some(b)
  {
    forall path, m
      ensures ByPath(modules, path) == Some(m) <==> At(modules, path, m)
      ensures ByPath(modules, path).None? <==> Absent(modules, path)
    {
      ByPathMeaning(modules, path, m);
    }
    if ByPath(modules, a).Some? { assert At(modules, a, ByPath(modules, a).value); }
  }

  // ----- Violations

  ghost predicate InOrUnder(path: string, name: string) { path == name || exists rest :: path == name + "/" + rest }

  /** The database driver, the schema validators, and the parts of the runtime that reach outside. */
  ghost predicate ReachesOutside(specifier: string) {
    exists name :: InOrUnder(specifier, name) && name in {
      "pg", "ajv", "ajv-formats", "@openmasu/contracts/validation", "node:fs", "node:http", "node:https", "node:net",
      "node:dns", "node:child_process", "node:worker_threads"}
  }

  ghost predicate Touches(entry: Import) { !entry.typeOnly && ReachesOutside(entry.specifier) }

  ghost predicate SupportsSeeding(path: string) {
    || (exists rest :: path == "apps/worker/src/test-support/" + rest)
    || path in {"apps/worker/src/seed.ts", "apps/worker/src/seed-safety.ts", "apps/worker/src/verify-parity.ts"}
  }

  ghost predicate TakesAClient(path: string) {
    path in {"apps/worker/src/ingestion/record-repository.ts", "apps/worker/src/ingestion/fact-projections.ts",
             "apps/worker/src/ingestion/derived-repository.ts", "apps/worker/src/ingestion/bulk-repository.ts"}
  }

  ghost predicate PureRules(modules: seq<Module>, path: string, v: Violation) {
    match v
    case MissingPure(p) => p == path && Absent(modules, path)
    case PerformsIO(p) => p == path && exists m :: At(modules, path, m) && m.performsIO
    case IODependency(specifier, p) =>
      p == path && exists m, entry :: At(modules, path, m) && entry in m.imports && Touches(entry)
                                      && entry.specifier == specifier
    case _ => false
  }

  ghost predicate ProductionRules(modules: seq<Module>, path: string, v: Violation) {
    match v
    case MissingProduction(p) => p == path && Absent(modules, path)
    case PrivilegedSupport(p) =>
      p == path && exists m :: At(modules, path, m) && (m.privilegedIngestion || SupportsSeeding(path))
    case OwnsTransaction(p) =>
      p == path && TakesAClient(path) && exists m :: At(modules, path, m) && m.ownsTransaction
    case _ => false
  }

  lemma UnderMeaning(path: string, name: string)
    ensures InOrUnder(path, name) <==> path == name || name + "/" <= path
  {
    if name + "/" <= path { assert path == name + "/" + path[|name + "/"|..]; }
  }

  lemma ForbiddenMeaning(specifier: string)
    ensures ForbiddenPureImport(specifier) <==> ReachesOutside(specifier)
  {
    forall name ensures InOrUnder(specifier, name) <==> specifier == name || name + "/" <= specifier {
      UnderMeaning(specifier, name);
    }
    forall name
      ensures name in FORBIDDEN_IN_PURE <==> name in {
        "pg", "ajv", "ajv-formats", "@openmasu/contracts/validation", "node:fs", "node:http", "node:https", "node:net",
        "node:dns", "node:child_process", "node:worker_threads"}
    { }
  }

  lemma SeedingMeaning(path: string)
    ensures SeedSupport(path) <==> SupportsSeeding(path)
    ensures ClientOnlyRepository(path) <==> TakesAClient(path)
  {
    var support := "apps/worker/src/test-support/";
    if support <= path { assert path == support + path[|support|..]; }
  }

  lemma PureImports(imports: seq<Import>, path: string, v: Violation)
    ensures v in ImportViolations(PureCheck(), imports, path)
       <==> exists entry :: entry in imports && Touches(entry) && v == IODependency(entry.specifier, path)
  {
    var check := PureCheck();
    forall entry
      ensures v in check.imported(entry, path) <==> Touches(entry) && v == IODependency(entry.specifier, path)
    {
      ForbiddenMeaning(entry.specifier);
    }
    if v in ImportViolations(check, imports, path) {
      var entry :| entry in imports && v in check.imported(entry, path);
    }
  }

  /** Which violations a module reached from a pure entry point has. */
  lemma PureViolations(modules: seq<Module>, path: string, v: Violation)
    ensures v in Violations(PureCheck(), modules, path) <==> PureRules(modules, path, v)
  {
    var found := ByPath(modules, path);
    if found.Some? {
      OnlyAt(modules, path, found.value);
      PureImports(found.value.imports, path, v);
    } else {
      NoneAt(modules, path);
    }
  }

  /** Which violations a module reached from a production entry point has. */
  lemma ProductionViolations(modules: seq<Module>, path: string, v: Violation)
    ensures v in Violations(ProductionCheck(), modules, path) <==> ProductionRules(modules, path, v)
  {
    SeedingMeaning(path);
    var found := ByPath(modules, path);
    if found.Some? { OnlyAt(modules, path, found.value); } else { NoneAt(modules, path); }
  }

  lemma OnlyAt(modules: seq<Module>, path: string, m: Module)
    requires ByPath(modules, path) == Some(m)
    ensures forall n :: At(modules, path, n) <==> n == m
    ensures m.path == path && !Absent(modules, path)
  {
    forall n ensures At(modules, path, n) <==> n == m { ByPathMeaning(modules, path, n); }
  }

  lemma NoneAt(modules: seq<Module>, path: string)
    requires ByPath(modules, path).None?
    ensures Absent(modules, path) && forall n :: !At(modules, path, n)
  {
    forall n ensures Absent(modules, path) && !At(modules, path, n) { ByPathMeaning(modules, path, n); }
    ByPathMeaning(modules, path, Module(path, [], false, false, false));
  }
}
