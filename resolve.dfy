/**
 * The program's driver: option parsing, the directory scan for `.el` files,
 * the filtering of each module's dependency list, and `resolve_dependencies`,
 * which ties them to the graph built by gather_dependencies. The graph
 * library's `dependencies_of` query is a parameter: its traversal is not
 * part of this model.
 */
module Resolve {
  import opened Wrappers
  import opened Paths
  import opened Requires
  import opened Graph

  /** `struct Options`. */
  datatype Options = Options(localOnly: bool)

  /** `Options::default`. */
  const DefaultOptions: Options := Options(localOnly := false)

  /** `parse_options`: every argument, the program name included, is compared with `-l`. */
  method ParseOptions(args: seq<string>) returns (opts: Options)
    ensures opts.localOnly <==> "-l" in args
  {
    opts := DefaultOptions;
    for i := 0 to |args|
      invariant opts.localOnly <==> "-l" in args[..i]
    {
      assert args[..i + 1] == args[..i] + [args[i]];
      if args[i] == "-l" {
        opts := opts.(localOnly := true);
      }
    }
    assert args[..|args|] == args;
  }

  /** One item of the directory listing: an entry's file name, or a failure to read the entry. */
  datatype DirEntry = Entry(name: Path) | EntryFailed

  /** The directory as `read_dir` finds it. */
  datatype Listing = Unlistable | Listed(entries: seq<DirEntry>)

  /** An error reported by the graph library's query; its details are not modelled. */
  datatype GraphError = GraphError(reason: string)

  /** The errors that end resolve_dependencies early. */
  datatype RunError = ListFailed | EntryReadFailed | QueryFailed(cause: GraphError)

  /** The scan's test: the path has an extension, it is valid UTF-8, and it is `el`. */
  predicate IsElisp(p: Path) {
    match Extension(p)
    case None => false
    case Some(ext) => AsString(ext) == Some("el")
  }

  /** The paths satisfying `keep`, in their original order. */
  function Kept(paths: seq<Path>, keep: Path -> bool): (r: seq<Path>)
    ensures |r| <= |paths|
  {
    if paths == [] then []
    else
      var n := |paths| - 1;
      Kept(paths[..n], keep) + if keep(paths[n]) then [paths[n]] else []
  }

  /** Index of the first entry that could not be read, or the number of entries. */
  function FirstFailedEntry(entries: seq<DirEntry>): (i: nat)
    ensures i <= |entries|
    ensures forall j :: 0 <= j < i ==> entries[j].Entry?
    ensures i < |entries| ==> entries[i].EntryFailed?
  {
    if entries == [] || entries[0].EntryFailed? then 0 else 1 + FirstFailedEntry(entries[1..])
  }

  /** Each entry's name joined under `dir`, as `dir.join(entry.file_name())`. */
  function EntryPaths(dir: Path, entries: seq<DirEntry>): (r: seq<Path>)
    requires forall j :: 0 <= j < |entries| ==> entries[j].Entry?
  {
    seq(|entries|, j requires 0 <= j < |entries| => Join(dir, entries[j].name))
  }

  /** The module paths the scan collects, or the error that stops it. */
  function Scan(dir: Path, listing: Listing): (r: Result<seq<Path>, RunError>)
    ensures r.Ok? ==> listing.Listed? && |r.value| <= |listing.entries|
    ensures r.Err? <==> listing.Unlistable? || exists j :: 0 <= j < |listing.entries| && listing.entries[j].EntryFailed?
  {
    match listing
    case Unlistable => Err(ListFailed)
    case Listed(entries) =>
      if FirstFailedEntry(entries) < |entries| then Err(EntryReadFailed)
      else Ok(Kept(EntryPaths(dir, entries), IsElisp))
  }

  lemma EntryPathsStep(dir: Path, entries: seq<DirEntry>, i: nat)
    requires i < |entries|
    requires forall j :: 0 <= j <= i ==> entries[j].Entry?
    ensures EntryPaths(dir, entries[..i + 1]) == EntryPaths(dir, entries[..i]) + [Join(dir, entries[i].name)]
  {
  }

  lemma KeptStep(paths: seq<Path>, p: Path, keep: Path -> bool)
    ensures Kept(paths + [p], keep) == Kept(paths, keep) + if keep(p) then [p] else []
  {
    assert (paths + [p])[..|paths|] == paths;
  }

  /** The directory scan of resolve_dependencies: joins each entry under `dir` and keeps the `.el` files. */
  method CollectElisps(dir: Path, listing: Listing) returns (r: Result<seq<Path>, RunError>)
    ensures r == Scan(dir, listing)
  {
    if listing.Unlistable? {
      return Err(ListFailed);
    }
    var entries := listing.entries;
    var elisps: seq<Path> := [];
    for i := 0 to |entries|
      invariant forall j :: 0 <= j < i ==> entries[j].Entry?
      invariant elisps == Kept(EntryPaths(dir, entries[..i]), IsElisp)
    {
      if entries[i].EntryFailed? {
        assert FirstFailedEntry(entries) == i;
        return Err(EntryReadFailed);
      }
      var path := Join(dir, entries[i].name);
      EntryPathsStep(dir, entries, i);
      KeptStep(EntryPaths(dir, entries[..i]), path, IsElisp);
      match Extension(path) {
        case Some(ext) =>
          match AsString(ext) {
            case Some(e) =>
              if e == "el" {
                elisps := elisps + [path];
              }
            case None =>
          }
        case None =>
      }
    }
    assert entries[..|entries|] == entries;
    assert FirstFailedEntry(entries) == |entries|;
    r := Ok(elisps);
  }

  /**
   * The scan collects an entry exactly when its name ends in `.el` after at
   * least one other unit: `a.el` and `..el` are collected, `.el`, `a.elc`
   * and `a.el~` are not.
   */
  lemma IsElispIff(dir: Path, name: Path)
    requires HasNoSeparator(name) && name != [] && name != [Dot] && name != [Dot, Dot]
    ensures IsElisp(Join(dir, name)) <==> |name| > 3 && name[|name| - 3..] == [Dot] + ElExtension
  {
    FileNameOfJoin(dir, name);
    assert Extension(Join(dir, name)) == NameExtension(name);
    if NameExtension(name).Some? {
      AsStringEl(NameExtension(name).value);
    }
    NameExtensionEl(name);
  }

  /** The extension compares equal to the string `el` exactly when it is the units `e`, `l`. */
  lemma AsStringEl(ext: Path)
    ensures AsString(ext) == Some("el") <==> ext == ElExtension
  {
    assert FromString("el") == ElExtension;
    AsStringFromString("el");
    if AsString(ext) == Some("el") {
      FromStringAsString(ext);
    }
  }

  /** A file name has the extension `el` exactly when it ends in `.el` after at least one other unit. */
  lemma NameExtensionEl(name: Path)
    ensures NameExtension(name) == Some(ElExtension) <==> |name| > 3 && name[|name| - 3..] == [Dot] + ElExtension
  {
    var i := LastIndexOf(name, Dot);
    if NameExtension(name) == Some(ElExtension) {
      assert name[i + 1..] == ElExtension;
      assert i == |name| - 3;
      assert name[i..] == [name[i]] + name[i + 1..];
    }
    if |name| > 3 && name[|name| - 3..] == [Dot] + ElExtension {
      var k := |name| - 3;
      assert name[k] == Dot && name[k + 1] == Ch('e') && name[k + 2] == Ch('l');
      LastIndexOfAt(name, Dot, k);
      assert name[k + 1..] == ElExtension;
    }
  }

  /** Filtering a concatenation keeps each part's paths, in order. */
  lemma {:induction false} KeptAppend(a: seq<Path>, b: seq<Path>, keep: Path -> bool)
    ensures Kept(a + b, keep) == Kept(a, keep) + Kept(b, keep)
  {
    if b == [] {
      assert a + b == a;
    } else {
      var n := |b| - 1;
      assert (a + b)[..|a| + n] == a + b[..n];
      KeptAppend(a, b[..n], keep);
    }
  }

  /** A path is kept exactly when it is among the inputs and satisfies `keep`. */
  lemma {:induction false} KeptMembers(paths: seq<Path>, keep: Path -> bool, p: Path)
    ensures p in Kept(paths, keep) <==> p in paths && keep(p)
  {
    if paths != [] {
      var n := |paths| - 1;
      KeptMembers(paths[..n], keep, p);
      assert paths == paths[..n] + [paths[n]];
    }
  }

  /**
   * A successful scan collects exactly the entries whose joined path passes
   * the extension test.
   */
  lemma ScanMembers(dir: Path, listing: Listing, p: Path)
    requires Scan(dir, listing).Ok?
    ensures p in Scan(dir, listing).value <==>
      IsElisp(p) && exists j :: 0 <= j < |listing.entries| && Join(dir, listing.entries[j].name) == p
  {
    var paths := EntryPaths(dir, listing.entries);
    KeptMembers(paths, IsElisp, p);
    if p in paths {
      var j :| 0 <= j < |paths| && paths[j] == p;
      assert Join(dir, listing.entries[j].name) == p;
    }
    if exists j :: 0 <= j < |listing.entries| && Join(dir, listing.entries[j].name) == p {
      var j :| 0 <= j < |listing.entries| && Join(dir, listing.entries[j].name) == p;
      assert paths[j] == p;
    }
  }

  /** Filtering keeps distinct paths distinct. */
  lemma {:induction false} KeptDistinct(paths: seq<Path>, keep: Path -> bool)
    requires Distinct(paths)
    ensures Distinct(Kept(paths, keep))
  {
    if paths != [] {
      var n := |paths| - 1;
      var init := paths[..n];
      assert Distinct(init);
      KeptDistinct(init, keep);
      KeptMembers(init, keep, paths[n]);
      var before := Kept(init, keep);
      if keep(paths[n]) {
        forall i, j | 0 <= i < j < |before| + 1
          ensures (before + [paths[n]])[i] != (before + [paths[n]])[j]
        {
          if j == |before| {
            assert before[i] in before;
          }
        }
      }
    }
  }

  /**
   * A listing whose entry names are distinct, as `read_dir` yields them,
   * scans to distinct module paths, so the lemmas about distinct modules
   * apply to the graph resolve_dependencies gathers.
   */
  lemma ScanDistinct(dir: Path, listing: Listing)
    requires Scan(dir, listing).Ok?
    requires forall i, j :: 0 <= i < j < |listing.entries| ==> listing.entries[i].name != listing.entries[j].name
    ensures Distinct(Scan(dir, listing).value)
  {
    var paths := EntryPaths(dir, listing.entries);
    forall i, j | 0 <= i < j < |paths|
      ensures paths[i] != paths[j]
    {
      if paths[i] == paths[j] {
        JoinInjective(dir, listing.entries[i].name, listing.entries[j].name);
      }
    }
    KeptDistinct(paths, IsElisp);
  }

  /**
   * The dependency names printed for `elisp`: its own path is skipped, a
   * path that is not valid UTF-8 is skipped, and with `localOnly` a path
   * for which `isFile` fails is skipped; the rest keep their order.
   */
  function Shown(elisp: Path, deps: seq<Path>, localOnly: bool, isFile: Path -> bool): (r: seq<string>)
    ensures |r| <= |deps|
    ensures forall k :: 0 <= k < |r| ==> FromString(r[k]) != elisp
    ensures localOnly ==> forall k :: 0 <= k < |r| ==> isFile(FromString(r[k]))
  {
    if deps == [] then []
    else
      var n := |deps| - 1;
      var rest := Shown(elisp, deps[..n], localOnly, isFile);
      var path := deps[n];
      if path == elisp then rest
      else
        match AsString(path)
        case None => rest
        case Some(s) =>
          FromStringAsString(path);
          if !localOnly || isFile(path) then rest + [s] else rest
  }

  lemma ShownStep(elisp: Path, deps: seq<Path>, path: Path, localOnly: bool, isFile: Path -> bool)
    ensures Shown(elisp, deps + [path], localOnly, isFile) == Shown(elisp, deps, localOnly, isFile) +
      if path != elisp && AsString(path).Some? && (!localOnly || isFile(path)) then [AsString(path).value] else []
  {
    assert (deps + [path])[..|deps|] == deps;
  }

  /** The names printed for a concatenation are those printed for each part, in order. */
  lemma {:induction false} ShownAppend(elisp: Path, a: seq<Path>, b: seq<Path>, localOnly: bool, isFile: Path -> bool)
    ensures Shown(elisp, a + b, localOnly, isFile) == Shown(elisp, a, localOnly, isFile) + Shown(elisp, b, localOnly, isFile)
  {
    if b == [] {
      assert a + b == a;
    } else {
      var n := |b| - 1;
      assert (a + b)[..|a| + n] == a + b[..n];
      ShownAppend(elisp, a, b[..n], localOnly, isFile);
    }
  }

  /**
   * A name is printed exactly when some yielded path is that name's path,
   * is not the module's own path, and, with `localOnly`, passes `isFile`.
   */
  lemma {:induction false} ShownMembers(elisp: Path, deps: seq<Path>, localOnly: bool, isFile: Path -> bool, s: string)
    ensures s in Shown(elisp, deps, localOnly, isFile) <==>
      exists i :: 0 <= i < |deps| && deps[i] == FromString(s) && deps[i] != elisp && (!localOnly || isFile(deps[i]))
  {
    if deps != [] {
      var n := |deps| - 1;
      ShownMembers(elisp, deps[..n], localOnly, isFile, s);
      var path := deps[n];
      AsStringFromString(s);
      if path == FromString(s) {
        assert AsString(path) == Some(s);
      } else if AsString(path).Some? {
        FromStringAsString(path);
      }
      if exists i :: 0 <= i < |deps| && deps[i] == FromString(s) && deps[i] != elisp && (!localOnly || isFile(deps[i])) {
        var i :| 0 <= i < |deps| && deps[i] == FromString(s) && deps[i] != elisp && (!localOnly || isFile(deps[i]));
        if i < n {
          assert deps[..n][i] == deps[i];
        }
      }
      if exists i :: 0 <= i < n && deps[..n][i] == FromString(s) && deps[..n][i] != elisp && (!localOnly || isFile(deps[..n][i])) {
        var i :| 0 <= i < n && deps[..n][i] == FromString(s) && deps[..n][i] != elisp && (!localOnly || isFile(deps[..n][i]));
        assert deps[i] == deps[..n][i];
      }
    }
  }

  /** The names whose paths pass `isFile`, in order. */
  function ExistingFiles(names: seq<string>, isFile: Path -> bool): (r: seq<string>) {
    if names == [] then []
    else
      var n := |names| - 1;
      ExistingFiles(names[..n], isFile) + if isFile(FromString(names[n])) then [names[n]] else []
  }

  /** With `localOnly`, the printed list is the ordinary list with every name failing `isFile` removed. */
  lemma {:induction false} LocalOnlyFiltersFurther(elisp: Path, deps: seq<Path>, isFile: Path -> bool)
    ensures Shown(elisp, deps, true, isFile) == ExistingFiles(Shown(elisp, deps, false, isFile), isFile)
  {
    if deps != [] {
      var n := |deps| - 1;
      LocalOnlyFiltersFurther(elisp, deps[..n], isFile);
      var path := deps[n];
      var all := Shown(elisp, deps[..n], false, isFile);
      if path != elisp && AsString(path).Some? {
        var s := AsString(path).value;
        FromStringAsString(path);
        assert Shown(elisp, deps, false, isFile) == all + [s];
        assert (all + [s])[..|all|] == all;
      }
    }
  }

  /** Index of the first failed item the query yields, or the number of items. */
  function FirstFailedItem(items: seq<Result<Path, GraphError>>): (i: nat)
    ensures i <= |items|
    ensures forall j :: 0 <= j < i ==> items[j].Ok?
    ensures i < |items| ==> items[i].Err?
  {
    if items == [] || items[0].Err? then 0 else 1 + FirstFailedItem(items[1..])
  }

  function Values(items: seq<Result<Path, GraphError>>): (r: seq<Path>)
    requires forall j :: 0 <= j < |items| ==> items[j].Ok?
    ensures |r| == |items| && forall j :: 0 <= j < |items| ==> r[j] == items[j].value
  {
    if items == [] then [] else Values(items[..|items| - 1]) + [items[|items| - 1].value]
  }

  /** The errors among the items the query yields. */
  function FailedItems(items: seq<Result<Path, GraphError>>): (r: set<GraphError>) {
    set j | 0 <= j < |items| && items[j].Err? :: items[j].error
  }

  /** The list printed for one module, or the first error among the items the query yields. */
  function DepsLine(elisp: Path, items: seq<Result<Path, GraphError>>, localOnly: bool, isFile: Path -> bool): (r: Result<seq<string>, GraphError>)
    ensures r.Ok? ==> |r.value| <= |items|
    ensures r.Err? ==> r.error in FailedItems(items)
  {
    var i := FirstFailedItem(items);
    if i < |items| then Err(items[i].error) else Ok(Shown(elisp, Values(items), localOnly, isFile))
  }

  lemma ValuesStep(items: seq<Result<Path, GraphError>>, i: nat)
    requires i < |items|
    requires forall j :: 0 <= j <= i ==> items[j].Ok?
    ensures Values(items[..i + 1]) == Values(items[..i]) + [items[i].value]
  {
    assert items[..i + 1][..i] == items[..i];
  }

  /** The inner loop of resolve_dependencies: filters the items yielded for `elisp`. */
  method FilterDeps(elisp: Path, items: seq<Result<Path, GraphError>>, localOnly: bool, isFile: Path -> bool)
    returns (r: Result<seq<string>, GraphError>)
    ensures r == DepsLine(elisp, items, localOnly, isFile)
  {
    var deps: seq<string> := [];
    for i := 0 to |items|
      invariant forall j :: 0 <= j < i ==> items[j].Ok?
      invariant deps == Shown(elisp, Values(items[..i]), localOnly, isFile)
    {
      if items[i].Err? {
        assert FirstFailedItem(items) == i;
        return Err(items[i].error);
      }
      var path := items[i].value;
      ValuesStep(items, i);
      ShownStep(elisp, Values(items[..i]), path, localOnly, isFile);
      if path == elisp {
        continue;
      }
      match AsString(path) {
        case Some(el) =>
          if !localOnly || isFile(path) {
            deps := deps + [el];
          }
        case None =>
      }
    }
    assert items[..|items|] == items;
    assert FirstFailedItem(items) == |items|;
    r := Ok(deps);
  }

  /** The line printed for one module: its path and the names of its dependencies. */
  datatype Report = Report(elisp: Path, deps: seq<string>)

  /** The graph library's `dependencies_of`: the items it yields for a node, or an error. */
  type Query = (Edges, Path) -> Result<seq<Result<Path, GraphError>>, GraphError>

  /**
   * The line printed for one module: the query's items, filtered; or the
   * query's first error. A line names its own module and never lists that
   * module's path; with `localOnly` every listed path passes `isFile`.
   */
  function ModuleLine(edges: Edges, elisp: Path, localOnly: bool, isFile: Path -> bool, query: Query): (r: Result<Report, GraphError>)
    ensures r.Ok? ==> r.value.elisp == elisp
    ensures r.Ok? ==> forall j :: 0 <= j < |r.value.deps| ==> FromString(r.value.deps[j]) != elisp
    ensures r.Ok? && localOnly ==> forall j :: 0 <= j < |r.value.deps| ==> isFile(FromString(r.value.deps[j]))
  {
    match query(edges, elisp)
    case Err(e) => Err(e)
    case Ok(items) =>
      match DepsLine(elisp, items, localOnly, isFile)
      case Err(e) => Err(e)
      case Ok(deps) => Ok(Report(elisp, deps))
  }

  /** One iteration of resolve_dependencies' printing loop: queries the graph for `elisp` and filters the answer. */
  method ReportModule(edges: Edges, elisp: Path, localOnly: bool, isFile: Path -> bool, query: Query)
    returns (r: Result<Report, GraphError>)
    ensures r == ModuleLine(edges, elisp, localOnly, isFile, query)
  {
    var q := query(edges, elisp);
    if q.Err? {
      return Err(q.error);
    }
    var deps := FilterDeps(elisp, q.value, localOnly, isFile);
    if deps.Err? {
      return Err(deps.error);
    }
    r := Ok(Report(elisp, deps.value));
  }

  /** The line each module would print, in scan order. */
  function ModuleLines(edges: Edges, elisps: seq<Path>, localOnly: bool, isFile: Path -> bool, query: Query): (r: seq<Result<Report, GraphError>>)
    ensures |r| == |elisps|
  {
    seq(|elisps|, i requires 0 <= i < |elisps| => ModuleLine(edges, elisps[i], localOnly, isFile, query))
  }

  /** What is printed from the modules' lines: every line up to the first error, and how the run ends. */
  function Printed(lines: seq<Result<Report, GraphError>>): (r: (seq<Report>, Result<(), RunError>))
    ensures |r.0| <= |lines|
  {
    if lines == [] then ([], Ok(()))
    else
      match lines[0]
      case Err(e) => ([], Err(QueryFailed(e)))
      case Ok(line) =>
        var rest := Printed(lines[1..]);
        ([line] + rest.0, rest.1)
  }

  /** The printing loop of resolve_dependencies, over the gathered graph. */
  method PrintReports(edges: Edges, elisps: seq<Path>, localOnly: bool, isFile: Path -> bool, query: Query)
    returns (reports: seq<Report>, r: Result<(), RunError>)
    ensures (reports, r) == Printed(ModuleLines(edges, elisps, localOnly, isFile, query))
  {
    ghost var lines := ModuleLines(edges, elisps, localOnly, isFile, query);
    ghost var whole := Printed(lines);
    reports := [];
    assert whole.0 == reports + whole.0;
    assert lines[0..] == lines;
    for i := 0 to |elisps|
      invariant whole.0 == reports + Printed(lines[i..]).0
      invariant whole.1 == Printed(lines[i..]).1
    {
      var line := ReportModule(edges, elisps[i], localOnly, isFile, query);
      assert lines[i..][0] == line;
      if line.Err? {
        assert reports + [] == reports;
        return reports, Err(QueryFailed(line.error));
      }
      assert lines[i..][1..] == lines[i + 1..];
      ghost var rest := Printed(lines[i + 1..]).0;
      assert reports + ([line.value] + rest) == (reports + [line.value]) + rest;
      reports := reports + [line.value];
    }
    assert reports == reports + [];
    r := Ok(());
  }

  /**
   * `resolve_dependencies`: scans `dir`, gathers the graph, then prints one
   * line per module in scan order; the first query error ends the run.
   * Returns the printed lines, the errors logged while gathering, and the
   * outcome.
   */
  method ResolveDependencies(dir: Path, opts: Options, listing: Listing, fs: Path -> SourceFile, query: Query, isFile: Path -> bool)
    returns (reports: seq<Report>, diagnostics: seq<ReadError>, r: Result<(), RunError>)
    ensures Scan(dir, listing).Err? ==> reports == [] && diagnostics == [] && r == Err(Scan(dir, listing).error)
    ensures Scan(dir, listing).Ok? ==>
      var elisps := Scan(dir, listing).value;
      var edges := Gathered(map[], elisps, Outcomes(elisps, fs));
      && diagnostics == Diagnostics(Outcomes(elisps, fs))
      && (reports, r) == Printed(ModuleLines(edges, elisps, opts.localOnly, isFile, query))
  {
    var scanned := CollectElisps(dir, listing);
    if scanned.Err? {
      return [], [], Err(scanned.error);
    }
    var graph;
    graph, diagnostics := GatherDependencies(scanned.value, fs);
    reports, r := PrintReports(graph.edges, scanned.value, opts.localOnly, isFile, query);
  }

  /**
   * The printed lines are the leading successful lines, in order; the run
   * succeeds exactly when every line succeeded, and otherwise fails with
   * the error of the first line that did not.
   */
  lemma {:induction false} PrintedPrefix(lines: seq<Result<Report, GraphError>>)
    ensures var (reports, r) := Printed(lines);
      && |reports| <= |lines|
      && (forall k :: 0 <= k < |reports| ==> lines[k] == Ok(reports[k]))
      && (r.Ok? <==> |reports| == |lines|)
      && (r.Err? ==> lines[|reports|].Err? && r == Err(QueryFailed(lines[|reports|].error)))
  {
    if lines != [] {
      PrintedPrefix(lines[1..]);
      if lines[0].Ok? {
        var rest := Printed(lines[1..]).0;
        var reports := Printed(lines).0;
        assert reports == [lines[0].value] + rest;
        forall k | 0 < k < |reports|
          ensures lines[k] == Ok(reports[k])
        {
          assert reports[k] == rest[k - 1] && lines[k] == lines[1..][k - 1];
        }
      }
    }
  }

  /**
   * Lines are printed for the modules in scan order, one each, none lists
   * its own module's path, and a run that ends without error has printed a
   * line for every module.
   */
  lemma PrintedFollowsScan(edges: Edges, elisps: seq<Path>, localOnly: bool, isFile: Path -> bool, query: Query)
    ensures var (reports, r) := Printed(ModuleLines(edges, elisps, localOnly, isFile, query));
      && |reports| <= |elisps|
      && (forall k :: 0 <= k < |reports| ==> reports[k].elisp == elisps[k])
      && (forall k, j :: 0 <= k < |reports| && 0 <= j < |reports[k].deps| ==> FromString(reports[k].deps[j]) != reports[k].elisp)
      && (r.Ok? <==> |reports| == |elisps|)
  {
    var lines := ModuleLines(edges, elisps, localOnly, isFile, query);
    PrintedPrefix(lines);
    var reports := Printed(lines).0;
    forall k | 0 <= k < |reports|
      ensures reports[k].elisp == elisps[k]
      ensures forall j :: 0 <= j < |reports[k].deps| ==> FromString(reports[k].deps[j]) != reports[k].elisp
    {
      assert lines[k] == ModuleLine(edges, elisps[k], localOnly, isFile, query);
    }
  }

  /**
   * Module paths are joined under a non-empty directory and so contain a
   * separator; feature paths are bare names. So a dependency yielded as a
   * feature path is never removed as the module's own path, even when it
   * names the module's own file.
   */
  lemma ModulePathIsNotFeaturePath(dir: Path, name: Path, f: Feature)
    requires dir != [] && IsFeatureName(f.name)
    ensures Join(dir, name) != f.ToPathBuf()
  {
    ToPathBufIsBareElFile(f);
    var p := Join(dir, name);
    if dir[|dir| - 1] == Separator {
      assert p[|dir| - 1] == Separator;
    } else {
      assert p[|dir|] == Separator;
    }
  }
}
