/**
 * The dependency graph and `gather_dependencies`. The graph is kept as a map
 * from a node to the sequence of dependency targets registered for it, in
 * registration order. The registration policy is stated over each module's
 * extraction outcome (its target paths, or the read error), so that it can
 * be reasoned about apart from how the outcome was computed.
 */
module Graph {
  import opened Wrappers
  import opened Paths
  import opened Requires

  type Edges = map<Path, seq<Path>>

  /** What extracting one module gives the graph: the paths of its features, or the error. */
  type Outcome = Result<seq<Path>, ReadError>

  /** The targets registered for `n`, none if `n` is not a node. */
  function DepsOf(edges: Edges, n: Path): (r: seq<Path>) {
    if n in edges then edges[n] else []
  }

  /** The graph after registering `n` as a node: it becomes a node, and nothing else changes. */
  function WithNode(edges: Edges, n: Path): (r: Edges)
    ensures r.Keys == edges.Keys + {n}
    ensures forall k :: k in edges ==> r[k] == edges[k]
    ensures n !in edges ==> r[n] == []
  {
    if n in edges then edges else edges[n := []]
  }

  /** The graph after registering edges from `from` to each of `tos`, in order. */
  function WithEdges(edges: Edges, from: Path, tos: seq<Path>): (r: Edges)
    ensures r.Keys == edges.Keys + {from}
    ensures forall k :: k in edges && k != from ==> r[k] == edges[k]
    ensures r[from] == DepsOf(edges, from) + tos
  {
    edges[from := DepsOf(edges, from) + tos]
  }

  lemma WithEdgesStep(edges: Edges, from: Path, tos: seq<Path>, to: Path)
    ensures WithEdges(WithEdges(edges, from, tos), from, [to]) == WithEdges(edges, from, tos + [to])
  {
    assert DepsOf(edges, from) + tos + [to] == DepsOf(edges, from) + (tos + [to]);
  }

  /** `solvent::DepGraph`, as far as registration goes. */
  class DepGraph {
    var edges: Edges

    /** `DepGraph::new`: no nodes. */
    constructor ()
      ensures edges == map[]
    {
      edges := map[];
    }

    /** `register_node`: `n` becomes a node; existing nodes and edges are kept. */
    method RegisterNode(n: Path)
      modifies this
      ensures edges == WithNode(old(edges), n)
    {
      if n !in edges {
        edges := edges[n := []];
      }
    }

    /** `register_dependency`: the edge `from -> to` is appended to `from`'s targets. */
    method RegisterDependency(from: Path, to: Path)
      modifies this
      ensures edges == WithEdges(old(edges), from, [to])
    {
      edges := edges[from := DepsOf(edges, from) + [to]];
    }
  }

  /** The paths of a sequence of features, in order. */
  function FeaturePaths(fs: seq<Feature>): (r: seq<Path>)
    ensures |r| == |fs|
  {
    if fs == [] then [] else FeaturePaths(fs[..|fs| - 1]) + [fs[|fs| - 1].ToPathBuf()]
  }

  lemma {:induction false} FeaturePathsAt(fs: seq<Feature>, j: nat)
    requires j < |fs|
    ensures FeaturePaths(fs)[j] == fs[j].ToPathBuf()
  {
    if j < |fs| - 1 {
      FeaturePathsAt(fs[..|fs| - 1], j);
    }
  }

  lemma FeaturePathsStep(fs: seq<Feature>, j: nat)
    requires j < |fs|
    ensures FeaturePaths(fs[..j + 1]) == FeaturePaths(fs[..j]) + [fs[j].ToPathBuf()]
  {
    assert fs[..j + 1][..j] == fs[..j];
  }

  /** Registering the edge to the next feature extends the edges registered so far. */
  lemma RegisterStep(before: Edges, elisp: Path, v: seq<Feature>, j: nat)
    requires j < |v|
    ensures j == 0 ==> WithEdges(before, elisp, [v[j].ToPathBuf()]) == WithEdges(before, elisp, FeaturePaths(v[..1]))
    ensures j > 0 ==>
      WithEdges(WithEdges(before, elisp, FeaturePaths(v[..j])), elisp, [v[j].ToPathBuf()])
      == WithEdges(before, elisp, FeaturePaths(v[..j + 1]))
  {
    FeaturePathsStep(v, j);
    if j == 0 {
      assert v[..0] == [];
      assert FeaturePaths(v[..1]) == [v[0].ToPathBuf()];
    } else {
      WithEdgesStep(before, elisp, FeaturePaths(v[..j]), v[j].ToPathBuf());
    }
  }

  /** The outcome of extracting one module file. */
  function Targets(file: SourceFile): (r: Outcome) {
    match Extraction(file)
    case Err(e) => Err(e)
    case Ok(features) => Ok(FeaturePaths(features))
  }

  /** The outcomes of the module files, in order. */
  function Outcomes(elisps: seq<Path>, fs: Path -> SourceFile): (r: seq<Outcome>)
    ensures |r| == |elisps|
  {
    seq(|elisps|, i requires 0 <= i < |elisps| => Targets(fs(elisps[i])))
  }

  /**
   * One step of gather_dependencies: a failed extraction registers nothing;
   * no requirements registers the module as a lone node; otherwise one edge
   * per target, in order.
   */
  function Register(edges: Edges, elisp: Path, outcome: Outcome): (r: Edges)
    ensures r.Keys == if outcome.Ok? then edges.Keys + {elisp} else edges.Keys
  {
    match outcome
    case Err(_) => edges
    case Ok(targets) => if targets == [] then WithNode(edges, elisp) else WithEdges(edges, elisp, targets)
  }

  /** The graph after processing `modules` in order, starting from `edges`; `outcomes[i]` belongs to `modules[i]`. */
  function Gathered(edges: Edges, modules: seq<Path>, outcomes: seq<Outcome>): (r: Edges)
    requires |outcomes| == |modules|
    ensures edges.Keys <= r.Keys
  {
    if modules == [] then edges
    else
      var n := |modules| - 1;
      Register(Gathered(edges, modules[..n], outcomes[..n]), modules[n], outcomes[n])
  }

  /** The errors logged while processing the outcomes, one per failed extraction, in order. */
  function Diagnostics(outcomes: seq<Outcome>): (r: seq<ReadError>)
    ensures |r| <= |outcomes|
  {
    if outcomes == [] then []
    else
      var n := |outcomes| - 1;
      Diagnostics(outcomes[..n]) + match outcomes[n] case Err(e) => [e] case Ok(_) => []
  }

  /**
   * The body of gather_dependencies' loop for one module: extract its
   * requirements, then register a lone node or one edge per feature, or
   * return the error to be logged.
   */
  method RegisterRequires(graph: DepGraph, elisp: Path, file: SourceFile) returns (logged: seq<ReadError>)
    modifies graph
    ensures graph.edges == Register(old(graph.edges), elisp, Targets(file))
    ensures logged == Diagnostics([Targets(file)])
  {
    var r := ExtractRequires(file);
    match r {
      case Ok(v) =>
        ghost var before := graph.edges;
        if v == [] {
          graph.RegisterNode(elisp);
        }
        for j := 0 to |v|
          invariant v == [] ==> graph.edges == WithNode(before, elisp)
          invariant v != [] && j == 0 ==> graph.edges == before
          invariant v != [] && j > 0 ==> graph.edges == WithEdges(before, elisp, FeaturePaths(v[..j]))
        {
          var target := v[j].ToPathBuf();
          RegisterStep(before, elisp, v, j);
          graph.RegisterDependency(elisp, target);
        }
        assert v[..|v|] == v;
        logged := [];
      case Err(e) =>
        logged := [e];
    }
  }

  /** `gather_dependencies`: registers every module in turn; a failed module is logged and skipped. */
  method GatherDependencies(elisps: seq<Path>, fs: Path -> SourceFile) returns (graph: DepGraph, diagnostics: seq<ReadError>)
    ensures fresh(graph)
    ensures graph.edges == Gathered(map[], elisps, Outcomes(elisps, fs))
    ensures diagnostics == Diagnostics(Outcomes(elisps, fs))
  {
    graph := new DepGraph();
    diagnostics := [];
    ghost var outcomes := Outcomes(elisps, fs);
    for i := 0 to |elisps|
      invariant graph.edges == Gathered(map[], elisps[..i], outcomes[..i])
      invariant diagnostics == Diagnostics(outcomes[..i])
    {
      assert elisps[..i + 1][..i] == elisps[..i];
      assert outcomes[..i + 1][..i] == outcomes[..i];
      var logged := RegisterRequires(graph, elisps[i], fs(elisps[i]));
      diagnostics := diagnostics + logged;
    }
    assert elisps[..|elisps|] == elisps;
    assert outcomes[..|elisps|] == outcomes;
  }

  /**
   * Processing one list of modules after another is processing their
   * concatenation: a module's outcome, failed or not, does not stop the
   * modules after it.
   */
  lemma {:induction false} GatheredAppend(edges: Edges, a: seq<Path>, oa: seq<Outcome>, b: seq<Path>, ob: seq<Outcome>)
    requires |oa| == |a| && |ob| == |b|
    ensures Gathered(edges, a + b, oa + ob) == Gathered(Gathered(edges, a, oa), b, ob)
  {
    if b == [] {
      assert a + b == a && oa + ob == oa;
    } else {
      var n := |b| - 1;
      assert (a + b)[..|a| + n] == a + b[..n];
      assert (oa + ob)[..|a| + n] == oa + ob[..n];
      GatheredAppend(edges, a, oa, b[..n], ob[..n]);
    }
  }

  /** The nodes after gathering: the initial ones and exactly the modules whose extraction succeeded. */
  lemma {:induction false} GatheredKeys(edges: Edges, modules: seq<Path>, outcomes: seq<Outcome>, k: Path)
    requires |outcomes| == |modules|
    ensures k in Gathered(edges, modules, outcomes) <==>
      k in edges || exists i :: 0 <= i < |modules| && modules[i] == k && outcomes[i].Ok?
  {
    if modules != [] {
      var n := |modules| - 1;
      GatheredKeys(edges, modules[..n], outcomes[..n], k);
      if exists i :: 0 <= i < |modules| && modules[i] == k && outcomes[i].Ok? {
        var i :| 0 <= i < |modules| && modules[i] == k && outcomes[i].Ok?;
        if i < n {
          assert modules[..n][i] == k && outcomes[..n][i].Ok?;
        }
      }
      if exists i :: 0 <= i < n && modules[..n][i] == k && outcomes[..n][i].Ok? {
        var i :| 0 <= i < n && modules[..n][i] == k && outcomes[..n][i].Ok?;
        assert modules[i] == k && outcomes[i].Ok?;
      }
    }
  }

  /** A path that is not among the modules keeps whatever it had before. */
  lemma {:induction false} GatheredElsewhere(edges: Edges, modules: seq<Path>, outcomes: seq<Outcome>, k: Path)
    requires |outcomes| == |modules|
    requires forall i :: 0 <= i < |modules| ==> modules[i] != k
    ensures k in Gathered(edges, modules, outcomes) <==> k in edges
    ensures k in edges ==> Gathered(edges, modules, outcomes)[k] == edges[k]
  {
    if modules != [] {
      var n := |modules| - 1;
      GatheredElsewhere(edges, modules[..n], outcomes[..n], k);
    }
  }

  predicate Distinct(modules: seq<Path>) {
    forall i, j :: 0 <= i < j < |modules| ==> modules[i] != modules[j]
  }

  /**
   * Among distinct modules, one whose extraction succeeded is a node whose
   * targets are exactly its extracted targets, in order: none for a module
   * without requirements.
   */
  lemma GatheredEdges(modules: seq<Path>, outcomes: seq<Outcome>, i: nat)
    requires |outcomes| == |modules| && Distinct(modules)
    requires i < |modules| && outcomes[i].Ok?
    ensures modules[i] in Gathered(map[], modules, outcomes)
    ensures Gathered(map[], modules, outcomes)[modules[i]] == outcomes[i].value
  {
    var m := modules[i];
    var g0 := Gathered(map[], modules[..i], outcomes[..i]);
    assert m !in g0 by {
      forall j | 0 <= j < i ensures modules[..i][j] != m {
        assert modules[..i][j] == modules[j];
      }
      GatheredElsewhere(map[], modules[..i], outcomes[..i], m);
    }
    var mid := Gathered(map[], modules[..i + 1], outcomes[..i + 1]);
    assert m in mid && mid[m] == outcomes[i].value by {
      assert modules[..i + 1][..i] == modules[..i];
      assert outcomes[..i + 1][..i] == outcomes[..i];
      assert mid == Register(g0, m, outcomes[i]);
    }
    var after, oafter := modules[i + 1..], outcomes[i + 1..];
    assert Gathered(map[], modules, outcomes) == Gathered(mid, after, oafter) by {
      assert modules == modules[..i + 1] + after;
      assert outcomes == outcomes[..i + 1] + oafter;
      GatheredAppend(map[], modules[..i + 1], outcomes[..i + 1], after, oafter);
    }
    forall j | 0 <= j < |after| ensures after[j] != m {
      assert after[j] == modules[i + 1 + j];
    }
    GatheredElsewhere(mid, after, oafter, m);
  }

  /** Among distinct modules, one whose extraction failed is not a node. */
  lemma GatheredSkipsFailed(modules: seq<Path>, outcomes: seq<Outcome>, i: nat)
    requires |outcomes| == |modules| && Distinct(modules)
    requires i < |modules| && outcomes[i].Err?
    ensures modules[i] !in Gathered(map[], modules, outcomes)
  {
    GatheredKeys(map[], modules, outcomes, modules[i]);
  }

  predicate IsBareElFile(p: Path) {
    HasNoSeparator(p) && Extension(p) == Some(ElExtension)
  }

  predicate BareElTargets(edges: Edges) {
    forall k, j :: k in edges && 0 <= j < |edges[k]| ==> IsBareElFile(edges[k][j])
  }

  /** Each target a module file yields is a bare file name, without directory, whose extension is `el`. */
  lemma TargetsAreBare(file: SourceFile)
    ensures Targets(file).Ok? ==> forall j :: 0 <= j < |Targets(file).value| ==> IsBareElFile(Targets(file).value[j])
  {
    match Extraction(file) {
      case Err(_) =>
      case Ok(features) =>
        forall j | 0 <= j < |features| ensures IsBareElFile(FeaturePaths(features)[j]) {
          FeaturePathsAt(features, j);
          ToPathBufIsBareElFile(features[j]);
        }
    }
  }

  /** Gathering from bare `.el` targets only ever registers bare `.el` targets. */
  lemma {:induction false} GatheredTargetsAreBare(edges: Edges, modules: seq<Path>, outcomes: seq<Outcome>)
    requires |outcomes| == |modules|
    requires BareElTargets(edges)
    requires forall i, j :: 0 <= i < |outcomes| && outcomes[i].Ok? && 0 <= j < |outcomes[i].value| ==>
      IsBareElFile(outcomes[i].value[j])
    ensures BareElTargets(Gathered(edges, modules, outcomes))
  {
    if modules != [] {
      var n := |modules| - 1;
      GatheredTargetsAreBare(edges, modules[..n], outcomes[..n]);
      var g0 := Gathered(edges, modules[..n], outcomes[..n]);
      var g := Gathered(edges, modules, outcomes);
      if outcomes[n].Ok? && outcomes[n].value != [] {
        var tos := outcomes[n].value;
        forall k, j | k in g && 0 <= j < |g[k]| ensures IsBareElFile(g[k][j]) {
          if k == modules[n] && j >= |DepsOf(g0, k)| {
            assert g[k][j] == tos[j - |DepsOf(g0, k)|];
          }
        }
      }
    }
  }

  /** Every target gather_dependencies registers is a bare file name with extension `el`. */
  lemma GatheredGraphIsBare(elisps: seq<Path>, fs: Path -> SourceFile)
    ensures BareElTargets(Gathered(map[], elisps, Outcomes(elisps, fs)))
  {
    var outcomes := Outcomes(elisps, fs);
    forall i | 0 <= i < |outcomes|
      ensures outcomes[i].Ok? ==> forall j :: 0 <= j < |outcomes[i].value| ==> IsBareElFile(outcomes[i].value[j])
    {
      TargetsAreBare(fs(elisps[i]));
    }
    GatheredTargetsAreBare(map[], elisps, outcomes);
  }

  lemma {:induction false} CleanLogMeansAllExtracted(outcomes: seq<Outcome>)
    ensures Diagnostics(outcomes) == [] ==> forall i :: 0 <= i < |outcomes| ==> outcomes[i].Ok?
  {
    if outcomes != [] {
      var n := |outcomes| - 1;
      CleanLogMeansAllExtracted(outcomes[..n]);
      if Diagnostics(outcomes) == [] {
        forall i | 0 <= i < |outcomes| ensures outcomes[i].Ok? {
          if i < n {
            assert outcomes[..n][i] == outcomes[i];
          }
        }
      }
    }
  }

  lemma {:induction false} LoggedMeansSomeFailed(outcomes: seq<Outcome>)
    ensures Diagnostics(outcomes) != [] ==> exists i :: 0 <= i < |outcomes| && outcomes[i].Err?
  {
    if outcomes != [] {
      var n := |outcomes| - 1;
      LoggedMeansSomeFailed(outcomes[..n]);
      if outcomes[n].Ok? && Diagnostics(outcomes) != [] {
        var i :| 0 <= i < n && outcomes[..n][i].Err?;
        assert outcomes[i] == outcomes[..n][i];
      }
    }
  }

  /** An error is logged exactly when some module's extraction fails. */
  lemma DiagnosticsIffFailure(outcomes: seq<Outcome>)
    ensures Diagnostics(outcomes) == [] <==> forall i :: 0 <= i < |outcomes| ==> outcomes[i].Ok?
  {
    CleanLogMeansAllExtracted(outcomes);
    LoggedMeansSomeFailed(outcomes);
  }
}
