# eldep, modelled in Dafny

eldep lists the dependencies of the Emacs Lisp files in the current
directory. It reads every `.el` file and collects the features each one
requires with a line of the form `(require 'name)`. It registers a node and
edges for each file in a dependency graph. Then it prints one line per
file, listing the files that file depends on. With `-l` it lists only
dependencies that exist as files.

This project models that program's core, all of it in `src/main.rs`, in five
modules:

- `Wrappers`: `Option` and `Result`.
- `Paths`: Rust paths as sequences of units. A unit is a character or a
  raw byte from 0x80 to 0xFF, standing for a byte of a sequence that is not
  valid UTF-8. The module covers `extension`, `file_name`,
  `file_stem`, `join`, `set_extension` and `to_str`, as far as the program
  uses them.
- `Requires`: the requirement-line matcher, `Feature::to_path_buf`, and
  `extract_requires`. The model's `ExtractRequires` is a loop proved
  against a specification function.
- `Graph`: the graph registration policy of `gather_dependencies`. The
  graph is a class whose `RegisterNode` and `RegisterDependency` update a
  map from node to targets in place. `GatherDependencies` is a loop over
  the modules.
- `Resolve`: `parse_options`, the directory scan, the per-module filtering
  loop, and `resolve_dependencies`.

The file system is a parameter in this model:

- The directory listing is a `Listing` value.
- Each file's contents are given by a function from path to `SourceFile`:
  either the file cannot be opened, or it is a sequence of lines, each
  read or failed.
- `Path::is_file` is an `isFile` predicate.
- The graph library's transitive `dependencies_of` query is a parameter of
  type `Query`. It is applied to the gathered graph.

What is printed becomes a value: a sequence of `Report(module, names)`.
The errors `gather_dependencies` logs become a sequence of `ReadError`.

One consequence of the code is stated as a lemma rather than as a defect
(`Resolve.ModulePathIsNotFeaturePath`):

- A module's path is the directory joined with the entry name, e.g.
  `./a.el`.
- A feature's path is a bare name such as `a.el`.
- So the check that skips "the module's own path" (src/main.rs:70) can only
  remove the module's own node from the graph library's answer. It never
  removes a feature path, even one that names the module's own file.

Whether the library's answer contains the queried node at all is decided
inside the library, and that library is not part of this model.

## Model

| member | source | states |
|---|---|---|
| Paths.FromString | src/main.rs:18 | `PathBuf::from` a string; `Paths.AsStringFromString` and `Paths.FromStringAsString` state that it and `to_str` are inverse |
| Paths.AsString | src/main.rs:73 | `to_str` succeeds exactly when every unit is a character, and then yields those characters in order |
| Paths.AsStringFromString | src/main.rs:73 | a path made from a string converts back to that same string |
| Paths.FromStringAsString | src/main.rs:73 | a path that `to_str` converts is exactly the path of the resulting string, so a printed name identifies its path |
| Paths.Join | src/main.rs:57-58 | `entry.path()`, the directory joined with the entry name; `Paths.FileNameOfJoin` and `Paths.JoinInjective` state that the name is its file name and is determined by it |
| Paths.FileName | src/main.rs:19 | `Path::file_name`, behind `set_extension` at line 19 and `extension` at line 59; `Paths.FileNameOfJoin` and `Paths.WholeFileName` state its value on the paths the program builds |
| Paths.FileNameOfJoin | src/main.rs:57-58 | `dir.join(name)` has file name `name` for any entry name without a separator that is not empty, `.` or `..` |
| Paths.JoinInjective | src/main.rs:57-58 | under a fixed directory, `dir.join(name)` determines `name` |
| Paths.NameExtension | src/main.rs:59 | the split of a file name at its last dot behind `extension`, with a leading dot not counting; `Resolve.NameExtensionEl`, `Paths.NameWithExtension` and `Paths.PlainName` state its value |
| Paths.NameStem | src/main.rs:19 | the stem `set_extension` keeps; `Paths.NameWithExtension` and `Paths.PlainName` state its value |
| Paths.Extension | src/main.rs:59 | `Path::extension`; its properties are stated by `Resolve.NameExtensionEl`, `Resolve.IsElispIff` and `Paths.NameWithExtension` |
| Paths.SetExtension | src/main.rs:19 | `PathBuf::set_extension`; its effect on feature names is stated by `Requires.ToPathBufShape` and `Requires.ToPathBufIsBareElFile` |
| Paths.NameWithExtension | src/main.rs:17-21 | `stem.ext`, for a non-empty stem without dots or separators, is its own file name, has extension `ext` and stem `stem` |
| Paths.PlainName | src/main.rs:18 | a non-empty name without dots or separators is its own file name, has no extension, and is its own stem |
| Requires.IsWordChar | src/main.rs:110 | the class `\w`, as ASCII letters, digits and `_`; `Requires.NameCharExclusions` states which characters it excludes |
| Requires.IsFeatureName | src/main.rs:110 | the group `([\w-]+)`; `Requires.MatchRequire` and `Requires.MatchRequireComplete` state that the captures are exactly such names |
| Requires.NameCharExclusions | src/main.rs:110 | a character of the class `[\w-]` is never a quote, a parenthesis, a space, `.` or `/` |
| Requires.MatchRequire | src/main.rs:110 | a match's capture is a non-empty run of word characters and `-`; the line begins with `(require '`, then the capture, then `)` |
| Requires.MatchRequireComplete | src/main.rs:110 | every line of the form `(require '` + name + `)` + anything matches, and captures exactly `name` |
| Requires.UnanchoredLineDoesNotMatch | src/main.rs:110 | a line with any leading text that does not begin with `(` does not match (the pattern is anchored) |
| Requires.NoSeparatorNoDot | src/main.rs:110 | a captured name, as a path, has no separator and no dot |
| Requires.Feature.ToPathBuf | src/main.rs:17-21 | `Feature::to_path_buf`; `Requires.ToPathBufAppendsEl` states it is the name plus `.el`, `Requires.ToPathBufIsBareElFile` that it is a bare `.el` file name |
| Requires.ToPathBufShape | src/main.rs:17-21 | the path of a feature is its name followed by `.` and `el` |
| Requires.ToPathBufAppendsEl | src/main.rs:17-21 | the path of a feature is the path of the string `name + ".el"` |
| Requires.ToPathBufIsBareElFile | src/main.rs:17-21 | the path of a feature has no directory part; it is its own file name, its extension is `el` and its stem is the name |
| Requires.LineFeatures | src/main.rs:117-119 | a line contributes at most one feature |
| Requires.Requirements | src/main.rs:114-120 | the lines yield at most one feature per line, and every feature's name is a valid capture |
| Requires.RequirementsAppend | src/main.rs:115-120 | the features of concatenated lines are those of the first part followed by those of the second |
| Requires.MatchingLines | src/main.rs:117 | the indices listed are exactly the matching lines, in strictly increasing order |
| Requires.RequirementsByLine | src/main.rs:114-121 | one feature per matching line, the k-th being the capture of the k-th matching line; duplicates kept, other lines contribute nothing |
| Requires.FirstUndecodable | src/main.rs:115-116 | the index returned is the first line that cannot be read; every line before it was read |
| Requires.Extraction | src/main.rs:105-122 | a file that cannot be opened gives the open error; otherwise the first unreadable line's error, with every earlier line read; success means every line was read |
| Requires.ExtractRequires | src/main.rs:105-122 | the extraction loop returns exactly `Extraction(file)` |
| Graph.WithNode | src/main.rs:93 | registering a node adds exactly that key, keeps every existing node's targets, and gives a new node no targets |
| Graph.WithEdges | src/main.rs:96 | registering edges adds exactly the source key, appends the targets to its existing ones, and changes no other node |
| Graph.DepGraph.constructor | src/main.rs:88 | a new graph has no nodes |
| Graph.DepGraph.RegisterNode | src/main.rs:93 | `register_node` leaves the graph as `WithNode` of the old graph |
| Graph.DepGraph.RegisterDependency | src/main.rs:96 | `register_dependency` leaves the graph as `WithEdges` of the old graph with one target |
| Graph.FeaturePaths | src/main.rs:95-96 | one path per feature |
| Graph.FeaturePathsAt | src/main.rs:95-96 | the j-th path is the j-th feature's path, so order is kept |
| Graph.RegisterRequires | src/main.rs:90-100 | one loop iteration: failure registers nothing and logs the error; no features registers a lone node; otherwise one edge per feature, in order |
| Graph.GatherDependencies | src/main.rs:84-103 | the new graph is `Gathered` over all modules' outcomes, and the log is one error per failed module, in order |
| Graph.Register | src/main.rs:90-100 | one module's registration: the module becomes a node exactly when its read succeeded, and no other node is added; `Graph.RegisterRequires` is proved equal to it |
| Graph.Gathered | src/main.rs:89-101 | the graph after the module loop keeps every earlier node; `Graph.GatheredKeys`, `Graph.GatheredEdges`, `Graph.GatheredSkipsFailed` and `Graph.GatheredAppend` state its properties |
| Graph.Diagnostics | src/main.rs:99 | at most one error is logged per module; `Graph.DiagnosticsIffFailure` states that it is empty exactly when no read failed |
| Graph.GatheredAppend | src/main.rs:89-101 | gathering two lists of modules in turn equals gathering their concatenation, so a failure does not stop later modules |
| Graph.GatheredKeys | src/main.rs:89-101 | the nodes after gathering are the initial ones plus exactly the modules whose extraction succeeded |
| Graph.GatheredElsewhere | src/main.rs:89-101 | a path that is not among the modules keeps its node status and its targets |
| Graph.GatheredEdges | src/main.rs:91-97 | among distinct modules, a successfully read module is a node whose targets are exactly its features' paths, in order; no requirements gives an empty list |
| Graph.GatheredSkipsFailed | src/main.rs:99 | among distinct modules, a module whose extraction failed is not a node |
| Graph.Targets | src/main.rs:90-96 | what one `extract_requires` call gives the graph after `to_path_buf`; `Graph.TargetsAreBare` states that every target is a bare `.el` name |
| Graph.TargetsAreBare | src/main.rs:95-96 | every target a module yields is a bare name with extension `el` |
| Graph.GatheredTargetsAreBare | src/main.rs:89-101 | gathering from bare `.el` targets keeps every registered target bare |
| Graph.GatheredGraphIsBare | src/main.rs:84-103 | every target in the gathered graph is a bare name with extension `el` |
| Graph.CleanLogMeansAllExtracted | src/main.rs:99 | an empty log means every module was extracted |
| Graph.LoggedMeansSomeFailed | src/main.rs:99 | a non-empty log means some module failed |
| Graph.DiagnosticsIffFailure | src/main.rs:99 | the log is empty exactly when no extraction failed |
| Resolve.ParseOptions | src/main.rs:29-50 | starting from the default `false`, `local_only` is set exactly when some argument equals `-l` |
| Resolve.FirstFailedEntry | src/main.rs:57-58 | the index returned is the first entry that cannot be read; every entry before it was read |
| Resolve.CollectElisps | src/main.rs:56-64 | the scan loop returns exactly `Scan(dir, listing)`: an error if the directory or an entry cannot be read, otherwise the joined entry paths passing the extension test, in listing order |
| Resolve.IsElisp | src/main.rs:59-60 | the scan's test on a path; `Resolve.IsElispIff` states which entry names pass it |
| Resolve.Scan | src/main.rs:56-64 | the scan fails exactly when the directory or some entry cannot be read, and collects at most one path per entry; `Resolve.ScanMembers`, `Resolve.KeptAppend` and `Resolve.ScanDistinct` state what it collects and in which order |
| Resolve.IsElispIff | src/main.rs:59-60 | a joined entry is collected exactly when its name ends in `.el` after at least one more unit (`.el` alone is not collected) |
| Resolve.AsStringEl | src/main.rs:59-60 | an extension compares equal to `"el"` exactly when it is the units `e`, `l` |
| Resolve.NameExtensionEl | src/main.rs:59 | a file name's extension is `el` exactly when the name ends in `.el` after at least one more unit |
| Resolve.KeptAppend | src/main.rs:57-64 | collecting from two parts of a listing gives each part's paths, in order |
| Resolve.KeptMembers | src/main.rs:57-64 | a path is collected exactly when it is among the candidates and passes the test |
| Resolve.KeptDistinct | src/main.rs:57-64 | the scan's filter keeps distinct paths distinct |
| Resolve.ScanDistinct | src/main.rs:57-64 | entries with distinct names scan to distinct module paths, so the lemmas about distinct modules apply to the gathered graph |
| Resolve.EntryPaths | src/main.rs:57-58 | each entry's path in listing order; `Resolve.ScanMembers` and `Resolve.ScanDistinct` state what the scan keeps of them |
| Resolve.ScanMembers | src/main.rs:57-64 | a successful scan collects exactly the entry paths `dir.join(name)` with extension `el` |
| Resolve.Shown | src/main.rs:66-78 | the printed names never name the module's own path, and with `local_only` every one names a path passing `is_file` |
| Resolve.ShownAppend | src/main.rs:66-78 | the names printed for concatenated items are those of each part, in order |
| Resolve.ShownMembers | src/main.rs:66-78 | a name is printed exactly when some yielded path is that name's path, is not the module's own path, and passes `is_file` if `local_only` is set |
| Resolve.LocalOnlyFiltersFurther | src/main.rs:74 | with `local_only`, the list is the ordinary list with every name failing `is_file` removed |
| Resolve.FirstFailedItem | src/main.rs:68-69 | the index returned is the first yielded item that is an error; every item before it is a path |
| Resolve.DepsLine | src/main.rs:67-78 | a filtered list has at most one name per item, and an error is one the items carried; `Resolve.ShownMembers`, `Resolve.ShownAppend` and `Resolve.LocalOnlyFiltersFurther` state what the list holds |
| Resolve.FilterDeps | src/main.rs:67-78 | the inner loop returns the first yielded error, or `Ok` of the filtered names |
| Resolve.ModuleLine | src/main.rs:66-79 | a module's line names that module, never lists the module's own path, and with `local_only` lists only paths passing `is_file` |
| Resolve.ReportModule | src/main.rs:66-79 | one iteration of the printing loop returns exactly `ModuleLine` |
| Resolve.PrintReports | src/main.rs:66-81 | the printing loop yields the lines up to the first failing module and that module's error, as `Printed` states |
| Resolve.ResolveDependencies | src/main.rs:52-82 | a failed scan prints and logs nothing and returns its error; otherwise the log is the gathering log, and the printed lines and outcome are `Printed` over the gathered graph |
| Resolve.Printed | src/main.rs:66-81 | at most one line per module is printed; `Resolve.PrintedPrefix` states that the run succeeds exactly when every module's line succeeds, and `Resolve.PrintedFollowsScan` its order |
| Resolve.PrintedPrefix | src/main.rs:66-81 | the printed lines are the leading successful lines in order; the run succeeds exactly when all lines succeed, and otherwise fails with the first failing line's error |
| Resolve.PrintedFollowsScan | src/main.rs:66-81 | lines appear in scan order, one per module; none lists its own module; a successful run prints a line for every module |
| Resolve.ModulePathIsNotFeaturePath | src/main.rs:58-70 | a module path joined under a non-empty directory never equals a feature's path, so the self check never removes a feature path |

## Left out

- `solvent::DepGraph` internals. The crate is not part of this model. Its transitive `dependencies_of` traversal, that traversal's order, and its errors are the `Query` parameter.
- `register_node` and `register_dependency` are modelled as a map from node to the targets registered for it, in order:
  - registering an existing node keeps its edges;
  - `register_dependency` does not also make the target a node.

  The crate's own storage is not part of this model.
- File system I/O:
  - `read_dir` and entry reads are the `Listing` value;
  - `File::open` and `BufReader::lines` are the `SourceFile` value, where a line that cannot be read or decoded is `Undecodable`;
  - `Path::is_file` is the `isFile` parameter.
- Output: the `println!` and `eprintln!` formatting (src/main.rs:38, 79, 99) is not modelled. Lines and errors are values.
- `\w` is modelled as ASCII letters, digits and `_`. The regex crate's Unicode word characters are not modelled.
- The regular-expression engine is not modelled. Only the one fixed pattern is, as a parser.
- `Paths.byte` only admits bytes 0x80 to 0xFF, as every byte of an invalid UTF-8 sequence is. A run of raw bytes that would itself decode as UTF-8 (such as 0xC3 0xA9) is not excluded, so such a path can be spelled both with characters and with raw bytes, and the two spellings are not equal in the model.
- Path comparison is equality of unit sequences. Rust compares paths component by component, so `a//b` equals `a/b` in Rust but not in the model.
- `Paths.FileName` returns no file name for a path whose last component is empty, `.` or `..`. Rust agrees only for the empty path, `.`, and a path whose last component is `..`: for `a/` and `a/.` Rust skips the trailing separator or `.` and returns `a`, while the model returns none. Rust also drops interior `.` components, which the model does not. The program only applies `file_name` to joined directory entries and bare feature names, where the two agree.
- The same `Join` and `FileName` are used for every platform. Windows separators and prefixes are not modelled.
- `lazy_static` initialisation and the reading of `env::args` are not modelled. `ParseOptions` takes the argument list, including the program name, as it does in the source.
- `main` (src/main.rs:35-40) only passes `"."` to `ResolveDependencies` and logs its error. It has no member of its own.
